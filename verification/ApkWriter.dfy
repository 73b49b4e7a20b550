/**
 The archive writer: members with true sizes and checksums, an optional signing block holding one v2
 value, the central directory and the end record. Reading inverts it.
 */
module ApkWriter {
  import opened Prelude
  import opened Positional
  import opened ZipFields
  import opened ZipDirectory
  import opened SB = SigningBlock
  import opened ApkInventory
  import opened ApkInflation

  datatype Part = Part(name: bytes, content: bytes, compression: nat)

  // Fields written into a zeroed header

  function Zeros(n: nat): (z: bytes)
    ensures |z| == n
  {
    seq(n, _ => 0)
  }

  /** `buffer` with `field` copied in at `at`. */
  function Put(buffer: bytes, at: nat, field: bytes): (r: bytes)
    requires at + |field| <= |buffer|
    ensures |r| == |buffer|
  {
    buffer[..at] + field + buffer[at + |field|..]
  }

  method PutInto(buffer: array<byte>, at: nat, field: bytes)
    requires at + |field| <= buffer.Length
    modifies buffer
    ensures buffer[..] == Put(old(buffer[..]), at, field)
  {
    for k := 0 to |field|
      invariant forall j | 0 <= j < buffer.Length ::
        buffer[j] == if at <= j < at + k then field[j - at] else old(buffer[j])
    {
      buffer[at + k] := field[k];
    }
  }

  /** What is written stands where it was put, and nothing else moves. */
  lemma PutHolds(buffer: bytes, at: nat, field: bytes)
    requires at + |field| <= |buffer|
    ensures Holds(Put(buffer, at, field), at, field)
    ensures forall a: nat, piece :: (a + |piece| <= at || at + |field| <= a) && Holds(buffer, a, piece) ==>
      Holds(Put(buffer, at, field), a, piece)
  {
    var r := Put(buffer, at, field);
    assert forall k | 0 <= k < |buffer| :: r[k] == if at <= k < at + |field| then field[k - at] else buffer[k];
    forall a: nat, piece | (a + |piece| <= at || at + |field| <= a) && Holds(buffer, a, piece)
      ensures Holds(r, a, piece)
    {
      assert r[a..a + |piece|] == buffer[a..a + |piece|];
    }
  }

  lemma ZerosHold(n: nat, at: nat, k: nat)
    requires at + k <= n
    ensures Holds(Zeros(n), at, Zeros(k)) && (k == 2 ==> Zeros(k) == LeBytes(0, 2))
  {
    assert Zeros(n)[at..at + k] == Zeros(k);
    TwoBytes(0);
  }

  lemma TwoBytes(n: nat)
    ensures LeBytes(n, 2) == [n % 256, n / 256 % 256]
  {
  }

  lemma HoldsWithin(data: bytes, at: nat, outer: bytes, offset: nat, piece: bytes)
    requires Holds(data, at, outer) && Holds(outer, offset, piece)
    ensures Holds(data, at + offset, piece)
  {
    var slice := data[at + offset..at + offset + |piece|];
    forall k | 0 <= k < |piece|
      ensures slice[k] == piece[k]
    {
      assert data[at..at + |outer|][offset + k] == data[at + offset + k];
      assert outer[offset..offset + |piece|][k] == outer[offset + k];
    }
    assert slice == piece;
  }

  // The layout

  function Packed(codec: Codec, p: Part): bytes {
    if p.compression == 8 then codec.deflate(p.content) else p.content
  }

  function LocalHeaderBytes(codec: Codec, p: Part): (header: bytes)
    ensures |header| == 30
  {
    var h0 := Put(Zeros(30), 0, LOCAL_SIGNATURE);
    var h1 := Put(h0, 8, LeBytes(p.compression, 2));
    var h2 := Put(h1, 14, LeBytes(codec.crc32(p.content), 4));
    var h3 := Put(h2, 18, LeBytes(|Packed(codec, p)|, 4));
    var h4 := Put(h3, 22, LeBytes(|p.content|, 4));
    Put(h4, 26, LeBytes(|p.name|, 2))
  }

  function CentralHeaderBytes(codec: Codec, p: Part, at: nat): (header: bytes)
    ensures |header| == 46
  {
    var h0 := Put(Zeros(46), 0, CENTRAL_SIGNATURE);
    var h1 := Put(h0, 10, LeBytes(p.compression, 2));
    var h2 := Put(h1, 16, LeBytes(codec.crc32(p.content), 4));
    var h3 := Put(h2, 20, LeBytes(|Packed(codec, p)|, 4));
    var h4 := Put(h3, 24, LeBytes(|p.content|, 4));
    var h5 := Put(h4, 28, LeBytes(|p.name|, 2));
    Put(h5, 42, LeBytes(at, 4))
  }

  function EndRecordBytes(count: nat, dirSize: nat, dirAt: nat): (record: bytes)
    ensures |record| == 22
  {
    var h0 := Put(Zeros(22), 0, EOCD_SIGNATURE);
    var h1 := Put(h0, 8, LeBytes(count, 2));
    var h2 := Put(h1, 10, LeBytes(count, 2));
    var h3 := Put(h2, 12, LeBytes(dirSize, 4));
    Put(h3, 16, LeBytes(dirAt, 4))
  }

  function LocalBytes(codec: Codec, p: Part): bytes {
    LocalHeaderBytes(codec, p) + (p.name + Packed(codec, p))
  }

  /** The local headers, names and payloads, in order. */
  function Locals(codec: Codec, parts: seq<Part>): bytes {
    if |parts| == 0 then []
    else Locals(codec, parts[..|parts| - 1]) + LocalBytes(codec, parts[|parts| - 1])
  }

  function CentralBytes(codec: Codec, p: Part, at: nat): bytes {
    CentralHeaderBytes(codec, p, at) + p.name
  }

  function Central(codec: Codec, parts: seq<Part>): bytes {
    if |parts| == 0 then []
    else
      var init := parts[..|parts| - 1];
      Central(codec, init) + CentralBytes(codec, parts[|parts| - 1], |Locals(codec, init)|)
  }

  function SigningPart(v2: Option<bytes>): bytes {
    if v2.None? then [] else EncodeBlock([Pair(V2_ID, v2.value)])
  }

  function DirectoryAt(codec: Codec, parts: seq<Part>, v2: Option<bytes>): nat {
    |Locals(codec, parts)| + |SigningPart(v2)|
  }

  function Apk(codec: Codec, parts: seq<Part>, v2: Option<bytes>): bytes {
    var central := Central(codec, parts);
    Locals(codec, parts)
    + (SigningPart(v2)
       + (central + EndRecordBytes(|parts|, |central|, DirectoryAt(codec, parts, v2))))
  }

  /** Sizes the writer's fields can hold; it panics on any other. Names are `&str`, so UTF-8. */
  ghost predicate Writable(codec: Codec, parts: seq<Part>, v2: Option<bytes>) {
    && (forall k | 0 <= k < |parts| :: PartFits(codec, parts[k]))
    && |parts| < 0x1_0000
    && DirectoryAt(codec, parts, v2) < 0x1_0000_0000
    && |Central(codec, parts)| < 0x1_0000_0000
  }

  ghost predicate PartFits(codec: Codec, p: Part) {
    && ValidUtf8(p.name) && |p.name| < 0x1_0000 && p.compression < 0x1_0000
    && codec.crc32(p.content) < 0x1_0000_0000
    && |Packed(codec, p)| < 0x1_0000_0000 && |p.content| < 0x1_0000_0000
  }

  // Reading a header back

  /** What stands where in a local header: every one of its thirty bytes. */
  ghost predicate LocalHeaderStates(h: bytes, codec: Codec, p: Part) {
    && |h| == 30
    && Holds(h, 0, LOCAL_SIGNATURE) && Holds(h, 4, Zeros(4)) && Holds(h, 8, LeBytes(p.compression, 2))
    && Holds(h, 10, Zeros(4)) && Holds(h, 14, LeBytes(codec.crc32(p.content), 4))
    && Holds(h, 18, LeBytes(|Packed(codec, p)|, 4)) && Holds(h, 22, LeBytes(|p.content|, 4))
    && Holds(h, 26, LeBytes(|p.name|, 2)) && Holds(h, 28, LeBytes(0, 2))
  }

  /** What stands where in a central header whose local entry is at `at`. */
  ghost predicate CentralHeaderStates(h: bytes, codec: Codec, p: Part, at: nat) {
    && |h| == 46
    && Holds(h, 0, CENTRAL_SIGNATURE) && Holds(h, 4, Zeros(4)) && Holds(h, 8, LeBytes(0, 2))
    && Holds(h, 10, LeBytes(p.compression, 2)) && Holds(h, 12, Zeros(4))
    && Holds(h, 16, LeBytes(codec.crc32(p.content), 4)) && Holds(h, 20, LeBytes(|Packed(codec, p)|, 4))
    && Holds(h, 24, LeBytes(|p.content|, 4)) && Holds(h, 28, LeBytes(|p.name|, 2))
    && Holds(h, 30, LeBytes(0, 2)) && Holds(h, 32, LeBytes(0, 2)) && Holds(h, 34, Zeros(8))
    && Holds(h, 42, LeBytes(at, 4))
  }

  /** What stands where in an end record. */
  ghost predicate EndRecordHas(h: bytes, count: nat, dirSize: nat, dirAt: nat) {
    && |h| == 22
    && Holds(h, 0, EOCD_SIGNATURE) && Holds(h, 4, LeBytes(0, 2)) && Holds(h, 6, LeBytes(0, 2))
    && Holds(h, 8, LeBytes(count, 2)) && Holds(h, 10, LeBytes(count, 2))
    && Holds(h, 12, LeBytes(dirSize, 4)) && Holds(h, 16, LeBytes(dirAt, 4)) && Holds(h, 20, LeBytes(0, 2))
  }

  lemma LocalHeaderHolds(codec: Codec, p: Part)
    ensures LocalHeaderStates(LocalHeaderBytes(codec, p), codec, p)
  {
    hide Holds, Put, LeBytes, Zeros, Packed;
    var h0 := Put(Zeros(30), 0, LOCAL_SIGNATURE);
    var h1 := Put(h0, 8, LeBytes(p.compression, 2));
    var h2 := Put(h1, 14, LeBytes(codec.crc32(p.content), 4));
    var h3 := Put(h2, 18, LeBytes(|Packed(codec, p)|, 4));
    var h4 := Put(h3, 22, LeBytes(|p.content|, 4));
    ZerosHold(30, 4, 4);
    ZerosHold(30, 10, 4);
    ZerosHold(30, 28, 2);
    PutHolds(Zeros(30), 0, LOCAL_SIGNATURE);
    PutHolds(h0, 8, LeBytes(p.compression, 2));
    PutHolds(h1, 14, LeBytes(codec.crc32(p.content), 4));
    PutHolds(h2, 18, LeBytes(|Packed(codec, p)|, 4));
    PutHolds(h3, 22, LeBytes(|p.content|, 4));
    PutHolds(h4, 26, LeBytes(|p.name|, 2));
  }

  lemma CentralHeaderHolds(codec: Codec, p: Part, at: nat)
    ensures CentralHeaderStates(CentralHeaderBytes(codec, p, at), codec, p, at)
  {
    hide Holds, Put, LeBytes, Zeros, Packed;
    var h0 := Put(Zeros(46), 0, CENTRAL_SIGNATURE);
    var h1 := Put(h0, 10, LeBytes(p.compression, 2));
    var h2 := Put(h1, 16, LeBytes(codec.crc32(p.content), 4));
    var h3 := Put(h2, 20, LeBytes(|Packed(codec, p)|, 4));
    var h4 := Put(h3, 24, LeBytes(|p.content|, 4));
    var h5 := Put(h4, 28, LeBytes(|p.name|, 2));
    ZerosHold(46, 4, 4);
    ZerosHold(46, 8, 2);
    ZerosHold(46, 12, 4);
    ZerosHold(46, 30, 2);
    ZerosHold(46, 32, 2);
    ZerosHold(46, 34, 8);
    PutHolds(Zeros(46), 0, CENTRAL_SIGNATURE);
    PutHolds(h0, 10, LeBytes(p.compression, 2));
    PutHolds(h1, 16, LeBytes(codec.crc32(p.content), 4));
    PutHolds(h2, 20, LeBytes(|Packed(codec, p)|, 4));
    PutHolds(h3, 24, LeBytes(|p.content|, 4));
    PutHolds(h4, 28, LeBytes(|p.name|, 2));
    PutHolds(h5, 42, LeBytes(at, 4));
  }

  lemma EndRecordHolds(count: nat, dirSize: nat, dirAt: nat)
    ensures EndRecordHas(EndRecordBytes(count, dirSize, dirAt), count, dirSize, dirAt)
  {
    hide Holds, Put, LeBytes, Zeros;
    var h0 := Put(Zeros(22), 0, EOCD_SIGNATURE);
    var h1 := Put(h0, 8, LeBytes(count, 2));
    var h2 := Put(h1, 10, LeBytes(count, 2));
    var h3 := Put(h2, 12, LeBytes(dirSize, 4));
    ZerosHold(22, 4, 2);
    ZerosHold(22, 6, 2);
    ZerosHold(22, 20, 2);
    PutHolds(Zeros(22), 0, EOCD_SIGNATURE);
    PutHolds(h0, 8, LeBytes(count, 2));
    PutHolds(h1, 10, LeBytes(count, 2));
    PutHolds(h2, 12, LeBytes(dirSize, 4));
    PutHolds(h3, 16, LeBytes(dirAt, 4));
  }

  /** A 16-bit field inside a header that stands in the file. */
  lemma Field16(data: Slice, at: usize, header: bytes, offset: nat, n: nat)
    requires Holds(data, at, header) && Holds(header, offset, LeBytes(n, 2)) && n < 0x1_0000
    ensures at + offset + 2 <= |data| && Le16(data, at + offset) == Some(n)
  {
    HoldsWithin(data, at, header, offset, LeBytes(n, 2));
    Widths();
    HoldsField(data, at + offset, n, 2);
  }

  lemma Field32(data: Slice, at: usize, header: bytes, offset: nat, n: nat)
    requires Holds(data, at, header) && Holds(header, offset, LeBytes(n, 4)) && n < 0x1_0000_0000
    ensures at + offset + 4 <= |data| && Le32(data, at + offset) == Some(n)
  {
    HoldsWithin(data, at, header, offset, LeBytes(n, 4));
    Widths();
    HoldsField(data, at + offset, n, 4);
  }

  lemma Piece(data: Slice, at: usize, header: bytes, offset: nat, piece: bytes)
    requires Holds(data, at, header) && Holds(header, offset, piece)
    ensures at + offset + |piece| <= |data| && CheckedRange(data, at + offset, |piece|) == Some(piece)
  {
    HoldsWithin(data, at, header, offset, piece);
  }

  lemma Standing(data: Slice, at: usize, piece: bytes)
    requires Holds(data, at, piece)
    ensures at + |piece| <= |data| && CheckedRange(data, at, |piece|) == Some(piece)
  {
  }

  /** The payload of a local entry written at `at` starts after its header and name. */
  lemma LocalRead(codec: Codec, p: Part, data: Slice, at: usize)
    requires PartFits(codec, p) && at < 0x1_0000_0000 && Holds(data, at, LocalBytes(codec, p))
    ensures PayloadStart(data, at, p.name) == Ok(at + 30 + |p.name|)
    ensures Holds(data, at + 30 + |p.name|, Packed(codec, p))
  {
    hide Holds, LocalHeaderBytes, Le16, LeBytes, Packed, ValidUtf8;
    var h := LocalHeaderBytes(codec, p);
    HoldsJoin(data, at, h, p.name + Packed(codec, p));
    HoldsJoin(data, at + 30, p.name, Packed(codec, p));
    LocalHeaderHolds(codec, p);
    Piece(data, at, h, 0, LOCAL_SIGNATURE);
    Field16(data, at, h, 26, |p.name|);
    Field16(data, at, h, 28, 0);
    Standing(data, at + 30, p.name);
  }

  /** The member a central and a local entry, written for one part, are read as. */
  lemma MemberRead(codec: Codec, p: Part, data: Slice, pos: usize, at: usize, dirStart: usize, dirEnd: usize)
    requires PartFits(codec, p) && at < 0x1_0000_0000
    requires Holds(data, pos, CentralBytes(codec, p, at)) && Holds(data, at, LocalBytes(codec, p))
    requires pos + |CentralBytes(codec, p, at)| <= dirEnd && at + |LocalBytes(codec, p)| <= dirStart
    ensures MemberAt(data, pos, dirStart, dirEnd) == Ok(MemberOf(codec, p, at, pos))
  {
    hide Holds, CentralHeaderBytes, LocalHeaderBytes, Le16, Le32, LeBytes, Packed, ValidUtf8, PayloadStart;
    var h := CentralHeaderBytes(codec, p, at);
    HoldsJoin(data, pos, h, p.name);
    CentralHeaderHolds(codec, p, at);
    Piece(data, pos, h, 0, CENTRAL_SIGNATURE);
    Field16(data, pos, h, 8, 0);
    Field16(data, pos, h, 10, p.compression);
    Field32(data, pos, h, 16, codec.crc32(p.content));
    Field32(data, pos, h, 20, |Packed(codec, p)|);
    Field32(data, pos, h, 24, |p.content|);
    Field16(data, pos, h, 28, |p.name|);
    Field16(data, pos, h, 30, 0);
    Field16(data, pos, h, 32, 0);
    Field32(data, pos, h, 42, at);
    Standing(data, pos + 46, p.name);
    LocalRead(codec, p, data, at);
  }

  /** The member of a part whose local entry is at `at` and whose central entry is at `pos`. */
  function MemberOf(codec: Codec, p: Part, at: nat, pos: nat): Member
    requires at + |LocalBytes(codec, p)| <= USIZE_MAX && pos + |CentralBytes(codec, p, at)| <= USIZE_MAX
    requires |p.content| <= USIZE_MAX
  {
    Member(p.name, 0, p.compression, codec.crc32(p.content), |p.content|,
           pos + 46 + |p.name|, at + 30 + |p.name|, |Packed(codec, p)|)
  }

  // Reading an archive back

  /** The members of `parts` in an archive whose directory starts at `dirStart`. */
  function MembersOf(codec: Codec, parts: seq<Part>, dirStart: nat): seq<Member>
    requires |Locals(codec, parts)| < 0x1_0000_0000 && dirStart + |Central(codec, parts)| <= ISIZE_MAX
    requires forall k | 0 <= k < |parts| :: |parts[k].content| < 0x1_0000_0000
  {
    if |parts| == 0 then []
    else
      var init, p := parts[..|parts| - 1], parts[|parts| - 1];
      MembersOf(codec, init, dirStart)
      + [MemberOf(codec, p, |Locals(codec, init)|, dirStart + |Central(codec, init)|)]
  }

  lemma {:induction false} EntriesRead(codec: Codec, parts: seq<Part>, data: Slice, dirStart: usize, dirEnd: usize)
    requires forall k | 0 <= k < |parts| :: PartFits(codec, parts[k])
    requires forall k | 0 <= k < |parts| :: |parts[k].content| < 0x1_0000_0000
    requires |Locals(codec, parts)| <= dirStart < 0x1_0000_0000 && dirStart + |Central(codec, parts)| <= dirEnd <= |data|
    requires Holds(data, 0, Locals(codec, parts)) && Holds(data, dirStart, Central(codec, parts))
    ensures Entries(data, dirStart, dirEnd, |parts|)
         == Ok((MembersOf(codec, parts, dirStart), dirStart + |Central(codec, parts)|))
  {
    hide Holds, PartFits, MemberAt, MemberOf, LocalBytes, CentralBytes;
    PartSizes(codec, parts);
    if |parts| > 0 {
      var init, p := parts[..|parts| - 1], parts[|parts| - 1];
      var at, pos := |Locals(codec, init)|, dirStart + |Central(codec, init)|;
      HoldsJoin(data, 0, Locals(codec, init), LocalBytes(codec, p));
      HoldsJoin(data, dirStart, Central(codec, init), CentralBytes(codec, p, at));
      EntriesRead(codec, init, data, dirStart, dirEnd);
      MemberRead(codec, p, data, pos, at, dirStart, dirEnd);
      NextOf(codec, p, at, pos);
    }
  }

  lemma PartSizes(codec: Codec, parts: seq<Part>)
    requires forall k | 0 <= k < |parts| :: PartFits(codec, parts[k])
    ensures forall k | 0 <= k < |parts| :: |parts[k].name| < 0x1_0000 && |parts[k].content| < 0x1_0000_0000
  {
  }

  lemma NextOf(codec: Codec, p: Part, at: nat, pos: nat)
    requires at + |LocalBytes(codec, p)| <= USIZE_MAX && pos + |CentralBytes(codec, p, at)| <= USIZE_MAX
    requires |p.content| <= USIZE_MAX
    ensures MemberOf(codec, p, at, pos).next == pos + |CentralBytes(codec, p, at)|
  {
    hide CentralHeaderBytes, LocalHeaderBytes;
  }

  /** Where the pieces of a written archive stand. */
  lemma ApkPieces(codec: Codec, parts: seq<Part>, v2: Option<bytes>, data: bytes)
    requires data == Apk(codec, parts, v2)
    ensures var central, dirAt := Central(codec, parts), DirectoryAt(codec, parts, v2);
      && |data| == dirAt + |central| + 22
      && Holds(data, 0, Locals(codec, parts))
      && Holds(data, |Locals(codec, parts)|, SigningPart(v2))
      && Holds(data, dirAt, central)
      && Holds(data, dirAt + |central|, EndRecordBytes(|parts|, |central|, dirAt))
  {
    hide Locals, SigningPart, Central, EndRecordBytes;
    var central, dirAt := Central(codec, parts), DirectoryAt(codec, parts, v2);
    var end := EndRecordBytes(|parts|, |central|, dirAt);
    WholeHolds(data);
    hide Holds;
    HoldsJoin(data, 0, Locals(codec, parts), SigningPart(v2) + (central + end));
    HoldsJoin(data, |Locals(codec, parts)|, SigningPart(v2), central + end);
    HoldsJoin(data, dirAt, central, end);
  }

  lemma WholeHolds(data: bytes)
    ensures Holds(data, 0, data)
  {
    assert data[0..|data|] == data;
  }

  /** The end record closes the file, so it is the one found, and its fields are the ones written. */
  lemma BoundsRead(codec: Codec, parts: seq<Part>, v2: Option<bytes>, data: Slice)
    requires Writable(codec, parts, v2) && data == Apk(codec, parts, v2)
    ensures var size, dirAt := |Central(codec, parts)|, DirectoryAt(codec, parts, v2);
      DirectoryBounds(data) ==
        if |parts| == 0xFFFF || size == 0xFFFF_FFFF || dirAt == 0xFFFF_FFFF then Err(Zip64)
        else if |parts| == 0 || |parts| > MAX_ENTRIES then Err(EntryCount)
        else Ok((|parts|, dirAt, dirAt + size))
  {
    hide Holds, Locals, SigningPart, Central, EndRecordBytes, Le16, Le32, LeBytes, LastEndRecord;
    var size, dirAt := |Central(codec, parts)|, DirectoryAt(codec, parts, v2);
    var end, h := dirAt + size, EndRecordBytes(|parts|, size, dirAt);
    ApkPieces(codec, parts, v2, data);
    EndRecordHolds(|parts|, size, dirAt);
    Piece(data, end, h, 0, EOCD_SIGNATURE);
    Field16(data, end, h, 4, 0);
    Field16(data, end, h, 6, 0);
    Field16(data, end, h, 8, |parts|);
    Field16(data, end, h, 10, |parts|);
    Field32(data, end, h, 12, size);
    Field32(data, end, h, 16, dirAt);
    Field16(data, end, h, 20, 0);
    assert EndRecordAt(data, end);
    LastAt(data, end);
  }

  lemma LastAt(data: Slice, end: usize)
    requires EndRecordAt(data, end) && end == |data| - 22
    ensures EndRecord(data) == Ok(end)
  {
    assert forall pos: usize | end < pos < |data| :: !EndRecordAt(data, pos);
  }

  lemma {:induction false} DirectorySize(codec: Codec, parts: seq<Part>)
    requires forall k | 0 <= k < |parts| :: |parts[k].name| < 0x1_0000
    ensures |Central(codec, parts)| <= |parts| * 65581
  {
    hide CentralHeaderBytes, LocalHeaderBytes, LocalBytes;
    if |parts| > 0 {
      DirectorySize(codec, parts[..|parts| - 1]);
    }
  }

  ghost predicate HasManifest(parts: seq<Part>) {
    exists k | 0 <= k < |parts| :: parts[k].name == Ascii("AndroidManifest.xml")
  }

  lemma {:induction false} MembersNamed(codec: Codec, parts: seq<Part>, dirStart: nat)
    requires |Locals(codec, parts)| < 0x1_0000_0000 && dirStart + |Central(codec, parts)| <= ISIZE_MAX
    requires forall k | 0 <= k < |parts| :: |parts[k].content| < 0x1_0000_0000
    ensures var ms := MembersOf(codec, parts, dirStart);
      |ms| == |parts| && forall k | 0 <= k < |parts| :: ms[k].name == parts[k].name
    ensures First(MembersOf(codec, parts, dirStart), IsManifest).Some? <==> HasManifest(parts)
  {
    hide CentralBytes, LocalBytes, First, HasManifest;
    MembersNames(codec, parts, dirStart);
    ManifestFound(MembersOf(codec, parts, dirStart), parts);
  }

  lemma {:induction false} MembersNames(codec: Codec, parts: seq<Part>, dirStart: nat)
    requires |Locals(codec, parts)| < 0x1_0000_0000 && dirStart + |Central(codec, parts)| <= ISIZE_MAX
    requires forall k | 0 <= k < |parts| :: |parts[k].content| < 0x1_0000_0000
    ensures var ms := MembersOf(codec, parts, dirStart);
      |ms| == |parts| && forall k | 0 <= k < |parts| :: ms[k].name == parts[k].name
  {
    hide CentralBytes, LocalBytes;
    if |parts| > 0 {
      var init := parts[..|parts| - 1];
      MembersNames(codec, init, dirStart);
      assert forall k | 0 <= k < |init| :: parts[k] == init[k];
    }
  }

  lemma ManifestFound(ms: seq<Member>, parts: seq<Part>)
    requires |ms| == |parts| && forall k | 0 <= k < |parts| :: ms[k].name == parts[k].name
    ensures First(ms, IsManifest).Some? <==> HasManifest(parts)
  {
    hide Select, Ascii;
    SelectMembers(ms, IsManifest);
    if First(ms, IsManifest).Some? {
      FirstFound(ms, IsManifest);
      var k :| 0 <= k < |ms| && ms[k] == First(ms, IsManifest).value;
      assert parts[k].name == ms[k].name;
    }
    if HasManifest(parts) {
      var k :| 0 <= k < |parts| && parts[k].name == Ascii("AndroidManifest.xml");
      assert ms[k] in ms && IsManifest(ms[k]);
      assert ms[k] in Select(ms, IsManifest);
    }
  }

  /** What the writer accepts and the reader must too: 1 to 8192 parts, a manifest, no ZIP64 offset. */
  ghost predicate Readable(codec: Codec, parts: seq<Part>, v2: Option<bytes>) {
    0 < |parts| <= MAX_ENTRIES && HasManifest(parts) && DirectoryAt(codec, parts, v2) != 0xFFFF_FFFF
  }

  /**
   The reader takes a written archive exactly when it has 1 to 8192 parts, one of them the manifest,
   and its directory offset is not the ZIP64 marker; then its members are the parts, in order.
   */
  lemma WrittenMembers(codec: Codec, parts: seq<Part>, v2: Option<bytes>, data: Slice)
    requires Writable(codec, parts, v2) && data == Apk(codec, parts, v2)
    ensures WalkSpec(data).Ok? <==> Readable(codec, parts, v2)
    ensures Readable(codec, parts, v2) ==> Members(data) == Ok(MembersOf(codec, parts, DirectoryAt(codec, parts, v2)))
  {
    hide Holds, Locals, SigningPart, Central, PartFits, MembersOf, Entries, Apk, HasManifest, First, SigningBlockSpec,
      InventoryOf, ArchiveOf, DirectoryBounds;
    var size, dirAt := |Central(codec, parts)|, DirectoryAt(codec, parts, v2);
    PartSizes(codec, parts);
    DirectorySize(codec, parts);
    ApkPieces(codec, parts, v2, data);
    BoundsRead(codec, parts, v2, data);
    if 0 < |parts| <= MAX_ENTRIES && dirAt != 0xFFFF_FFFF {
      EntriesRead(codec, parts, data, dirAt, dirAt + size);
      MembersNamed(codec, parts, dirAt);
    }
  }

  /** A stored, empty manifest makes the smallest archive the reader accepts. */
  lemma {:induction false} SmallestAccepted(codec: Codec) returns (data: Slice)
    requires codec.crc32([]) < 0x1_0000_0000
    ensures |data| == 136 && WalkSpec(data).Ok? && |Members(data).value| == 1
  {
    hide WalkSpec, Members, LocalHeaderBytes, CentralHeaderBytes, EndRecordBytes, ValidUtf8, MembersOf;
    var p := Part(Ascii("AndroidManifest.xml"), [], 0);
    var parts := [p];
    assert parts[..0] == [];
    AsciiUtf8(p.name);
    assert |LocalBytes(codec, p)| == 49 && |CentralBytes(codec, p, 0)| == 65;
    assert Locals(codec, parts) == [] + LocalBytes(codec, p);
    assert Central(codec, parts) == [] + CentralBytes(codec, p, |Locals(codec, [])|);
    assert parts[0].name == Ascii("AndroidManifest.xml");
    data := Apk(codec, parts, None);
    WrittenMembers(codec, parts, None, data);
    PartSizes(codec, parts);
    MembersNames(codec, parts, DirectoryAt(codec, parts, None));
  }

  lemma {:induction false} AsciiUtf8(name: bytes)
    requires forall k | 0 <= k < |name| :: name[k] < 128
    ensures ValidUtf8(name)
    decreases |name|
  {
    if |name| > 0 {
      AsciiUtf8(name[1..]);
    }
  }

  /** The v2 value is the one signing value read back, and the block starts where the members end. */
  lemma WrittenSigning(codec: Codec, parts: seq<Part>, value: bytes, data: Slice)
    requires Writable(codec, parts, Some(value)) && data == Apk(codec, parts, Some(value))
    requires Readable(codec, parts, Some(value))
    ensures WalkSpec(data).Ok?
    ensures var (i, a) := WalkSpec(data).value;
      && i.signingBlockPresent && i.schemes == {V2} && i.duplicateSchemes == {}
      && a.signingValues == [(V2, value)] && a.signingStart == Some(|Locals(codec, parts)|)
  {
    hide Holds, Locals, Central, Apk, Members, SigningBlockSpec, EncodeBlock, Readable, DirectoryBounds, Select;
    var ps, start, dirAt := [Pair(V2_ID, value)], |Locals(codec, parts)|, DirectoryAt(codec, parts, Some(value));
    WrittenMembers(codec, parts, Some(value), data);
    ApkPieces(codec, parts, Some(value), data);
    assert DirectoryBounds(data).value.1 == dirAt by {
      WrittenDirectory(codec, parts, Some(value), data);
    }
    SigningBlockInverts(data, dirAt, start, ps);
    OnePair(value, start);
  }

  /** With no v2 value, a block is read exactly when the local entries end in the encoding of some pairs. */
  lemma {:induction false} WrittenUnsigned(codec: Codec, parts: seq<Part>, data: Slice)
    requires Writable(codec, parts, None) && data == Apk(codec, parts, None) && Readable(codec, parts, None)
    ensures WalkSpec(data).Ok?
    ensures WalkSpec(data).value.0.signingBlockPresent <==>
      exists start: usize, ps :: EndsIn(Locals(codec, parts), start, ps)
  {
    hide Holds, Locals, Central, Apk, Members, EncodeBlock, Readable, DirectoryBounds, Select, BlockPairs, EndsIn;
    var dirAt := DirectoryAt(codec, parts, None);
    WrittenMembers(codec, parts, None, data);
    ApkPieces(codec, parts, None, data);
    assert DirectoryBounds(data).value.1 == dirAt by {
      WrittenDirectory(codec, parts, None, data);
    }
    forall start: usize, ps
      ensures BlockPairs(data, dirAt) == Some((start, ps)) <==> EndsIn(Locals(codec, parts), start, ps)
    {
      BlockExact(data, dirAt, start, ps);
      EndsInFile(data, Locals(codec, parts), start, ps);
    }
  }

  /** The encoding of `ps`, from `start` on, ends the local entries. */
  ghost predicate EndsIn(locals: bytes, start: nat, ps: seq<Pair>) {
    Ids32(ps) && start + |EncodeBlock(ps)| == |locals| && Holds(locals, start, EncodeBlock(ps))
  }

  lemma EndsInFile(data: bytes, locals: bytes, start: nat, ps: seq<Pair>)
    requires Holds(data, 0, locals)
    ensures EndsIn(locals, start, ps) <==>
      Ids32(ps) && start + |EncodeBlock(ps)| == |locals| && Holds(data, start, EncodeBlock(ps))
  {
    hide EncodeBlock;
    var block := EncodeBlock(ps);
    if start + |block| == |locals| {
      assert locals[start..start + |block|] == data[start..start + |block|];
    }
  }

  lemma WrittenDirectory(codec: Codec, parts: seq<Part>, v2: Option<bytes>, data: Slice)
    requires Writable(codec, parts, v2) && data == Apk(codec, parts, v2) && Readable(codec, parts, v2)
    ensures DirectoryBounds(data)
         == Ok((|parts|, DirectoryAt(codec, parts, v2), DirectoryAt(codec, parts, v2) + |Central(codec, parts)|))
  {
    hide Locals, SigningPart, Central, PartFits, Apk, HasManifest, DirectoryBounds;
    PartSizes(codec, parts);
    DirectorySize(codec, parts);
    BoundsRead(codec, parts, v2, data);
  }

  lemma OnePair(value: bytes, start: usize)
    ensures Summary([Pair(V2_ID, value)], start) == SigningBlock(true, {V2}, {}, [(V2, value)], Some(start))
  {
    var ps := [Pair(V2_ID, value)];
    assert ps[..0] == [];
    forall scheme: Scheme
      ensures Occurrences(ps, scheme) == if scheme == V2 then 1 else 0
    {
      assert Occurrences(ps[..0], scheme) == 0;
    }
    assert Schemes(ps, 1) == {V2} && Schemes(ps, 2) == {};
    assert ValuesOutside(ps[..0], {}) == [];
  }

  // Reading the contents back

  /** Inflation inverts deflation at the true size, and never passes its limit. */
  ghost predicate Lawful(codec: Codec) {
    && (forall content :: codec.inflate(codec.deflate(content), |content|) == Some(content))
    && (forall raw, limit, r :: codec.inflate(raw, limit) == Some(r) ==> |r| <= limit)
  }

  /** A member carries a part's payload and describes it truly. */
  ghost predicate Carries(codec: Codec, p: Part, data: Slice, m: Member) {
    && PayloadIn(data, m) && Payload(data, m) == Packed(codec, p)
    && m.flags == 0 && m.compression == p.compression
    && m.size == |p.content| && m.payloadLen == |Packed(codec, p)| && m.crc == codec.crc32(p.content)
  }

  lemma PayloadRead(codec: Codec, p: Part, data: Slice, at: usize, pos: usize)
    requires PartFits(codec, p) && |p.content| < 0x1_0000_0000 && at + |LocalBytes(codec, p)| < 0x1_0000_0000
    requires Holds(data, at, LocalBytes(codec, p)) && pos + |CentralBytes(codec, p, at)| <= USIZE_MAX
    ensures Carries(codec, p, data, MemberOf(codec, p, at, pos))
  {
    hide Holds, PartFits, LocalHeaderBytes, Packed;
    LocalRead(codec, p, data, at);
    HeldValue(data, at + 30 + |p.name|, Packed(codec, p));
  }

  /** Member `k` of a written archive holds the payload of part `k`, wherever the parts before it end. */
  lemma {:induction false} PayloadsRead(codec: Codec, parts: seq<Part>, data: Slice, dirStart: usize, k: nat)
    requires k < |parts| && forall j | 0 <= j < |parts| :: PartFits(codec, parts[j])
    requires |Locals(codec, parts)| < 0x1_0000_0000 && dirStart + |Central(codec, parts)| <= ISIZE_MAX
    requires Holds(data, 0, Locals(codec, parts))
    requires forall j | 0 <= j < |parts| :: |parts[j].content| < 0x1_0000_0000
    ensures |MembersOf(codec, parts, dirStart)| == |parts|
    ensures Carries(codec, parts[k], data, MembersOf(codec, parts, dirStart)[k])
  {
    hide Holds, PartFits, LocalBytes, CentralBytes, Carries, MemberOf;
    var init, p := parts[..|parts| - 1], parts[|parts| - 1];
    var at := |Locals(codec, init)|;
    HoldsJoin(data, 0, Locals(codec, init), LocalBytes(codec, p));
    MembersNames(codec, init, dirStart);
    MembersNames(codec, parts, dirStart);
    if k < |parts| - 1 {
      PayloadsRead(codec, init, data, dirStart, k);
      assert parts[k] == init[k];
    } else {
      PayloadRead(codec, p, data, at, dirStart + |Central(codec, init)|);
    }
  }

  lemma PartRead(codec: Codec, p: Part, data: Slice, m: Member, limit: nat, left: nat)
    requires Lawful(codec) && Carries(codec, p, data, m)
    requires |p.content| <= limit && |p.content| <= left
    ensures PayloadIn(data, m)
    ensures ReadSpec(codec, data, m, limit, left)
         == Ok(Content(p.content, p.compression != 0 && p.compression != 8))
  {
    hide Payload;
  }

  /**
   The round trip: every part of a written archive is read back as itself, its bytes whole and
   checked, when the limit and what is left of the budget cover its size.
   */
  lemma ContentsRead(codec: Codec, parts: seq<Part>, v2: Option<bytes>, data: Slice, k: nat, limit: nat, left: nat)
    requires Lawful(codec) && Writable(codec, parts, v2) && data == Apk(codec, parts, v2)
    requires Readable(codec, parts, v2) && k < |parts|
    requires |parts[k].content| <= limit && |parts[k].content| <= left
    ensures Members(data).Ok? && |Members(data).value| == |parts|
    ensures var m := Members(data).value[k];
      && m.name == parts[k].name && PayloadIn(data, m)
      && ReadSpec(codec, data, m, limit, left)
         == Ok(Content(parts[k].content, parts[k].compression != 0 && parts[k].compression != 8))
  {
    hide Holds, Locals, Central, SigningPart, Apk, Members, HasManifest, MembersOf, PartFits, DirectoryBounds,
      Carries, PayloadIn, ReadSpec, Lawful;
    var dirAt := DirectoryAt(codec, parts, v2);
    WrittenMembers(codec, parts, v2, data);
    ApkPieces(codec, parts, v2, data);
    PartSizes(codec, parts);
    MembersNames(codec, parts, dirAt);
    PayloadsRead(codec, parts, data, dirAt, k);
    PartRead(codec, parts[k], data, MembersOf(codec, parts, dirAt)[k], limit, left);
  }

  // The writer

  method WriteLocalHeader(codec: Codec, p: Part) returns (local: array<byte>)
    ensures fresh(local) && local[..] == LocalHeaderBytes(codec, p)
    ensures LocalHeaderStates(local[..], codec, p)
  {
    hide Put, LeBytes, LocalHeaderStates;
    LocalHeaderHolds(codec, p);
    local := new byte[30](_ => 0);
    assert local[..] == Zeros(30);
    PutInto(local, 0, LOCAL_SIGNATURE);
    PutInto(local, 8, LeBytes(p.compression, 2));
    PutInto(local, 14, LeBytes(codec.crc32(p.content), 4));
    PutInto(local, 18, LeBytes(|Packed(codec, p)|, 4));
    PutInto(local, 22, LeBytes(|p.content|, 4));
    PutInto(local, 26, LeBytes(|p.name|, 2));
  }

  method WriteCentralHeader(codec: Codec, p: Part, at: nat) returns (entry: array<byte>)
    ensures fresh(entry) && entry[..] == CentralHeaderBytes(codec, p, at)
    ensures CentralHeaderStates(entry[..], codec, p, at)
  {
    hide Put, LeBytes, CentralHeaderStates;
    CentralHeaderHolds(codec, p, at);
    entry := new byte[46](_ => 0);
    assert entry[..] == Zeros(46);
    PutInto(entry, 0, CENTRAL_SIGNATURE);
    PutInto(entry, 10, LeBytes(p.compression, 2));
    PutInto(entry, 16, LeBytes(codec.crc32(p.content), 4));
    PutInto(entry, 20, LeBytes(|Packed(codec, p)|, 4));
    PutInto(entry, 24, LeBytes(|p.content|, 4));
    PutInto(entry, 28, LeBytes(|p.name|, 2));
    PutInto(entry, 42, LeBytes(at, 4));
  }

  method WriteEndRecord(count: nat, dirSize: nat, dirAt: nat) returns (end: array<byte>)
    ensures fresh(end) && end[..] == EndRecordBytes(count, dirSize, dirAt)
    ensures EndRecordHas(end[..], count, dirSize, dirAt)
  {
    hide Put, LeBytes, EndRecordHas;
    EndRecordHolds(count, dirSize, dirAt);
    end := new byte[22](_ => 0);
    assert end[..] == Zeros(22);
    PutInto(end, 0, EOCD_SIGNATURE);
    PutInto(end, 8, LeBytes(count, 2));
    PutInto(end, 10, LeBytes(count, 2));
    PutInto(end, 12, LeBytes(dirSize, 4));
    PutInto(end, 16, LeBytes(dirAt, 4));
  }

  method WriteParts(codec: Codec, parts: seq<Part>) returns (zip: bytes, central: bytes)
    ensures zip == Locals(codec, parts) && central == Central(codec, parts)
  {
    hide LocalHeaderBytes, CentralHeaderBytes, Packed;
    zip, central := [], [];
    for k := 0 to |parts|
      invariant zip == Locals(codec, parts[..k]) && central == Central(codec, parts[..k])
    {
      var p := parts[k];
      assert parts[..k + 1][..k] == parts[..k];
      var at := |zip|;
      var local := WriteLocalHeader(codec, p);
      ghost var zip0, central0 := zip, central;
      zip := zip + local[..];
      zip := zip + p.name;
      zip := zip + Packed(codec, p);
      Reassociate(zip0, LocalHeaderBytes(codec, p), p.name, Packed(codec, p));
      var entry := WriteCentralHeader(codec, p, at);
      central := central + entry[..];
      central := central + p.name;
      Reassociate(central0, CentralHeaderBytes(codec, p, at), p.name, []);
    }
    assert parts[..|parts|] == parts;
  }

  lemma Reassociate(a: bytes, b: bytes, c: bytes, d: bytes)
    ensures a + b + c + d == a + (b + (c + d)) && a + b + c == a + (b + c)
  {
  }

  method WriteSigningBlock(value: bytes) returns (block: bytes)
    ensures block == EncodeBlock([Pair(V2_ID, value)])
  {
    hide LeBytes, Magic;
    var pairLen := 4 + |value|;
    var size := 8 + pairLen + 8 + 16;
    block := LeBytes(size, 8);
    block := block + LeBytes(pairLen, 8);
    block := block + LeBytes(V2_ID, 4);
    block := block + value;
    block := block + LeBytes(size, 8);
    block := block + Magic();
    BlockOfOne(value);
    hide EncodeBlock;
    var a, b, c := LeBytes(size, 8), LeBytes(pairLen, 8), LeBytes(V2_ID, 4);
    Reassociate(a, b, c, value);
    Reassociate(a, b + (c + value), a, Magic());
  }

  lemma BlockOfOne(value: bytes)
    ensures var size, length := 36 + |value|, 4 + |value|;
      EncodeBlock([Pair(V2_ID, value)])
      == LeBytes(size, 8) + (LeBytes(length, 8) + (LeBytes(V2_ID, 4) + value) + (LeBytes(size, 8) + Magic()))
  {
    hide LeBytes, Magic;
    var p := Pair(V2_ID, value);
    assert [p] + [] == [p];
    EncodeCons(p, []);
    EncodeNone();
    assert EncodePairs([p]) == EncodePair(p) + [] == EncodePair(p);
    hide EncodePairs;
  }

  lemma EncodeNone()
    ensures EncodePairs([]) == []
  {
  }

  method WriteApk(codec: Codec, parts: seq<Part>, v2: Option<bytes>) returns (zip: bytes)
    requires Writable(codec, parts, v2)
    ensures zip == Apk(codec, parts, v2)
  {
    hide Locals, Central, EndRecordBytes, EncodeBlock;
    var central;
    zip, central := WriteParts(codec, parts);
    if v2.Some? {
      var block := WriteSigningBlock(v2.value);
      zip := zip + block;
    }
    var dirAt := |zip|;
    zip := zip + central;
    var end := WriteEndRecord(|parts|, |central|, dirAt);
    zip := zip + end[..];
    Reassociate(Locals(codec, parts), SigningPart(v2), central, end[..]);
    assert Locals(codec, parts) + [] == Locals(codec, parts);
  }
}
