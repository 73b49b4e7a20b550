/**
 The ZIP end record, the central directory and its local headers (sections 4.3.16, 4.3.12 and 4.3.7
 of the PKWARE APPNOTE), as the reader checks them before it trusts an offset.
 */
module ZipDirectory {
  import opened Prelude
  import opened Positional
  import opened ZipFields

  datatype ZipError =
    | TooShort | NoEndRecord | MultiDisk | MissingCount | InconsistentCounts
    | MissingDirectorySize | MissingDirectoryOffset | Zip64 | EntryCount
    | DirectoryOverflow | DirectoryBeyondEnd
    | InvalidCentralEntry | TruncatedFlags | TruncatedCompression | MissingCrc
    | MissingCompressedSize | MissingUncompressedSize | MissingNameSize | MissingExtraSize
    | MissingCommentSize | MissingLocalOffset | NameOffsetOverflow | TruncatedName | NonUtf8Name
    | EntryOverflow | EntryExceedsDirectory | InvalidLocalHeader | MissingLocalName
    | MissingLocalExtra | LocalHeaderOverflow | NamesDisagree | PayloadOverflow
    | PayloadExceedsDirectory | CountMismatch | NoManifest

  const EOCD_SIGNATURE: bytes := [80, 75, 5, 6]
  const CENTRAL_SIGNATURE: bytes := [80, 75, 1, 2]
  const LOCAL_SIGNATURE: bytes := [80, 75, 3, 4]
  const MAX_ENTRIES: nat := 8192

  // The end record

  /** An end record stands at `pos` and its comment ends exactly at the end of the file. */
  predicate EndRecordAt(data: Slice, pos: usize) {
    && pos + 22 <= |data|
    && CheckedRange(data, pos, 4) == Some(EOCD_SIGNATURE)
    && Le16(data, pos + 20) == Some(|data| - pos - 22)
  }

  /** What an end record at `pos` is, in bytes: its signature, and a comment length that reaches the end of the file. */
  lemma {:induction false} EndRecordExact(data: Slice, pos: usize)
    ensures EndRecordAt(data, pos) <==>
      pos + 22 <= |data| && Holds(data, pos, EOCD_SIGNATURE) && Field(data, pos + 20, |data| - pos - 22, 2)
  {
    hide Field, Holds, Le, CheckedRange;
    if pos + 22 <= |data| {
      RangeExact(data, pos, EOCD_SIGNATURE);
      FieldExact(data, pos + 20, |data| - pos - 22, 2);
    }
  }

  /** The greatest offset below `below` of an end record, over the whole file. */
  function LastEndRecord(data: Slice, below: nat): (r: Option<usize>)
    requires below <= |data|
    ensures r.Some? ==> r.value < below && EndRecordAt(data, r.value)
    ensures r.Some? ==> forall pos | r.value < pos < below :: !EndRecordAt(data, pos)
    ensures r.None? ==> forall pos | 0 <= pos < below :: !EndRecordAt(data, pos)
  {
    if below == 0 then None
    else if EndRecordAt(data, below - 1) then Some(below - 1)
    else LastEndRecord(data, below - 1)
  }

  function EndRecord(data: Slice): Result<usize, ZipError> {
    if |data| < 22 then Err(TooShort) else LastEndRecord(data, |data|).OkOr(NoEndRecord)
  }

  /**
   The backward scan looks only where a 16-bit comment length can reach the end of the file, and
   finds what a scan of the whole file finds.
   */
  method FindEndRecord(data: Slice) returns (r: Result<usize, ZipError>)
    ensures r == EndRecord(data)
    ensures r.Ok? <==> exists pos: usize :: pos < |data| && EndRecordAt(data, pos)
    ensures r.Ok? ==> EndRecordAt(data, r.value) && forall pos: usize | r.value < pos < |data| :: !EndRecordAt(data, pos)
  {
    if |data| < 22 {
      return Err(TooShort);
    }
    var start := if |data| >= 22 + 65535 then |data| - (22 + 65535) else 0;
    var pos := |data| - 22;
    while pos >= start
      invariant start - 1 <= pos <= |data| - 22
      invariant forall p: usize | pos < p < |data| :: !EndRecordAt(data, p)
    {
      var comment := Le16(data, pos + 20);
      if CheckedRange(data, pos, 4) == Some(EOCD_SIGNATURE)
        && comment.Some? && comment.value == |data| - pos - 22
      {
        assert EndRecordAt(data, pos);
        return Ok(pos);
      }
      pos := pos - 1;
    }
    assert forall p: usize | p < start :: !EndRecordAt(data, p);
    return Err(NoEndRecord);
  }

  function DirectoryBoundsAt(data: Slice, end: usize): (r: Result<(nat, usize, usize), ZipError>)
    requires end <= |data|
    ensures r.Ok? ==> 0 < r.value.0 <= MAX_ENTRIES && r.value.1 <= r.value.2 <= end
  {
    var disks := (Le16(data, end + 4), Le16(data, end + 6));
    :- Need(disks == (Some(0), Some(0)), MultiDisk);
    var count :- Le16(data, end + 10).OkOr(MissingCount);
    :- Need(Le16(data, end + 8) == Some(count), InconsistentCounts);
    var size :- Le32(data, end + 12).OkOr(MissingDirectorySize);
    var start :- Le32(data, end + 16).OkOr(MissingDirectoryOffset);
    :- Need(count != 0xFFFF && size != 0xFFFF_FFFF && start != 0xFFFF_FFFF, Zip64);
    :- Need(count != 0 && count <= MAX_ENTRIES, EntryCount);
    var dirEnd :- CheckedAdd(start, size).OkOr(DirectoryOverflow);
    :- Need(dirEnd <= end, DirectoryBeyondEnd);
    Ok((count, start, dirEnd))
  }

  /** The entry count and where the directory starts and ends. */
  function DirectoryBounds(data: Slice): (r: Result<(nat, usize, usize), ZipError>)
    ensures r.Ok? ==> 0 < r.value.0 <= MAX_ENTRIES && r.value.1 <= r.value.2 <= |data|
  {
    var end :- EndRecord(data);
    DirectoryBoundsAt(data, end)
  }

  method ReadDirectoryBounds(data: Slice) returns (r: Result<(nat, usize, usize), ZipError>)
    ensures r == DirectoryBounds(data)
  {
    var end := FindEndRecord(data);
    if end.Err? {
      return Err(end.error);
    }
    return DirectoryBoundsAt(data, end.value);
  }

  // UTF-8 names

  predicate Continuation(bs: bytes, k: nat, low: nat, high: nat) {
    k < |bs| && low <= bs[k] <= high
  }

  /** The length of the well-formed UTF-8 sequence that starts `bs`, or zero (RFC 3629 section 4). */
  function Utf8Width(bs: bytes): (width: nat)
    ensures width <= |bs|
  {
    if |bs| == 0 then 0
    else
      var b := bs[0];
      if b < 0x80 then 1
      else if 0xC2 <= b <= 0xDF then (if Continuation(bs, 1, 0x80, 0xBF) then 2 else 0)
      else if 0xE0 <= b <= 0xEF then
        (if Continuation(bs, 1, if b == 0xE0 then 0xA0 else 0x80, if b == 0xED then 0x9F else 0xBF)
            && Continuation(bs, 2, 0x80, 0xBF) then 3 else 0)
      else if 0xF0 <= b <= 0xF4 then
        (if Continuation(bs, 1, if b == 0xF0 then 0x90 else 0x80, if b == 0xF4 then 0x8F else 0xBF)
            && Continuation(bs, 2, 0x80, 0xBF) && Continuation(bs, 3, 0x80, 0xBF) then 4 else 0)
      else 0
  }

  predicate ValidUtf8(bs: bytes) {
    |bs| == 0 || (Utf8Width(bs) > 0 && ValidUtf8(bs[Utf8Width(bs)..]))
  }

  // Members

  /** One archive member, read from its central header and checked against its local one. */
  datatype Member = Member(
    name: bytes,
    flags: nat,
    compression: nat,
    crc: nat,
    size: usize,
    next: usize,
    payloadStart: usize,
    payloadLen: usize)

  function MemberAt(data: Slice, pos: usize, dirStart: usize, dirEnd: usize): Result<Member, ZipError> {
    var signature := CheckedRange(data, pos, 4);
    :- Need(signature == Some(CENTRAL_SIGNATURE), InvalidCentralEntry);
    var flags :- Le16(data, pos + 8).OkOr(TruncatedFlags);
    var compression :- Le16(data, pos + 10).OkOr(TruncatedCompression);
    var crc :- Le32(data, pos + 16).OkOr(MissingCrc);
    var packed :- Le32(data, pos + 20).OkOr(MissingCompressedSize);
    var size :- Le32(data, pos + 24).OkOr(MissingUncompressedSize);
    var nameLen :- Le16(data, pos + 28).OkOr(MissingNameSize);
    var extra :- Le16(data, pos + 30).OkOr(MissingExtraSize);
    var comment :- Le16(data, pos + 32).OkOr(MissingCommentSize);
    var localAt :- Le32(data, pos + 42).OkOr(MissingLocalOffset);
    var nameAt :- CheckedAdd(pos, 46).OkOr(NameOffsetOverflow);
    var name :- CheckedRange(data, nameAt, nameLen).OkOr(TruncatedName);
    :- Need(ValidUtf8(name), NonUtf8Name);
    var afterName :- CheckedAdd(nameAt, nameLen).OkOr(EntryOverflow);
    var afterExtra :- CheckedAdd(afterName, extra).OkOr(EntryOverflow);
    var next :- CheckedAdd(afterExtra, comment).OkOr(EntryOverflow);
    :- Need(next <= dirEnd, EntryExceedsDirectory);
    var payloadStart :- PayloadStart(data, localAt, name);
    var payloadEnd :- CheckedAdd(payloadStart, packed).OkOr(PayloadOverflow);
    :- Need(payloadEnd <= dirStart, PayloadExceedsDirectory);
    Ok(Member(name, flags, compression, crc, size, next, payloadStart, packed))
  }

  /** Where the payload after the local header at `localAt` starts, when that header names `name` too. */
  function PayloadStart(data: Slice, localAt: usize, name: bytes): Result<usize, ZipError>
    requires localAt < 0x1_0000_0000
  {
    var signature := CheckedRange(data, localAt, 4);
    :- Need(signature == Some(LOCAL_SIGNATURE), InvalidLocalHeader);
    var localNameLen :- Le16(data, localAt + 26).OkOr(MissingLocalName);
    var localExtraLen :- Le16(data, localAt + 28).OkOr(MissingLocalExtra);
    var localNameAt :- CheckedAdd(localAt, 30).OkOr(LocalHeaderOverflow);
    :- Need(CheckedRange(data, localNameAt, localNameLen) == Some(name), NamesDisagree);
    var afterName :- CheckedAdd(localNameAt, localNameLen).OkOr(PayloadOverflow);
    CheckedAdd(afterName, localExtraLen).OkOr(PayloadOverflow)
  }

  /** A central header at `at`, with `extra` and `comment` bytes after the name, states all of `m`. */
  ghost predicate CentralHeader(data: Slice, at: nat, m: Member, extra: nat, comment: nat, local: nat) {
    && Holds(data, at, CENTRAL_SIGNATURE)
    && Field(data, at + 8, m.flags, 2) && Field(data, at + 10, m.compression, 2)
    && Field(data, at + 16, m.crc, 4) && Field(data, at + 20, m.payloadLen, 4) && Field(data, at + 24, m.size, 4)
    && Field(data, at + 28, |m.name|, 2) && Field(data, at + 30, extra, 2) && Field(data, at + 32, comment, 2)
    && Field(data, at + 42, local, 4)
    && Holds(data, at + 46, m.name) && ValidUtf8(m.name)
    && m.next == at + 46 + |m.name| + extra + comment
  }

  /** A local header at `local` names `name` too, and its payload starts at `payloadStart`. */
  ghost predicate LocalHeader(data: Slice, local: nat, name: bytes, extra: nat, payloadStart: nat) {
    && Holds(data, local, LOCAL_SIGNATURE)
    && Field(data, local + 26, |name|, 2) && Field(data, local + 28, extra, 2)
    && Holds(data, local + 30, name)
    && payloadStart == local + 30 + |name| + extra
  }

  /**
   The bytes at `at` are a central entry of `m`: its header states `m` and a local header that names
   the same member, the entry ends within the directory, and the payload before the directory.
   */
  ghost predicate Entry(data: Slice, at: nat, dirStart: nat, dirEnd: nat, m: Member) {
    && m.next <= dirEnd && m.payloadStart + m.payloadLen <= dirStart
    && exists extra: nat, comment: nat, local: nat, localExtra: nat ::
         CentralHeader(data, at, m, extra, comment, local) && LocalHeader(data, local, m.name, localExtra, m.payloadStart)
  }

  lemma {:induction false} PayloadStartExact(data: Slice, local: usize, name: bytes, payloadStart: usize)
    requires local < 0x1_0000_0000
    ensures PayloadStart(data, local, name) == Ok(payloadStart) <==>
      exists extra: nat :: LocalHeader(data, local, name, extra, payloadStart)
  {
    hide Field, Holds, Le, CheckedRange;
    if PayloadStart(data, local, name) == Ok(payloadStart) {
      var extra := Le16(data, local + 28).value;
      RangeExact(data, local, LOCAL_SIGNATURE);
      FieldExact(data, local + 26, |name|, 2);
      FieldExact(data, local + 28, extra, 2);
      RangeExact(data, local + 30, name);
      assert LocalHeader(data, local, name, extra, payloadStart);
    }
    if extra: nat :| LocalHeader(data, local, name, extra, payloadStart) {
      RangeExact(data, local, LOCAL_SIGNATURE);
      FieldExact(data, local + 26, |name|, 2);
      FieldExact(data, local + 28, extra, 2);
      RangeExact(data, local + 30, name);
    }
  }

  lemma {:induction false} MemberEntry(data: Slice, pos: usize, dirStart: usize, dirEnd: usize)
    requires MemberAt(data, pos, dirStart, dirEnd).Ok?
    ensures Entry(data, pos, dirStart, dirEnd, MemberAt(data, pos, dirStart, dirEnd).value)
  {
    hide Field, Holds, Le, CheckedRange, ValidUtf8, PayloadStart, LocalHeader;
    var m := MemberAt(data, pos, dirStart, dirEnd).value;
    var extra, comment := Le16(data, pos + 30).value, Le16(data, pos + 32).value;
    var local := Le32(data, pos + 42).value;
    HeaderRead(data, pos, m, extra, comment, local);
    PayloadStartExact(data, local, m.name, m.payloadStart);
    var localExtra: nat :| LocalHeader(data, local, m.name, localExtra, m.payloadStart);
    assert CentralHeader(data, pos, m, extra, comment, local);
  }

  /** The reads of a central header succeed with these values exactly when they are written there. */
  lemma {:induction false} HeaderRead(data: Slice, pos: usize, m: Member, extra: nat, comment: nat, local: nat)
    requires pos + 46 <= USIZE_MAX && |m.name| <= USIZE_MAX
    ensures CheckedRange(data, pos, 4) == Some(CENTRAL_SIGNATURE) <==> Holds(data, pos, CENTRAL_SIGNATURE)
    ensures Le16(data, pos + 8) == Some(m.flags) <==> Field(data, pos + 8, m.flags, 2)
    ensures Le16(data, pos + 10) == Some(m.compression) <==> Field(data, pos + 10, m.compression, 2)
    ensures Le32(data, pos + 16) == Some(m.crc) <==> Field(data, pos + 16, m.crc, 4)
    ensures Le32(data, pos + 20) == Some(m.payloadLen) <==> Field(data, pos + 20, m.payloadLen, 4)
    ensures Le32(data, pos + 24) == Some(m.size) <==> Field(data, pos + 24, m.size, 4)
    ensures Le16(data, pos + 28) == Some(|m.name|) <==> Field(data, pos + 28, |m.name|, 2)
    ensures Le16(data, pos + 30) == Some(extra) <==> Field(data, pos + 30, extra, 2)
    ensures Le16(data, pos + 32) == Some(comment) <==> Field(data, pos + 32, comment, 2)
    ensures Le32(data, pos + 42) == Some(local) <==> Field(data, pos + 42, local, 4)
    ensures CheckedRange(data, pos + 46, |m.name|) == Some(m.name) <==> Holds(data, pos + 46, m.name)
  {
    hide Field, Holds, Le, CheckedRange;
    RangeExact(data, pos, CENTRAL_SIGNATURE);
    FieldExact(data, pos + 8, m.flags, 2);
    FieldExact(data, pos + 10, m.compression, 2);
    FieldExact(data, pos + 16, m.crc, 4);
    FieldExact(data, pos + 20, m.payloadLen, 4);
    FieldExact(data, pos + 24, m.size, 4);
    FieldExact(data, pos + 28, |m.name|, 2);
    FieldExact(data, pos + 30, extra, 2);
    FieldExact(data, pos + 32, comment, 2);
    FieldExact(data, pos + 42, local, 4);
    RangeExact(data, pos + 46, m.name);
  }

  lemma {:induction false} EntryRead(data: Slice, pos: usize, dirStart: usize, dirEnd: usize, m: Member)
    requires Entry(data, pos, dirStart, dirEnd, m)
    ensures MemberAt(data, pos, dirStart, dirEnd) == Ok(m)
  {
    hide Field, Le, CheckedRange, ValidUtf8, PayloadStart, LocalHeader;
    var extra: nat, comment: nat, local: nat, localExtra: nat :|
      CentralHeader(data, pos, m, extra, comment, local) && LocalHeader(data, local, m.name, localExtra, m.payloadStart);
    HeaderRead(data, pos, m, extra, comment, local);
    assert local < 0x1_0000_0000;
    PayloadStartExact(data, local, m.name, m.payloadStart);
  }

  /** An entry is accepted as `m` exactly when its bytes, central and local, are those of `m`. */
  lemma {:induction false} MemberExact(data: Slice, pos: usize, dirStart: usize, dirEnd: usize, m: Member)
    ensures MemberAt(data, pos, dirStart, dirEnd) == Ok(m) <==> Entry(data, pos, dirStart, dirEnd, m)
  {
    hide MemberAt, Entry;
    if MemberAt(data, pos, dirStart, dirEnd).Ok? {
      MemberEntry(data, pos, dirStart, dirEnd);
    }
    if Entry(data, pos, dirStart, dirEnd, m) {
      EntryRead(data, pos, dirStart, dirEnd, m);
    }
  }

  /** The first `count` entries and where the next one starts. */
  function Entries(data: Slice, dirStart: usize, dirEnd: usize, count: nat): Result<(seq<Member>, usize), ZipError> {
    if count == 0 then Ok(([], dirStart))
    else
      var (ms, pos) :- Entries(data, dirStart, dirEnd, count - 1);
      var m :- MemberAt(data, pos, dirStart, dirEnd);
      Ok((ms + [m], m.next))
  }

  lemma {:induction false} EntriesFail(data: Slice, dirStart: usize, dirEnd: usize, k: nat, count: nat)
    requires k <= count && Entries(data, dirStart, dirEnd, k).Err?
    ensures Entries(data, dirStart, dirEnd, count) == Entries(data, dirStart, dirEnd, k)
  {
    hide MemberAt;
    if k < count {
      EntriesFail(data, dirStart, dirEnd, k, count - 1);
    }
  }

  /** Where entry `k` of the directory starts. */
  ghost function EntryStart(dirStart: nat, ms: seq<Member>, k: nat): nat
    requires k <= |ms|
  {
    if k == 0 then dirStart else ms[k - 1].next
  }

  /** The entries tile the directory: each starts where the one before it ends. */
  ghost predicate Tiles(data: Slice, dirStart: nat, dirEnd: nat, ms: seq<Member>) {
    forall k | 0 <= k < |ms| :: Entry(data, EntryStart(dirStart, ms, k), dirStart, dirEnd, ms[k])
  }

  lemma {:induction false} EntriesTile(data: Slice, dirStart: usize, dirEnd: usize, count: nat)
    requires Entries(data, dirStart, dirEnd, count).Ok?
    ensures var (ms, pos) := Entries(data, dirStart, dirEnd, count).value;
      |ms| == count && pos == EntryStart(dirStart, ms, count) && Tiles(data, dirStart, dirEnd, ms)
  {
    hide MemberAt, Entry;
    if count > 0 {
      EntriesTile(data, dirStart, dirEnd, count - 1);
      var (before, pos) := Entries(data, dirStart, dirEnd, count - 1).value;
      MemberEntry(data, pos, dirStart, dirEnd);
      var ms := Entries(data, dirStart, dirEnd, count).value.0;
      forall k | 0 <= k < count
        ensures Entry(data, EntryStart(dirStart, ms, k), dirStart, dirEnd, ms[k])
      {
        if k < count - 1 {
          assert ms[k] == before[k] && EntryStart(dirStart, ms, k) == EntryStart(dirStart, before, k);
        }
      }
    }
  }

  /** The first `count` entries are read as `ms` exactly when `ms` tile the directory that far. */
  lemma {:induction false} EntriesExact(data: Slice, dirStart: usize, dirEnd: usize, ms: seq<Member>, pos: usize)
    ensures Entries(data, dirStart, dirEnd, |ms|) == Ok((ms, pos)) <==>
      Tiles(data, dirStart, dirEnd, ms) && pos == EntryStart(dirStart, ms, |ms|)
    decreases |ms|
  {
    hide MemberAt, Entry, Tiles, EntryStart;
    TilesLast(data, dirStart, dirEnd, ms);
    if |ms| > 0 {
      var init, last := ms[..|ms| - 1], ms[|ms| - 1];
      if Entries(data, dirStart, dirEnd, |ms|) == Ok((ms, pos)) {
        EntriesTile(data, dirStart, dirEnd, |ms|);
      }
      if Tiles(data, dirStart, dirEnd, ms) {
        var at := EntryStart(dirStart, init, |init|);
        EntriesExact(data, dirStart, dirEnd, init, at);
        MemberExact(data, at, dirStart, dirEnd, last);
        assert ms == init + [last];
      }
    }
  }

  lemma {:induction false} TilesLast(data: Slice, dirStart: usize, dirEnd: usize, ms: seq<Member>)
    ensures |ms| == 0 ==> Tiles(data, dirStart, dirEnd, ms)
    ensures EntryStart(dirStart, ms, |ms|) == if |ms| == 0 then dirStart else ms[|ms| - 1].next
    ensures |ms| > 0 && Tiles(data, dirStart, dirEnd, ms) ==>
      var init := ms[..|ms| - 1];
      Tiles(data, dirStart, dirEnd, init)
      && EntryStart(dirStart, init, |init|) <= USIZE_MAX
      && Entry(data, EntryStart(dirStart, init, |init|), dirStart, dirEnd, ms[|ms| - 1])
  {
    hide Entry;
    if |ms| > 0 {
      var init := ms[..|ms| - 1];
      assert forall k | 0 <= k <= |init| :: EntryStart(dirStart, ms, k) == EntryStart(dirStart, init, k);
      assert forall k | 0 <= k < |init| :: ms[k] == init[k];
    }
  }

  /** An end record at `end` states one disk, `count` entries twice, and a directory within the file. */
  ghost predicate EndRecordStates(data: Slice, end: nat, count: nat, dirStart: nat, dirEnd: nat) {
    && Field(data, end + 4, 0, 2) && Field(data, end + 6, 0, 2)
    && Field(data, end + 8, count, 2) && Field(data, end + 10, count, 2)
    && dirStart <= dirEnd <= end
    && Field(data, end + 12, dirEnd - dirStart, 4) && Field(data, end + 16, dirStart, 4)
    && 0 < count <= 8192 && dirEnd - dirStart != 0xFFFF_FFFF && dirStart != 0xFFFF_FFFF
  }

  lemma EndRecordFits(data: Slice)
    requires EndRecord(data).Ok?
    ensures EndRecord(data).value + 22 <= |data|
  {
  }

  /** The bounds are read exactly when the last end record of the file states them. */
  lemma {:induction false} BoundsExact(data: Slice, count: nat, dirStart: usize, dirEnd: usize)
    ensures DirectoryBounds(data) == Ok((count, dirStart, dirEnd)) <==>
      EndRecord(data).Ok? && EndRecordStates(data, EndRecord(data).value, count, dirStart, dirEnd)
  {
    hide EndRecord, Field, Le;
    if EndRecord(data).Ok? {
      var end := EndRecord(data).value;
      EndRecordFits(data);
      FieldExact(data, end + 4, 0, 2);
      FieldExact(data, end + 6, 0, 2);
      FieldExact(data, end + 8, count, 2);
      FieldExact(data, end + 10, count, 2);
      FieldExact(data, end + 16, dirStart, 4);
      if dirStart <= dirEnd {
        FieldExact(data, end + 12, dirEnd - dirStart, 4);
      }
    }
  }
}
