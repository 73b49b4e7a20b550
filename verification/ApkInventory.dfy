/** The walk over the central directory: what it lists, what it counts and what it hands on to be read. */
module ApkInventory {
  import opened Prelude
  import opened ZipFields
  import opened ZipDirectory
  import opened SB = SigningBlock

  const MAX_LISTED: nat := 32
  const MAX_NATIVE_LIBS_READ: nat := 64

  // Names

  /** The bytes of an ASCII literal. */
  function Ascii(s: string): (r: bytes)
    requires forall k | 0 <= k < |s| :: s[k] as int < 128
    ensures |r| == |s| && forall k | 0 <= k < |s| :: r[k] == s[k] as int
  {
    seq(|s|, k requires 0 <= k < |s| => s[k] as int)
  }

  predicate StartsWith(name: bytes, prefix: bytes) {
    prefix <= name
  }

  predicate EndsWith(name: bytes, suffix: bytes) {
    |suffix| <= |name| && name[|name| - |suffix|..] == suffix
  }

  const SLASH: byte := 47

  /** Where the first `/` of `name` is, or its length. */
  function FirstSlash(name: bytes): (at: nat)
    ensures at <= |name|
  {
    if |name| == 0 || name[0] == SLASH then 0 else 1 + FirstSlash(name[1..])
  }

  /** Some `/`-separated part of `name` is `..`. */
  predicate HasParentPart(name: bytes) {
    var at := FirstSlash(name);
    name[..at] == Ascii("..") || (at < |name| && HasParentPart(name[at + 1..]))
  }

  predicate Suspicious(name: bytes) {
    StartsWith(name, [SLASH]) || 92 in name || 0 in name || HasParentPart(name)
  }

  predicate DexName(name: bytes) {
    && StartsWith(name, Ascii("classes")) && EndsWith(name[7..], Ascii(".dex"))
    && forall k | 7 <= k < |name| - 4 :: 48 <= name[k] <= 57
  }

  /** The ABI directory of a native library's name, `lib/ABI/FILE.so`. */
  function NativeAbi(name: bytes): Option<bytes> {
    if !StartsWith(name, Ascii("lib/")) then None
    else
      var rest := name[4..];
      var at := FirstSlash(rest);
      if at == |rest| then None
      else
        var file := rest[at + 1..];
        // The extension of a file name whose only dot leads it is none.
        if at > 0 && SLASH !in file && EndsWith(file, Ascii(".so")) && |file| > 3 then Some(rest[..at]) else None
  }

  /** The last path component that is neither empty nor `.`, as `Path::file_name` finds it. */
  function FileName(name: bytes, last: bytes): bytes {
    var at := FirstSlash(name);
    var part := name[..at];
    var now := if part == [] || part == Ascii(".") then last else part;
    if at < |name| then FileName(name[at + 1..], now) else now
  }

  predicate ResourceXmlName(name: bytes) {
    && StartsWith(name, Ascii("res/"))
    && EndsWith(FileName(name, []), Ascii(".xml")) && |FileName(name, [])| > 4
    && !Suspicious(name)
  }

  predicate V1Certificate(name: bytes) {
    EndsWith(name, Ascii(".RSA")) || EndsWith(name, Ascii(".DSA")) || EndsWith(name, Ascii(".EC"))
  }

  predicate V1SigningArtifact(name: bytes) {
    && StartsWith(name, Ascii("META-INF/")) && SLASH !in name[9..]
    && (V1Certificate(name[9..]) || EndsWith(name[9..], Ascii(".SF")))
  }

  // Members by what the walk does with them

  predicate IsManifest(m: Member) { m.name == Ascii("AndroidManifest.xml") }
  predicate IsResources(m: Member) { m.name == Ascii("resources.arsc") }
  predicate IsResourceXml(m: Member) { !IsResources(m) && ResourceXmlName(m.name) }
  predicate IsDex(m: Member) { DexName(m.name) }
  predicate IsNative(m: Member) { NativeAbi(m.name).Some? }
  predicate IsV1(m: Member) { V1SigningArtifact(m.name) }
  predicate IsV1Read(m: Member) { V1SigningArtifact(m.name) && V1Certificate(m.name) }
  predicate IsCompressed(m: Member) { m.compression != 0 }
  predicate IsEncrypted(m: Member) { m.flags % 2 == 1 }
  predicate IsSuspicious(m: Member) { Suspicious(m.name) }

  function Select(ms: seq<Member>, p: Member -> bool): seq<Member> {
    if |ms| == 0 then []
    else Select(ms[..|ms| - 1], p) + (if p(ms[|ms| - 1]) then [ms[|ms| - 1]] else [])
  }

  function Count(ms: seq<Member>, p: Member -> bool): nat {
    |Select(ms, p)|
  }

  function First(ms: seq<Member>, p: Member -> bool): Option<Member> {
    if |Select(ms, p)| == 0 then None else Some(Select(ms, p)[0])
  }

  function Take<T>(s: seq<T>, n: nat): seq<T> {
    if |s| <= n then s else s[..n]
  }

  function Names(ms: seq<Member>): seq<bytes> {
    seq(|ms|, k requires 0 <= k < |ms| => ms[k].name)
  }

  function Abi(m: Member): bytes {
    NativeAbi(m.name).GetOr([])
  }

  function WithAbi(ms: seq<Member>): seq<(bytes, Member)> {
    seq(|ms|, k requires 0 <= k < |ms| => (Abi(ms[k]), ms[k]))
  }

  function Abis(ms: seq<Member>): set<bytes> {
    set m | m in ms :: Abi(m)
  }

  /** `ks` are the positions in `ms` of the members of this shape, in order. */
  ghost predicate Picks(ms: seq<Member>, ks: seq<nat>, shape: Member -> bool) {
    && (forall i, j | 0 <= i < j < |ks| :: ks[i] < ks[j])
    && (forall i | 0 <= i < |ks| :: ks[i] < |ms|)
    && (forall k: nat | k < |ms| :: k in ks <==> shape(ms[k]))
  }

  /** What is selected stands at these positions, and nothing else does. */
  ghost predicate SelectedAt(ms: seq<Member>, ks: seq<nat>, p: Member -> bool) {
    && Picks(ms, ks, p) && |ks| == |Select(ms, p)|
    && forall i | 0 <= i < |ks| :: Select(ms, p)[i] == ms[ks[i]]
  }

  lemma {:induction false} SelectedMore(ms: seq<Member>, ks: seq<nat>, p: Member -> bool, m: Member)
    requires SelectedAt(ms, ks, p)
    ensures SelectedAt(ms + [m], if p(m) then ks + [|ms|] else ks, p)
  {
    hide Select;
    SelectStep(ms, m, p);
    PicksMore(ms, ks, p, m);
  }

  lemma {:induction false} PicksMore(ms: seq<Member>, ks: seq<nat>, p: Member -> bool, m: Member)
    requires Picks(ms, ks, p)
    ensures Picks(ms + [m], if p(m) then ks + [|ms|] else ks, p)
    ensures forall i | 0 <= i < |ks| :: ks[i] < |ms| && (ms + [m])[ks[i]] == ms[ks[i]]
  {
    assert forall k | 0 <= k < |ms| :: (ms + [m])[k] == ms[k];
  }

  /** Selecting picks every member of the shape, in order. */
  lemma {:induction false} SelectIndices(ms: seq<Member>, p: Member -> bool) returns (ks: seq<nat>)
    ensures Picks(ms, ks, p) && |ks| == |Select(ms, p)|
    ensures forall i | 0 <= i < |ks| :: Select(ms, p)[i] == ms[ks[i]]
  {
    ks := SelectPositions(ms, p);
    hide Select;
  }

  lemma NothingSelected(p: Member -> bool)
    ensures SelectedAt([], [], p)
  {
  }

  lemma {:induction false} SelectPositions(ms: seq<Member>, p: Member -> bool) returns (ks: seq<nat>)
    ensures SelectedAt(ms, ks, p)
    decreases |ms|
  {
    hide SelectedAt, Picks, Select;
    ks := [];
    if |ms| == 0 {
      assert ms == [];
      NothingSelected(p);
    } else {
      var init, last := ms[..|ms| - 1], ms[|ms| - 1];
      ks := SelectPositions(init, p);
      SelectedMore(init, ks, p, last);
      assert ms == init + [last];
      ks := if p(last) then ks + [|init|] else ks;
    }
  }

  lemma SelectStep(ms: seq<Member>, m: Member, p: Member -> bool)
    ensures Select(ms + [m], p) == if p(m) then Select(ms, p) + [m] else Select(ms, p)
  {
    assert (ms + [m])[..|ms|] == ms;
  }

  lemma TakeStep<T>(s: seq<T>, x: T, n: nat)
    ensures Take(s + [x], n) == if |s| < n then Take(s, n) + [x] else Take(s, n)
  {
  }

  // The walk's results

  datatype Inventory = Inventory(
    fileSize: nat,
    entries: nat,
    dexCount: nat,
    dexFiles: seq<bytes>,
    dexFilesOmitted: nat,
    nativeCount: nat,
    nativeAbis: set<bytes>,
    v1Artifacts: seq<bytes>,
    v1ArtifactsOmitted: nat,
    signingBlockPresent: bool,
    schemes: set<Scheme>,
    duplicateSchemes: set<Scheme>,
    compressed: nat,
    encrypted: nat,
    suspicious: nat)

  datatype Archive = Archive(
    manifest: Option<Member>,
    resources: Option<Member>,
    resourceXml: seq<Member>,
    dex: seq<Member>,
    v1: seq<Member>,
    native: seq<(bytes, Member)>,
    signingValues: seq<(Scheme, bytes)>,
    signingStart: Option<usize>,
    directoryStart: usize)

  /** The inventory of the members listed, each count the true number and each list its first names. */
  function InventoryOf(fileSize: nat, ms: seq<Member>, sig: SigningBlock): Inventory {
    var dex, v1 := Select(ms, IsDex), Select(ms, IsV1);
    Inventory(
      fileSize, |ms|,
      |dex|, Names(Take(dex, MAX_LISTED)), |dex| - |Take(dex, MAX_LISTED)|,
      Count(ms, IsNative), Abis(Select(ms, IsNative)),
      Names(Take(v1, MAX_LISTED)), |v1| - |Take(v1, MAX_LISTED)|,
      sig.present, sig.schemes, sig.duplicates,
      Count(ms, IsCompressed), Count(ms, IsEncrypted), Count(ms, IsSuspicious))
  }

  /** The members to be read, in directory order and within the walk's limits. */
  function ArchiveOf(ms: seq<Member>, sig: SigningBlock, directoryStart: usize): Archive {
    Archive(
      First(ms, IsManifest), First(ms, IsResources), Select(ms, IsResourceXml),
      Select(ms, IsDex), Take(Select(ms, IsV1Read), MAX_LISTED),
      Take(WithAbi(Select(ms, IsNative)), MAX_NATIVE_LIBS_READ),
      sig.values, sig.start, directoryStart)
  }

  /** The members of an archive [`Walk`] accepts, or why it refuses. */
  function Members(data: Slice): Result<seq<Member>, ZipError> {
    var (count, dirStart, dirEnd) :- DirectoryBounds(data);
    var (ms, pos) :- Entries(data, dirStart, dirEnd, count);
    :- Need(pos == dirEnd, CountMismatch);
    :- Need(First(ms, IsManifest).Some?, NoManifest);
    Ok(ms)
  }

  function WalkSpec(data: Slice): Result<(Inventory, Archive), ZipError> {
    var ms :- Members(data);
    var dirStart := DirectoryBounds(data).value.1;
    var sig := SigningBlockSpec(data, dirStart);
    Ok((InventoryOf(|data|, ms, sig), ArchiveOf(ms, sig, dirStart)))
  }

  /** What the loop has counted and listed of the members `seen`. */
  ghost predicate Counted(seen: seq<Member>, i: Inventory, v1Count: nat) {
    && i == InventoryOf(i.fileSize, seen, ABSENT).(dexFilesOmitted := 0, v1ArtifactsOmitted := 0)
    && v1Count == |Select(seen, IsV1)|
  }

  /** What the loop has kept of the members `seen` to be read. */
  ghost predicate Kept(seen: seq<Member>, a: Archive) {
    a == ArchiveOf(seen, ABSENT, a.directoryStart)
  }

  lemma NamesStep(ms: seq<Member>, m: Member)
    ensures Names(ms + [m]) == Names(ms) + [m.name]
    ensures WithAbi(ms + [m]) == WithAbi(ms) + [(Abi(m), m)]
    ensures Abis(ms + [m]) == Abis(ms) + {Abi(m)}
  {
    assert forall x :: x in ms + [m] <==> x in ms || x == m;
  }

  /** The lists and counts one more member changes. */
  lemma ListedStep(ms: seq<Member>, m: Member, n: nat)
    ensures Names(Take(ms + [m], n)) == Names(Take(ms, n)) + (if |ms| < n then [m.name] else [])
    ensures |Names(Take(ms, n))| < n <==> |ms| < n
  {
    TakeStep(ms, m, n);
    NamesStep(Take(ms, n), m);
  }

  lemma FirstStep(ms: seq<Member>, m: Member, p: Member -> bool)
    ensures First(ms + [m], p) == if First(ms, p).Some? then First(ms, p) else if p(m) then Some(m) else None
  {
    SelectStep(ms, m, p);
  }

  method CountMember(m: Member, i: Inventory, v1Count: nat, ghost seen: seq<Member>)
    returns (r: Inventory, v1Count': nat)
    requires Counted(seen, i, v1Count)
    ensures Counted(seen + [m], r, v1Count') && r.fileSize == i.fileSize
  {
    hide Select, Names, Take, Abis, Abi, IsDex, IsNative, IsV1, IsSuspicious, IsEncrypted, IsCompressed;
    SelectStep(seen, m, IsCompressed);
    SelectStep(seen, m, IsEncrypted);
    SelectStep(seen, m, IsSuspicious);
    SelectStep(seen, m, IsDex);
    SelectStep(seen, m, IsNative);
    SelectStep(seen, m, IsV1);
    var compressed, encrypted, suspicious := i.compressed, i.encrypted, i.suspicious;
    if IsCompressed(m) {
      compressed := compressed + 1;
    }
    if IsEncrypted(m) {
      encrypted := encrypted + 1;
    }
    if IsSuspicious(m) {
      suspicious := suspicious + 1;
    }
    var dexCount, dexFiles := i.dexCount, i.dexFiles;
    if IsDex(m) {
      ListedStep(Select(seen, IsDex), m, MAX_LISTED);
      dexCount := dexCount + 1;
      if |dexFiles| < MAX_LISTED {
        dexFiles := dexFiles + [m.name];
      }
    }
    var nativeCount, nativeAbis := i.nativeCount, i.nativeAbis;
    if IsNative(m) {
      NamesStep(Select(seen, IsNative), m);
      nativeCount, nativeAbis := nativeCount + 1, nativeAbis + {Abi(m)};
    }
    var v1Artifacts := i.v1Artifacts;
    v1Count' := v1Count;
    if IsV1(m) {
      ListedStep(Select(seen, IsV1), m, MAX_LISTED);
      v1Count' := v1Count' + 1;
      if |v1Artifacts| < MAX_LISTED {
        v1Artifacts := v1Artifacts + [m.name];
      }
    }
    r := i.(entries := i.entries + 1, dexCount := dexCount, dexFiles := dexFiles,
            nativeCount := nativeCount, nativeAbis := nativeAbis, v1Artifacts := v1Artifacts,
            compressed := compressed, encrypted := encrypted, suspicious := suspicious);
  }

  method KeepMember(m: Member, a: Archive, ghost seen: seq<Member>) returns (r: Archive)
    requires Kept(seen, a)
    ensures Kept(seen + [m], r) && r.directoryStart == a.directoryStart
  {
    hide Select, First, Take, WithAbi, Abi, IsManifest, IsResources, IsResourceXml, IsDex, IsNative, IsV1Read;
    FirstStep(seen, m, IsManifest);
    FirstStep(seen, m, IsResources);
    SelectStep(seen, m, IsResourceXml);
    SelectStep(seen, m, IsDex);
    SelectStep(seen, m, IsNative);
    SelectStep(seen, m, IsV1Read);
    var manifest, resources, resourceXml, dex := a.manifest, a.resources, a.resourceXml, a.dex;
    if IsManifest(m) && manifest.None? {
      manifest := Some(m);
    }
    if IsResources(m) && resources.None? {
      resources := Some(m);
    }
    if IsResourceXml(m) {
      resourceXml := resourceXml + [m];
    }
    if IsDex(m) {
      dex := dex + [m];
    }
    var native := a.native;
    if IsNative(m) {
      NamesStep(Select(seen, IsNative), m);
      TakeStep(WithAbi(Select(seen, IsNative)), (Abi(m), m), MAX_NATIVE_LIBS_READ);
      TakeLength(WithAbi(Select(seen, IsNative)), MAX_NATIVE_LIBS_READ);
      if |native| < MAX_NATIVE_LIBS_READ {
        native := native + [(Abi(m), m)];
      }
    }
    var v1 := a.v1;
    if IsV1Read(m) {
      TakeStep(Select(seen, IsV1Read), m, MAX_LISTED);
      TakeLength(Select(seen, IsV1Read), MAX_LISTED);
      if |v1| < MAX_LISTED {
        v1 := v1 + [m];
      }
    }
    r := a.(manifest := manifest, resources := resources, resourceXml := resourceXml, dex := dex,
            native := native, v1 := v1);
  }

  lemma TakeLength<T>(s: seq<T>, n: nat)
    ensures |Take(s, n)| < n <==> |s| < n
  {
  }

  method Walk(data: Slice) returns (r: Result<(Inventory, Archive), ZipError>)
    ensures r == WalkSpec(data)
  {
    hide MemberAt, DirectoryBounds, InventoryOf, ArchiveOf, SigningBlockSpec;
    var bounds := ReadDirectoryBounds(data);
    if bounds.Err? {
      return Err(bounds.error);
    }
    var (count, dirStart, dirEnd) := bounds.value;
    var inventory, archive := NoMembers(|data|), NoArchive(dirStart);
    var v1Count: nat := 0;
    var pos := dirStart;
    ghost var seen: seq<Member> := [];
    NothingCollected(|data|, dirStart);
    var k := 0;
    while k < count
      invariant 0 <= k <= count
      invariant Entries(data, dirStart, dirEnd, k) == Ok((seen, pos))
      invariant Counted(seen, inventory, v1Count) && inventory.fileSize == |data|
      invariant Kept(seen, archive) && archive.directoryStart == dirStart
    {
      var entry := MemberAt(data, pos, dirStart, dirEnd);
      if entry.Err? {
        EntriesFail(data, dirStart, dirEnd, k + 1, count);
        return Err(entry.error);
      }
      pos := entry.value.next;
      inventory, v1Count := CountMember(entry.value, inventory, v1Count, seen);
      archive := KeepMember(entry.value, archive, seen);
      seen := seen + [entry.value];
      k := k + 1;
    }
    KeptManifest(seen, archive);
    if pos != dirEnd {
      return Err(CountMismatch);
    }
    if archive.manifest.None? {
      return Err(NoManifest);
    }
    var sig := ReadSigningBlock(data, dirStart);
    FinishedWalk(seen, inventory, archive, v1Count, sig, data, dirStart);
    inventory := inventory.(
      dexFilesOmitted := inventory.dexCount - |inventory.dexFiles|,
      v1ArtifactsOmitted := v1Count - |inventory.v1Artifacts|,
      signingBlockPresent := sig.present,
      schemes := sig.schemes,
      duplicateSchemes := sig.duplicates);
    if sig.present {
      archive := archive.(signingStart := sig.start, signingValues := sig.values);
    }
    return Ok((inventory, archive));
  }

  function NoMembers(fileSize: nat): Inventory {
    Inventory(fileSize, 0, 0, [], 0, 0, {}, [], 0, false, {}, {}, 0, 0, 0)
  }

  function NoArchive(directoryStart: usize): Archive {
    Archive(None, None, [], [], [], [], [], None, directoryStart)
  }

  lemma NothingCollected(fileSize: nat, directoryStart: usize)
    ensures Counted([], NoMembers(fileSize), 0) && Kept([], NoArchive(directoryStart))
  {
  }

  lemma KeptManifest(seen: seq<Member>, a: Archive)
    requires Kept(seen, a)
    ensures a.manifest == First(seen, IsManifest)
  {
  }

  lemma FinishedWalk(
    seen: seq<Member>, i: Inventory, a: Archive, v1Count: nat, sig: SigningBlock, data: Slice, dirStart: usize)
    requires Counted(seen, i, v1Count) && Kept(seen, a) && sig == SigningBlockSpec(data, dirStart)
    ensures |i.dexFiles| <= i.dexCount && |i.v1Artifacts| <= v1Count
    ensures InventoryOf(i.fileSize, seen, sig)
         == i.(dexFilesOmitted := i.dexCount - |i.dexFiles|, v1ArtifactsOmitted := v1Count - |i.v1Artifacts|,
               signingBlockPresent := sig.present, schemes := sig.schemes, duplicateSchemes := sig.duplicates)
    ensures ArchiveOf(seen, sig, a.directoryStart)
         == if sig.present then a.(signingStart := sig.start, signingValues := sig.values) else a
  {
    hide Select;
  }

  // What acceptance means

  lemma Accepted(data: Slice)
    requires WalkSpec(data).Ok?
    ensures Members(data).Ok? && DirectoryBounds(data).Ok?
    ensures var (count, dirStart, dirEnd) := DirectoryBounds(data).value;
      && Entries(data, dirStart, dirEnd, count) == Ok((Members(data).value, dirEnd))
      && First(Members(data).value, IsManifest).Some?
      && WalkSpec(data).value.0 == InventoryOf(|data|, Members(data).value, SigningBlockSpec(data, dirStart))
      && WalkSpec(data).value.1 == ArchiveOf(Members(data).value, SigningBlockSpec(data, dirStart), dirStart)
  {
    hide Entries, DirectoryBounds, SigningBlockSpec, First, InventoryOf, ArchiveOf;
    var (count, dirStart, dirEnd) := DirectoryBounds(data).value;
    var entries := Entries(data, dirStart, dirEnd, count);
    assert entries.value == (Members(data).value, dirEnd);
  }

  /**
   The entries of an accepted archive tile its directory exactly, one manifest among them, and
   every payload lies before the directory, inside the file.
   */
  lemma WalkTiles(data: Slice)
    requires WalkSpec(data).Ok?
    ensures Members(data).Ok? && DirectoryBounds(data).Ok?
    ensures var (count, dirStart, dirEnd) := DirectoryBounds(data).value;
      var ms := Members(data).value;
      && |ms| == count == WalkSpec(data).value.0.entries
      && Tiles(data, dirStart, dirEnd, ms) && EntryStart(dirStart, ms, count) == dirEnd
      && (exists m :: m in ms && IsManifest(m))
      && forall m | m in ms :: m.payloadStart + m.payloadLen <= dirStart <= |data|
  {
    hide *;
    Accepted(data);
    var (count, dirStart, dirEnd) := DirectoryBounds(data).value;
    var ms := Members(data).value;
    EntriesTile(data, dirStart, dirEnd, count);
    FirstFound(ms, IsManifest);
    TiledPayloads(data, dirStart, dirEnd, ms);
    EntriesCounted(|data|, ms, SigningBlockSpec(data, dirStart));
  }

  /** `ms` tile the directory of `data`, a manifest among them. */
  ghost predicate Indexes(data: Slice, ms: seq<Member>) {
    && DirectoryBounds(data).Ok?
    && var (count, dirStart, dirEnd) := DirectoryBounds(data).value;
       && |ms| == count && Tiles(data, dirStart, dirEnd, ms) && EntryStart(dirStart, ms, count) == dirEnd
       && exists m :: m in ms && IsManifest(m)
  }

  /** The walk lists `ms` exactly when they are all the entries of the directory, no byte left over. */
  lemma {:induction false} MembersExact(data: Slice, ms: seq<Member>)
    ensures Members(data) == Ok(ms) <==> Indexes(data, ms)
  {
    hide DirectoryBounds, Entries, Tiles, First, IsManifest;
    if DirectoryBounds(data).Ok? {
      var (count, dirStart, dirEnd) := DirectoryBounds(data).value;
      EntriesExact(data, dirStart, dirEnd, ms, dirEnd);
      ManifestIn(ms);
      if Members(data) == Ok(ms) {
        EntriesTile(data, dirStart, dirEnd, count);
      }
    }
  }

  lemma {:induction false} ManifestIn(ms: seq<Member>)
    ensures First(ms, IsManifest).Some? <==> exists m :: m in ms && IsManifest(m)
  {
    hide Select, IsManifest;
    SelectMembers(ms, IsManifest);
    if First(ms, IsManifest).Some? {
      FirstFound(ms, IsManifest);
    }
    if exists m :: m in ms && IsManifest(m) {
      var m :| m in ms && IsManifest(m);
      assert m in Select(ms, IsManifest);
    }
  }

  lemma EntriesCounted(fileSize: nat, ms: seq<Member>, sig: SigningBlock)
    ensures InventoryOf(fileSize, ms, sig).entries == |ms|
  {
  }

  lemma FirstFound(ms: seq<Member>, p: Member -> bool)
    requires First(ms, p).Some?
    ensures First(ms, p).value in ms && p(First(ms, p).value)
  {
    hide Select;
    SelectMembers(ms, p);
    assert Select(ms, p)[0] in Select(ms, p);
  }

  lemma TiledPayloads(data: Slice, dirStart: nat, dirEnd: nat, ms: seq<Member>)
    requires Tiles(data, dirStart, dirEnd, ms)
    ensures forall m | m in ms :: m.payloadStart + m.payloadLen <= dirStart
  {
    forall m | m in ms
      ensures m.payloadStart + m.payloadLen <= dirStart
    {
      var k :| 0 <= k < |ms| && ms[k] == m;
      assert Entry(data, EntryStart(dirStart, ms, k), dirStart, dirEnd, ms[k]);
    }
  }

  lemma {:induction false} SelectMembers(ms: seq<Member>, p: Member -> bool)
    ensures forall m :: m in Select(ms, p) <==> m in ms && p(m)
    ensures |Select(ms, p)| <= |ms|
  {
    if |ms| > 0 {
      SelectMembers(ms[..|ms| - 1], p);
      assert ms == ms[..|ms| - 1] + [ms[|ms| - 1]];
    }
  }

  /** Listed and omitted names together are all the DEX files and all the v1 signing artifacts. */
  lemma OmissionsExact(data: Slice)
    requires WalkSpec(data).Ok?
    ensures var (i, ms) := (WalkSpec(data).value.0, Members(data).value);
      && |i.dexFiles| + i.dexFilesOmitted == Count(ms, IsDex) == i.dexCount
      && |i.v1Artifacts| + i.v1ArtifactsOmitted == Count(ms, IsV1)
      && |i.dexFiles| == Min(MAX_LISTED, Count(ms, IsDex))
      && |i.v1Artifacts| == Min(MAX_LISTED, Count(ms, IsV1))
  {
    hide Select, Members, SigningBlockSpec;
  }

  /** A member the archive hands on to be read. */
  ghost predicate HandedOn(a: Archive, m: Member) {
    || a.manifest == Some(m) || a.resources == Some(m) || m in a.resourceXml || m in a.dex || m in a.v1
    || exists k | 0 <= k < |a.native| :: a.native[k].1 == m
  }

  lemma HandedOnSelected(ms: seq<Member>, sig: SigningBlock, directoryStart: usize, m: Member)
    requires HandedOn(ArchiveOf(ms, sig, directoryStart), m)
    ensures m in ms
  {
    hide Select, IsManifest, IsResources, IsResourceXml, IsDex, IsNative, IsV1Read;
    SelectMembers(ms, IsManifest);
    SelectMembers(ms, IsResources);
    SelectMembers(ms, IsResourceXml);
    SelectMembers(ms, IsDex);
    SelectMembers(ms, IsNative);
    SelectMembers(ms, IsV1Read);
  }

  /** Every member the walk hands on to be read is one it checked, so its payload lies in the file. */
  lemma ReadMembersChecked(data: Slice, m: Member)
    requires WalkSpec(data).Ok? && HandedOn(WalkSpec(data).value.1, m)
    ensures m in Members(data).value && m.payloadStart + m.payloadLen <= |data|
  {
    hide *;
    Accepted(data);
    WalkTiles(data);
    var dirStart := DirectoryBounds(data).value.1;
    HandedOnSelected(Members(data).value, SigningBlockSpec(data, dirStart), dirStart, m);
  }
}
