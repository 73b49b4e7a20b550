/** The names the walk looks for, by their shapes, and what it counts, lists and hands on of each. */
module ApkNames {
  import opened Prelude
  import opened ZipFields
  import opened ZipDirectory
  import opened SB = SigningBlock
  import opened ApkInventory

  // Shapes

  /** `classes`, digits or none, `.dex`. */
  ghost predicate DexShape(name: bytes) {
    exists digits: bytes ::
      (forall k | 0 <= k < |digits| :: 48 <= digits[k] <= 57) && name == Ascii("classes") + digits + Ascii(".dex")
  }

  /** `lib/`, the ABI, `/` and a file `.so` with a name before its extension. */
  ghost predicate NativeShape(name: bytes, abi: bytes) {
    && abi != [] && SLASH !in abi
    && exists stem: bytes ::
         stem != [] && SLASH !in stem && name == Ascii("lib/") + abi + [SLASH] + stem + Ascii(".so")
  }

  /** A file of `META-INF` itself with this extension. */
  ghost predicate MetaShape(name: bytes, extension: string)
    requires forall k | 0 <= k < |extension| :: extension[k] as int < 128
  {
    exists stem: bytes :: SLASH !in stem && name == Ascii("META-INF/") + stem + Ascii(extension)
  }

  ghost predicate CertificateShape(name: bytes) {
    MetaShape(name, ".RSA") || MetaShape(name, ".DSA") || MetaShape(name, ".EC")
  }

  ghost predicate ArtifactShape(name: bytes) {
    CertificateShape(name) || MetaShape(name, ".SF")
  }

  /** The parts with `/` between. */
  ghost function Slashed(parts: seq<bytes>): bytes {
    if |parts| == 0 then [] else if |parts| == 1 then parts[0] else parts[0] + ([SLASH] + Slashed(parts[1..]))
  }

  /** `parts` are what the slashes of `name` separate. */
  ghost predicate Parted(name: bytes, parts: seq<bytes>) {
    |parts| > 0 && (forall k | 0 <= k < |parts| :: SLASH !in parts[k]) && name == Slashed(parts)
  }

  /** An absolute path, a backslash, a NUL, or a part that leads out of its directory. */
  ghost predicate SuspiciousShape(name: bytes) {
    || (name != [] && name[0] == SLASH) || 92 in name || 0 in name
    || exists parts :: Parted(name, parts) && Ascii("..") in parts
  }

  /** Below `res`, a last part, trailing slashes and dots aside, that is a name and `.xml`. */
  ghost predicate ResourceShape(name: bytes) {
    && !SuspiciousShape(name)
    && exists parts, k :: Parted(name, parts) && XmlPart(parts, k)
  }

  ghost predicate XmlPart(parts: seq<bytes>, k: nat) {
    && 0 < k < |parts| && parts[0] == Ascii("res")
    && (exists stem: bytes :: stem != [] && parts[k] == stem + Ascii(".xml"))
    && forall j | k < j < |parts| :: Vanishing(parts[j])
  }

  /** A part that names nothing: an empty one, or a dot. */
  predicate Vanishing(part: bytes) {
    part == [] || part == Ascii(".")
  }

  // The tests are exactly the shapes

  /** What stands between a prefix and a suffix. */
  lemma {:induction false} BetweenRead(name: bytes, prefix: bytes, suffix: bytes)
    requires StartsWith(name, prefix) && EndsWith(name[|prefix|..], suffix)
    ensures |name| >= |prefix| + |suffix|
    ensures name == prefix + name[|prefix|..|name| - |suffix|] + suffix
  {
    var tail := name[|prefix|..];
    assert name == prefix + tail;
    assert tail == tail[..|tail| - |suffix|] + suffix;
    assert tail[..|tail| - |suffix|] == name[|prefix|..|name| - |suffix|];
  }

  lemma {:induction false} BetweenWritten(name: bytes, prefix: bytes, middle: bytes, suffix: bytes)
    requires name == prefix + middle + suffix
    ensures StartsWith(name, prefix) && name[|prefix|..] == middle + suffix && EndsWith(name[|prefix|..], suffix)
    ensures |name| >= |prefix| + |suffix| && name[|prefix|..|name| - |suffix|] == middle
  {
  }

  lemma {:induction false} DexNameExact(name: bytes)
    ensures DexName(name) <==> DexShape(name)
  {
    hide DexName, Ascii;
    if DexName(name) {
      DexWritten(name);
    }
    if DexShape(name) {
      var digits: bytes :| (forall k | 0 <= k < |digits| :: 48 <= digits[k] <= 57)
        && name == Ascii("classes") + digits + Ascii(".dex");
      DexRead(name, digits);
    }
  }

  lemma {:induction false} DexWritten(name: bytes)
    requires DexName(name)
    ensures DexShape(name)
  {
    hide Ascii, StartsWith, EndsWith;
    BetweenRead(name, Ascii("classes"), Ascii(".dex"));
    DigitsAt(name, 7, |name| - 4);
  }

  lemma {:induction false} DexRead(name: bytes, digits: bytes)
    requires forall k | 0 <= k < |digits| :: 48 <= digits[k] <= 57
    requires name == Ascii("classes") + digits + Ascii(".dex")
    ensures DexName(name)
  {
    hide Ascii, StartsWith, EndsWith;
    BetweenWritten(name, Ascii("classes"), digits, Ascii(".dex"));
    DigitsAt(name, 7, |name| - 4);
  }

  lemma DigitsAt(name: bytes, from: nat, end: int)
    requires from <= end <= |name|
    ensures (forall k | from <= k < end :: 48 <= name[k] <= 57) <==>
      var digits := name[from..end];
      forall k | 0 <= k < |digits| :: 48 <= digits[k] <= 57
  {
    var digits := name[from..end];
    assert forall k | from <= k < end :: name[k] == digits[k - from];
  }

  lemma {:induction false} FirstSlashAt(name: bytes)
    ensures SLASH !in name[..FirstSlash(name)]
    ensures FirstSlash(name) < |name| ==> name[FirstSlash(name)] == SLASH
  {
    if |name| > 0 && name[0] != SLASH {
      FirstSlashAt(name[1..]);
      assert name[..FirstSlash(name)] == [name[0]] + name[1..][..FirstSlash(name) - 1];
    }
  }

  lemma {:induction false} FirstSlashAfter(part: bytes, rest: bytes)
    requires SLASH !in part
    ensures FirstSlash(part) == |part| && FirstSlash(part + ([SLASH] + rest)) == |part|
    decreases |part|
  {
    if part == [] {
      assert part + ([SLASH] + rest) == [SLASH] + rest;
    } else {
      FirstSlashAfter(part[1..], rest);
      assert (part + ([SLASH] + rest))[1..] == part[1..] + ([SLASH] + rest);
    }
  }

  lemma {:induction false} NativeAbiExact(name: bytes, abi: bytes)
    ensures NativeAbi(name) == Some(abi) <==> NativeShape(name, abi)
  {
    hide NativeAbi, Ascii;
    if NativeAbi(name) == Some(abi) {
      NativeWritten(name, abi);
    }
    if NativeShape(name, abi) {
      var stem: bytes :| stem != [] && SLASH !in stem && name == Ascii("lib/") + abi + [SLASH] + stem + Ascii(".so");
      NativeRead(name, abi, stem);
    }
  }

  lemma {:induction false} NativePieces(name: bytes, abi: bytes) returns (file: bytes)
    requires NativeAbi(name) == Some(abi)
    ensures abi != [] && SLASH !in abi && SLASH !in file && EndsWith(file, Ascii(".so")) && |file| > 3
    ensures name == Ascii("lib/") + (abi + ([SLASH] + file))
  {
    hide Ascii, FirstSlash, EndsWith;
    var rest := name[4..];
    FirstSlashAt(rest);
    file := rest[|abi| + 1..];
    assert name == Ascii("lib/") + rest;
    assert rest == abi + ([SLASH] + file);
  }

  lemma {:induction false} NativeWritten(name: bytes, abi: bytes)
    requires NativeAbi(name) == Some(abi)
    ensures NativeShape(name, abi)
  {
    hide Ascii, NativeAbi;
    var file := NativePieces(name, abi);
    var stem := file[..|file| - 3];
    assert file == stem + Ascii(".so");
    Reassociate(Ascii("lib/"), abi, [SLASH], stem, Ascii(".so"));
  }

  lemma Reassociate(a: bytes, b: bytes, c: bytes, d: bytes, e: bytes)
    ensures a + (b + (c + (d + e))) == a + b + c + d + e
  {
  }

  lemma {:induction false} NativeRead(name: bytes, abi: bytes, stem: bytes)
    requires abi != [] && SLASH !in abi && stem != [] && SLASH !in stem
    requires name == Ascii("lib/") + abi + [SLASH] + stem + Ascii(".so")
    ensures NativeAbi(name) == Some(abi)
  {
    hide Ascii, FirstSlash;
    var rest, file := name[4..], stem + Ascii(".so");
    assert rest == abi + ([SLASH] + file);
    FirstSlashAfter(abi, file);
    assert rest[|abi| + 1..] == file && rest[..|abi|] == abi;
    assert SLASH !in file;
    assert file[|file| - 3..] == Ascii(".so");
  }

  lemma {:induction false} MetaExact(name: bytes, extension: string)
    requires forall k | 0 <= k < |extension| :: extension[k] as int < 128 && extension[k] != '/'
    ensures MetaShape(name, extension) <==>
      StartsWith(name, Ascii("META-INF/")) && SLASH !in name[9..] && EndsWith(name[9..], Ascii(extension))
  {
    hide Ascii;
    var meta := Ascii("META-INF/");
    if MetaShape(name, extension) {
      var stem: bytes :| SLASH !in stem && name == meta + stem + Ascii(extension);
      BetweenWritten(name, meta, stem, Ascii(extension));
      assert SLASH !in Ascii(extension);
    }
    if StartsWith(name, meta) && SLASH !in name[9..] && EndsWith(name[9..], Ascii(extension)) {
      BetweenRead(name, meta, Ascii(extension));
    }
  }

  lemma {:induction false} V1Exact(name: bytes)
    ensures V1SigningArtifact(name) <==> ArtifactShape(name)
  {
    hide Ascii, MetaShape, EndsWith;
    MetaExact(name, ".RSA");
    MetaExact(name, ".DSA");
    MetaExact(name, ".EC");
    MetaExact(name, ".SF");
  }

  lemma {:induction false} V1ReadExact(name: bytes)
    ensures V1SigningArtifact(name) && V1Certificate(name) <==> CertificateShape(name)
  {
    hide Ascii, MetaShape, EndsWith;
    MetaExact(name, ".RSA");
    MetaExact(name, ".DSA");
    MetaExact(name, ".EC");
    if StartsWith(name, Ascii("META-INF/")) {
      EndsInFile(name, ".RSA", ".SF");
      EndsInFile(name, ".DSA", ".SF");
      EndsInFile(name, ".EC", ".SF");
      LongEnough(name, ".RSA");
      LongEnough(name, ".DSA");
      LongEnough(name, ".EC");
      LongEnough(name, ".SF");
    }
  }

  /** A file that ends in one extension does not end in another with a different last letter. */
  lemma EndsInFile(name: bytes, extension: string, other: string)
    requires forall k | 0 <= k < |extension| :: extension[k] as int < 128
    requires forall k | 0 <= k < |other| :: other[k] as int < 128
    requires |extension| > 0 && |other| > 0 && extension[|extension| - 1] != other[|other| - 1] && |name| >= 9
    ensures !(EndsWith(name, Ascii(extension)) && EndsWith(name[9..], Ascii(other)))
  {
    hide Ascii;
    if EndsWith(name, Ascii(extension)) {
      assert name[|name| - 1] == name[|name| - |extension|..][|extension| - 1];
    }
    if EndsWith(name[9..], Ascii(other)) {
      assert name[|name| - 1] == name[9..][|name| - 9 - |other|..][|other| - 1];
    }
  }

  lemma LongEnough(name: bytes, extension: string)
    requires forall k | 0 <= k < |extension| :: extension[k] as int < 128
    requires |name| >= 9
    ensures EndsWith(name[9..], Ascii(extension)) <==> |name| >= 9 + |extension| && EndsWith(name, Ascii(extension))
  {
    hide Ascii;
    if |name| >= 9 + |extension| {
      assert name[9..][|name| - 9 - |extension|..] == name[|name| - |extension|..];
    }
  }

  // Parts of a path

  lemma SlashedCons(part: bytes, rest: seq<bytes>)
    ensures Slashed([part] + rest) == if rest == [] then part else part + ([SLASH] + Slashed(rest))
  {
    assert ([part] + rest)[1..] == rest;
  }

  /** Every name has its parts. */
  lemma {:induction false} PartsOf(name: bytes) returns (parts: seq<bytes>)
    ensures Parted(name, parts)
    decreases |name|
  {
    hide Slashed, FirstSlash;
    var at := FirstSlash(name);
    FirstSlashAt(name);
    if at == |name| {
      parts := [name];
      assert name[..at] == name && [name] + [] == [name];
      SlashedCons(name, []);
    } else {
      var rest := PartsOf(name[at + 1..]);
      parts := [name[..at]] + rest;
      SlashedCons(name[..at], rest);
      assert name == name[..at] + ([SLASH] + name[at + 1..]);
    }
  }

  /** The first part of a name and what follows its slash. */
  lemma {:induction false} PartsFirst(parts: seq<bytes>)
    requires |parts| > 0 && forall k | 0 <= k < |parts| :: SLASH !in parts[k]
    ensures
      var name, at := Slashed(parts), |parts[0]|;
      && FirstSlash(name) == at <= |name| && name[..at] == parts[0]
      && (|parts| == 1 <==> at == |name|)
      && (|parts| > 1 ==> name[at + 1..] == Slashed(parts[1..]))
  {
    FirstSlashAfter(parts[0], if |parts| > 1 then Slashed(parts[1..]) else []);
  }

  lemma {:induction false} ParentExact(parts: seq<bytes>)
    requires |parts| > 0 && forall k | 0 <= k < |parts| :: SLASH !in parts[k]
    ensures HasParentPart(Slashed(parts)) <==> Ascii("..") in parts
    decreases |parts|
  {
    hide Ascii, Slashed, FirstSlash;
    PartsFirst(parts);
    if |parts| > 1 {
      ParentExact(parts[1..]);
      assert parts == [parts[0]] + parts[1..];
    }
  }

  lemma {:induction false} SuspiciousExact(name: bytes)
    ensures Suspicious(name) <==> SuspiciousShape(name)
  {
    hide Ascii, HasParentPart, Slashed;
    var parts := PartsOf(name);
    ParentExact(parts);
    forall others | Parted(name, others)
      ensures HasParentPart(name) <==> Ascii("..") in others
    {
      ParentExact(others);
    }
    assert StartsWith(name, [SLASH]) <==> name != [] && name[0] == SLASH;
  }

  /** The last part that names something is the file's name. */
  lemma {:induction false} FileNameExact(parts: seq<bytes>, last: bytes, k: nat)
    requires |parts| > 0 && forall j | 0 <= j < |parts| :: SLASH !in parts[j]
    requires k <= |parts| && forall j | k <= j < |parts| :: Vanishing(parts[j])
    requires k > 0 ==> !Vanishing(parts[k - 1])
    ensures FileName(Slashed(parts), last) == if k == 0 then last else parts[k - 1]
    decreases |parts|
  {
    hide Ascii, Slashed, FirstSlash;
    PartsFirst(parts);
    if |parts| > 1 {
      var now := if Vanishing(parts[0]) then last else parts[0];
      if k == 0 {
        FileNameExact(parts[1..], now, 0);
      } else {
        FileNameExact(parts[1..], now, k - 1);
      }
    }
  }

  lemma {:induction false} LastNaming(parts: seq<bytes>) returns (k: nat)
    ensures k <= |parts| && forall j | k <= j < |parts| :: Vanishing(parts[j])
    ensures k > 0 ==> !Vanishing(parts[k - 1])
  {
    k := |parts|;
    while k > 0 && Vanishing(parts[k - 1])
      invariant k <= |parts| && forall j | k <= j < |parts| :: Vanishing(parts[j])
    {
      k := k - 1;
    }
  }

  /** Below `res`: the first part is `res` and there is another. */
  lemma {:induction false} BelowRes(parts: seq<bytes>)
    requires |parts| > 0 && forall j | 0 <= j < |parts| :: SLASH !in parts[j]
    ensures StartsWith(Slashed(parts), Ascii("res/")) <==> |parts| > 1 && parts[0] == Ascii("res")
  {
    hide Slashed, Ascii, FirstSlash;
    PartsFirst(parts);
    ResLiteral();
    var name, at := Slashed(parts), |parts[0]|;
    FirstSlashAt(name);
    if StartsWith(name, Ascii("res/")) {
      var rest := name[4..];
      assert name == Ascii("res/") + rest == Ascii("res") + ([SLASH] + rest);
      FirstSlashAfter(Ascii("res"), rest);
    }
    if |parts| > 1 && parts[0] == Ascii("res") {
      assert name[..4] == name[..3] + [name[3]];
      assert name == name[..4] + name[4..];
    }
  }

  lemma ResLiteral()
    ensures Ascii("res/") == Ascii("res") + [SLASH] && SLASH !in Ascii("res")
  {
  }

  /** What is tested of the last part that names something, and of the name as a whole. */
  lemma {:induction false} XmlFile(parts: seq<bytes>, k: nat)
    requires |parts| > 0 && forall j | 0 <= j < |parts| :: SLASH !in parts[j]
    requires k <= |parts| && forall j | k <= j < |parts| :: Vanishing(parts[j])
    requires k > 0 ==> !Vanishing(parts[k - 1])
    ensures
      var file := FileName(Slashed(parts), []);
      EndsWith(file, Ascii(".xml")) && |file| > 4 <==>
        k > 0 && exists stem: bytes :: stem != [] && parts[k - 1] == stem + Ascii(".xml")
  {
    hide Ascii, Slashed, Vanishing;
    FileNameExact(parts, [], k);
    var file := FileName(Slashed(parts), []);
    if EndsWith(file, Ascii(".xml")) && |file| > 4 {
      assert file == file[..|file| - 4] + Ascii(".xml");
    }
  }

  lemma {:induction false} XmlPartLast(parts: seq<bytes>, k: nat, j: nat)
    requires XmlPart(parts, j)
    requires k <= |parts| && forall i | k <= i < |parts| :: Vanishing(parts[i])
    requires k > 0 ==> !Vanishing(parts[k - 1])
    ensures k == j + 1
  {
    var stem: bytes :| stem != [] && parts[j] == stem + Ascii(".xml");
    assert |parts[j]| > 4;
    hide Ascii;
    assert !Vanishing(parts[j]);
  }

  lemma {:induction false} ResourceXmlExact(name: bytes)
    ensures ResourceXmlName(name) <==> ResourceShape(name)
  {
    hide Ascii, Slashed, Suspicious, SuspiciousShape, XmlPart;
    SuspiciousExact(name);
    var parts := PartsOf(name);
    ResourceParts(name, parts);
    forall others, j: nat | Parted(name, others) && XmlPart(others, j)
      ensures ResourceXmlName(name) <==> !SuspiciousShape(name)
    {
      ResourceParts(name, others);
    }
  }

  /** For any parts of the name, the test finds the part that is a name and `.xml`. */
  lemma {:induction false} ResourceParts(name: bytes, parts: seq<bytes>)
    requires Parted(name, parts)
    ensures StartsWith(name, Ascii("res/"))
            && EndsWith(FileName(name, []), Ascii(".xml")) && |FileName(name, [])| > 4 <==>
      exists k :: XmlPart(parts, k)
    ensures ResourceXmlName(name) <==> !Suspicious(name) && exists k :: XmlPart(parts, k)
  {
    hide Ascii, Slashed, Suspicious, StartsWith, EndsWith, Vanishing, FileName;
    var k := LastNaming(parts);
    XmlFile(parts, k);
    BelowRes(parts);
    forall j: nat | XmlPart(parts, j)
      ensures k == j + 1
    {
      XmlPartLast(parts, k, j);
    }
    if k == 1 && parts[0] == Ascii("res") {
      ResNoXml();
    }
    if k > 1 && parts[0] == Ascii("res") && exists stem: bytes :: stem != [] && parts[k - 1] == stem + Ascii(".xml") {
      assert XmlPart(parts, k - 1);
    }
  }

  lemma ResNoXml()
    ensures forall stem: bytes :: Ascii("res") != stem + Ascii(".xml")
  {
    hide Ascii;
    forall stem: bytes
      ensures Ascii("res") != stem + Ascii(".xml")
    {
      assert |stem + Ascii(".xml")| >= 4;
    }
  }

  // What an accepted archive's walk counts, lists and hands on

  ghost predicate NamedDex(m: Member) { DexShape(m.name) }
  ghost predicate NamedNative(m: Member) { exists abi :: NativeShape(m.name, abi) }
  ghost predicate NamedArtifact(m: Member) { ArtifactShape(m.name) }
  ghost predicate NamedCertificate(m: Member) { CertificateShape(m.name) }
  ghost predicate NamedResource(m: Member) { ResourceShape(m.name) }
  ghost predicate NamedManifest(m: Member) { m.name == Ascii("AndroidManifest.xml") }
  ghost predicate NamedTable(m: Member) { m.name == Ascii("resources.arsc") }
  ghost predicate NamedSuspicious(m: Member) { SuspiciousShape(m.name) }
  ghost predicate Packed(m: Member) { m.compression != 0 }
  ghost predicate Locked(m: Member) { m.flags % 2 == 1 }

  lemma {:induction false} PicksSame(ms: seq<Member>, ks: seq<nat>, p: Member -> bool, q: Member -> bool)
    requires Picks(ms, ks, p) && forall m :: p(m) <==> q(m)
    ensures Picks(ms, ks, q)
  {
  }

  /** The members at these positions, the first `limit` of them, in order. */
  ghost predicate Holding(held: seq<Member>, ms: seq<Member>, ks: seq<nat>, limit: nat)
    requires forall i | 0 <= i < |ks| :: ks[i] < |ms|
  {
    |held| == Min(limit, |ks|) && forall i | 0 <= i < |held| :: held[i] == ms[ks[i]]
  }

  ghost predicate Naming(names: seq<bytes>, ms: seq<Member>, ks: seq<nat>, limit: nat)
    requires forall i | 0 <= i < |ks| :: ks[i] < |ms|
  {
    |names| == Min(limit, |ks|) && forall i | 0 <= i < |names| :: names[i] == ms[ks[i]].name
  }

  /** Every DEX file is counted and handed on; the first 32 are listed, and the rest counted as omitted. */
  ghost predicate TellsDex(ms: seq<Member>, i: Inventory, a: Archive, ks: seq<nat>) {
    && Picks(ms, ks, NamedDex) && i.dexCount == |ks|
    && Naming(i.dexFiles, ms, ks, 32) && |i.dexFiles| + i.dexFilesOmitted == |ks| && Holding(a.dex, ms, ks, |ks|)
  }

  /** Every native library is counted, its ABI listed, and the first 64 handed on. */
  ghost predicate TellsNative(ms: seq<Member>, i: Inventory, a: Archive, ks: seq<nat>) {
    && Picks(ms, ks, NamedNative) && i.nativeCount == |ks|
    && (forall abi :: abi in i.nativeAbis <==> exists m :: m in ms && NativeShape(m.name, abi))
    && |a.native| == Min(64, |ks|)
    && forall k | 0 <= k < |a.native| :: a.native[k].1 == ms[ks[k]] && NativeShape(ms[ks[k]].name, a.native[k].0)
  }

  /** The first 32 v1 artifacts are listed, and the rest counted as omitted. */
  ghost predicate TellsArtifacts(ms: seq<Member>, i: Inventory, ks: seq<nat>) {
    Picks(ms, ks, NamedArtifact) && Naming(i.v1Artifacts, ms, ks, 32) && |i.v1Artifacts| + i.v1ArtifactsOmitted == |ks|
  }

  /** The first 32 certificates are handed on, and every resource XML. */
  ghost predicate TellsHeld(ms: seq<Member>, held: seq<Member>, ks: seq<nat>, shape: Member -> bool, limit: nat) {
    Picks(ms, ks, shape) && Holding(held, ms, ks, Min(limit, |ks|))
  }

  /** The first member of a shape, when there is one. */
  ghost predicate TellsFirst(ms: seq<Member>, held: Option<Member>, ks: seq<nat>, shape: Member -> bool) {
    Picks(ms, ks, shape) && held == if ks == [] then None else Some(ms[ks[0]])
  }

  ghost predicate TellsCount(ms: seq<Member>, count: nat, ks: seq<nat>, shape: Member -> bool) {
    Picks(ms, ks, shape) && count == |ks|
  }

  lemma {:induction false} PickShape(ms: seq<Member>, p: Member -> bool, shape: Member -> bool) returns (ks: seq<nat>)
    requires forall m :: p(m) <==> shape(m)
    ensures Picks(ms, ks, shape) && |ks| == |Select(ms, p)|
    ensures forall i | 0 <= i < |ks| :: Select(ms, p)[i] == ms[ks[i]]
  {
    hide Picks, Select;
    ks := SelectIndices(ms, p);
    PicksSame(ms, ks, p, shape);
    PicksIn(ms, ks, p);
  }

  lemma PicksIn(ms: seq<Member>, ks: seq<nat>, p: Member -> bool)
    requires Picks(ms, ks, p)
    ensures forall i | 0 <= i < |ks| :: ks[i] < |ms|
  {
  }

  lemma {:induction false} DexTold(fileSize: nat, ms: seq<Member>, sig: SB.SigningBlock, start: usize) returns (ks: seq<nat>)
    ensures TellsDex(ms, InventoryOf(fileSize, ms, sig), ArchiveOf(ms, sig, start), ks)
  {
    hide Select, DexShape, DexName, Picks;
    forall m: Member
      ensures IsDex(m) <==> NamedDex(m)
    {
      DexNameExact(m.name);
    }
    ks := PickShape(ms, IsDex, NamedDex);
    PicksIn(ms, ks, NamedDex);
  }

  lemma {:induction false} NativeTold(fileSize: nat, ms: seq<Member>, sig: SB.SigningBlock, start: usize) returns (ks: seq<nat>)
    ensures TellsNative(ms, InventoryOf(fileSize, ms, sig), ArchiveOf(ms, sig, start), ks)
  {
    hide Select, NativeShape, NativeAbi, Picks;
    forall m: Member, abi
      ensures NativeAbi(m.name) == Some(abi) <==> NativeShape(m.name, abi)
    {
      NativeAbiExact(m.name, abi);
    }
    forall m: Member
      ensures IsNative(m) <==> NamedNative(m)
      ensures IsNative(m) ==> NativeShape(m.name, Abi(m))
    {
      if IsNative(m) {
        NativeAbiExact(m.name, Abi(m));
      }
      if abi :| NativeShape(m.name, abi) {
        NativeAbiExact(m.name, abi);
      }
    }
    ks := PickShape(ms, IsNative, NamedNative);
    PicksIn(ms, ks, NamedNative);
    SelectMembers(ms, IsNative);
    var native := Select(ms, IsNative);
    assert forall k | 0 <= k < |native| :: native[k] in native;
    AbisTold(ms);
  }

  lemma {:induction false} AbisTold(ms: seq<Member>)
    ensures forall abi :: abi in Abis(Select(ms, IsNative)) <==> exists m :: m in ms && NativeAbi(m.name) == Some(abi)
  {
    hide Select, NativeAbi;
    SelectMembers(ms, IsNative);
    forall abi
      ensures abi in Abis(Select(ms, IsNative)) <==> exists m :: m in ms && NativeAbi(m.name) == Some(abi)
    {
      if m :| m in ms && NativeAbi(m.name) == Some(abi) {
        assert m in Select(ms, IsNative) && Abi(m) == abi;
      }
    }
  }

  lemma {:induction false} ArtifactsTold(fileSize: nat, ms: seq<Member>, sig: SB.SigningBlock) returns (ks: seq<nat>)
    ensures TellsArtifacts(ms, InventoryOf(fileSize, ms, sig), ks)
  {
    hide Select, ArtifactShape, V1SigningArtifact, Picks;
    forall m: Member
      ensures IsV1(m) <==> NamedArtifact(m)
    {
      V1Exact(m.name);
    }
    ks := PickShape(ms, IsV1, NamedArtifact);
    PicksIn(ms, ks, NamedArtifact);
  }

  lemma {:induction false} HeldTold(ms: seq<Member>, sig: SB.SigningBlock, start: usize)
    returns (certificates: seq<nat>, resources: seq<nat>)
    ensures TellsHeld(ms, ArchiveOf(ms, sig, start).v1, certificates, NamedCertificate, 32)
    ensures TellsHeld(ms, ArchiveOf(ms, sig, start).resourceXml, resources, NamedResource, |resources|)
  {
    hide Select, CertificateShape, V1SigningArtifact, V1Certificate, ResourceShape, ResourceXmlName, Picks, Ascii;
    forall m: Member
      ensures IsV1Read(m) <==> NamedCertificate(m)
      ensures IsResourceXml(m) <==> NamedResource(m)
    {
      V1ReadExact(m.name);
      ResourceXmlExact(m.name);
      TableNoXml(m.name);
    }
    certificates := PickShape(ms, IsV1Read, NamedCertificate);
    resources := PickShape(ms, IsResourceXml, NamedResource);
    PicksIn(ms, certificates, NamedCertificate);
    PicksIn(ms, resources, NamedResource);
  }

  /** The resource table is no resource XML. */
  lemma TableNoXml(name: bytes)
    ensures name == Ascii("resources.arsc") ==> !ResourceXmlName(name)
  {
    if name == Ascii("resources.arsc") {
      assert name[3] == 111 && Ascii("res/")[3] == 47;
    }
  }

  lemma {:induction false} FirstTold(ms: seq<Member>, p: Member -> bool, shape: Member -> bool) returns (ks: seq<nat>)
    requires forall m :: p(m) <==> shape(m)
    ensures TellsFirst(ms, First(ms, p), ks, shape)
  {
    hide Select, Picks;
    ks := PickShape(ms, p, shape);
    PicksIn(ms, ks, shape);
  }

  lemma {:induction false} SuspiciousTold(ms: seq<Member>) returns (ks: seq<nat>)
    ensures TellsCount(ms, Count(ms, IsSuspicious), ks, NamedSuspicious)
  {
    hide Select, Picks, Suspicious, SuspiciousShape;
    forall m: Member
      ensures IsSuspicious(m) <==> NamedSuspicious(m)
    {
      SuspiciousExact(m.name);
    }
    ks := PickShape(ms, IsSuspicious, NamedSuspicious);
  }

  /** The signing block before the directory is reported as it is read. */
  ghost predicate TellsSigning(i: Inventory, a: Archive, data: Slice) {
    DirectoryBounds(data).Ok?
    && var start := DirectoryBounds(data).value.1;
       var sig := SigningBlockSpec(data, start);
       && i.signingBlockPresent == sig.present && i.schemes == sig.schemes && i.duplicateSchemes == sig.duplicates
       && a.signingValues == sig.values && a.signingStart == sig.start && a.directoryStart == start
  }

  /**
   What the walk of an accepted archive tells, by the names, flags and methods of its members alone: how many
   there are of each kind, which are listed, and which are handed on to be read.
   */
  lemma {:induction false} WalkTells(data: Slice)
    requires WalkSpec(data).Ok?
    ensures Members(data).Ok?
    ensures
      var (i, a) := WalkSpec(data).value;
      var ms := Members(data).value;
      && i.fileSize == |data| && i.entries == |ms| && TellsSigning(i, a, data)
      && (exists ks :: TellsDex(ms, i, a, ks))
      && (exists ks :: TellsNative(ms, i, a, ks))
      && (exists ks :: TellsArtifacts(ms, i, ks))
      && (exists ks :: TellsHeld(ms, a.v1, ks, NamedCertificate, 32))
      && (exists ks :: TellsHeld(ms, a.resourceXml, ks, NamedResource, |ks|))
      && (exists ks :: TellsFirst(ms, a.manifest, ks, NamedManifest))
      && (exists ks :: TellsFirst(ms, a.resources, ks, NamedTable))
      && (exists ks :: TellsCount(ms, i.compressed, ks, Packed))
      && (exists ks :: TellsCount(ms, i.encrypted, ks, Locked))
      && (exists ks :: TellsCount(ms, i.suspicious, ks, NamedSuspicious))
  {
    hide *;
    Accepted(data);
    var ms := Members(data).value;
    var start := DirectoryBounds(data).value.1;
    var sig := SigningBlockSpec(data, start);
    Told(|data|, ms, sig, start);
    SigningTold(data, ms, sig, start);
  }

  lemma {:induction false} SigningTold(data: Slice, ms: seq<Member>, sig: SB.SigningBlock, start: usize)
    requires DirectoryBounds(data).Ok? && start == DirectoryBounds(data).value.1 && sig == SigningBlockSpec(data, start)
    ensures InventoryOf(|data|, ms, sig).fileSize == |data|
    ensures TellsSigning(InventoryOf(|data|, ms, sig), ArchiveOf(ms, sig, start), data)
  {
    hide DirectoryBounds, SigningBlockSpec, Select, Take, First, Names, Abis, WithAbi;
  }

  lemma {:induction false} Told(fileSize: nat, ms: seq<Member>, sig: SB.SigningBlock, start: usize)
    ensures
      var i, a := InventoryOf(fileSize, ms, sig), ArchiveOf(ms, sig, start);
      && i.entries == |ms|
      && (exists ks :: TellsDex(ms, i, a, ks))
      && (exists ks :: TellsNative(ms, i, a, ks))
      && (exists ks :: TellsArtifacts(ms, i, ks))
      && (exists ks :: TellsHeld(ms, a.v1, ks, NamedCertificate, 32))
      && (exists ks :: TellsHeld(ms, a.resourceXml, ks, NamedResource, |ks|))
      && (exists ks :: TellsFirst(ms, a.manifest, ks, NamedManifest))
      && (exists ks :: TellsFirst(ms, a.resources, ks, NamedTable))
      && (exists ks :: TellsCount(ms, i.compressed, ks, Packed))
      && (exists ks :: TellsCount(ms, i.encrypted, ks, Locked))
      && (exists ks :: TellsCount(ms, i.suspicious, ks, NamedSuspicious))
  {
    hide TellsDex, TellsNative, TellsArtifacts, TellsHeld, TellsFirst, Select, First, Picks, Take, Names, Abis, WithAbi;
    var dex := DexTold(fileSize, ms, sig, start);
    var native := NativeTold(fileSize, ms, sig, start);
    var artifacts := ArtifactsTold(fileSize, ms, sig);
    var certificates, resources := HeldTold(ms, sig, start);
    var manifest := FirstTold(ms, IsManifest, NamedManifest);
    var table := FirstTold(ms, IsResources, NamedTable);
    var compressed := PickShape(ms, IsCompressed, Packed);
    var encrypted := PickShape(ms, IsEncrypted, Locked);
    var suspicious := SuspiciousTold(ms);
    assert TellsCount(ms, Count(ms, IsCompressed), compressed, Packed);
    assert TellsCount(ms, Count(ms, IsEncrypted), encrypted, Locked);
  }

  /** The marks the readers look for, as text. */
  lemma MarksExact()
    ensures EOCD_SIGNATURE == Ascii("PK") + [5, 6] && CENTRAL_SIGNATURE == Ascii("PK") + [1, 2]
    ensures LOCAL_SIGNATURE == Ascii("PK") + [3, 4] && Magic() == Ascii("APK Sig Block 42")
  {
    assert forall k | 0 <= k < 16 :: Magic()[k] == Ascii("APK Sig Block 42")[k];
  }
}
