/**
 Reading members under one shrinking budget. Inflation, its inverse and CRC-32 are parameters: what
 is proved holds for any of them.
 */
module ApkInflation {
  import opened Prelude
  import opened ZipDirectory
  import opened ApkInventory

  const MAX_APK_MANIFEST_BYTES: nat := 4 * 1024 * 1024
  const MAX_APK_RESOURCES_BYTES: nat := 64 * 1024 * 1024
  const MAX_APK_DEX_BYTES: nat := 128 * 1024 * 1024
  const MAX_APK_NATIVE_BYTES: nat := 64 * 1024 * 1024
  const MAX_APK_SIGNATURE_FILE_BYTES: nat := 1024 * 1024
  const MAX_APK_INFLATED_BYTES: nat := 256 * 1024 * 1024

  /** The compression library and the checksum. `inflate` stops at its limit. */
  datatype Codec = Codec(
    inflate: (bytes, nat) -> Option<bytes>,
    deflate: bytes -> bytes,
    crc32: bytes -> nat)

  datatype ReadError = Encrypted | OverLimit | OverBudget | DoesNotInflate | Unsupported | WrongSize | WrongCrc

  /** The bytes of a member, and whether an unknown method was read as stored. */
  datatype Content = Content(bytes: bytes, quirk: bool)

  type ReadResult = Result<Content, ReadError>

  /** Why a member is refused before anything is spent on it. */
  function Refusal(m: Member, limit: nat, left: nat): Option<ReadError> {
    if m.flags % 2 == 1 then Some(Encrypted)
    else if m.size > limit then Some(OverLimit)
    else if m.size > left then Some(OverBudget)
    else None
  }

  /** A member whose bytes would be inflated or copied. */
  predicate Chargeable(m: Member) {
    m.compression == 8 || m.compression == 0 || m.payloadLen == m.size
  }

  /** What reading a member spends, whether or not it succeeds. */
  function Charge(m: Member, limit: nat, left: nat): (charge: nat)
    ensures charge <= left
  {
    if Refusal(m, limit, left).None? && Chargeable(m) then m.size else 0
  }

  predicate PayloadIn(data: Slice, m: Member) {
    m.payloadStart + m.payloadLen <= |data|
  }

  function Payload(data: Slice, m: Member): bytes
    requires PayloadIn(data, m)
  {
    data[m.payloadStart..m.payloadStart + m.payloadLen]
  }

  /** The bytes a payload stands for, before they are checked. */
  function Unpacked(codec: Codec, data: Slice, m: Member): ReadResult
    requires PayloadIn(data, m)
  {
    if m.compression == 8 then
      var bytes :- codec.inflate(Payload(data, m), m.size).OkOr(DoesNotInflate);
      Ok(Content(bytes, false))
    else if m.compression == 0 then Ok(Content(Payload(data, m), false))
    else if m.payloadLen == m.size then Ok(Content(Payload(data, m), true))
    else Err(Unsupported)
  }

  function ReadSpec(codec: Codec, data: Slice, m: Member, limit: nat, left: nat): ReadResult
    requires PayloadIn(data, m)
  {
    if Refusal(m, limit, left).Some? then Err(Refusal(m, limit, left).value)
    else
      var content :- Unpacked(codec, data, m);
      :- Need(|content.bytes| == m.size, WrongSize);
      :- Need(codec.crc32(content.bytes) == m.crc, WrongCrc);
      Ok(content)
  }

  /** The `&mut usize` every reader of one APK shares. */
  class Budget {
    var left: usize

    constructor (left: usize)
      ensures this.left == left
    {
      this.left := left;
    }
  }

  method ReadMember(codec: Codec, data: Slice, m: Member, limit: usize, budget: Budget) returns (r: ReadResult)
    requires PayloadIn(data, m)
    modifies budget
    ensures r == ReadSpec(codec, data, m, limit, old(budget.left))
    ensures budget.left == old(budget.left) - Charge(m, limit, old(budget.left))
  {
    if m.flags % 2 == 1 {
      return Err(Encrypted);
    }
    if m.size > limit {
      return Err(OverLimit);
    }
    if m.size > budget.left {
      return Err(OverBudget);
    }
    if m.compression == 8 || m.compression == 0 || m.payloadLen == m.size {
      budget.left := budget.left - m.size;
    }
    var raw := data[m.payloadStart..m.payloadStart + m.payloadLen];
    var bytes, quirk := raw, false;
    if m.compression == 8 {
      var inflated := codec.inflate(raw, m.size);
      if inflated.None? {
        return Err(DoesNotInflate);
      }
      bytes := inflated.value;
    } else if m.compression != 0 {
      if m.payloadLen != m.size {
        return Err(Unsupported);
      }
      quirk := true;
    }
    if |bytes| != m.size {
      return Err(WrongSize);
    }
    if codec.crc32(bytes) != m.crc {
      return Err(WrongCrc);
    }
    return Ok(Content(bytes, quirk));
  }

  /** Nothing keeps a member from being tried: it is not encrypted, and fits its limit and what is left. */
  ghost predicate Admitted(m: Member, limit: nat, left: nat) {
    m.flags % 2 == 0 && m.size <= limit && m.size <= left
  }

  /** The bytes a payload stands for, by its method: inflated, stored, or taken as stored. */
  ghost predicate Yields(codec: Codec, data: Slice, m: Member, c: Content) {
    && m.payloadStart + m.payloadLen <= |data|
    && var payload := data[m.payloadStart..m.payloadStart + m.payloadLen];
       || (m.compression == 8 && codec.inflate(payload, m.size) == Some(c.bytes) && !c.quirk)
       || (m.compression == 0 && c.bytes == payload && !c.quirk)
       || (m.compression !in {0, 8} && m.payloadLen == m.size && c.bytes == payload && c.quirk)
  }

  /** A read succeeds with `c` exactly when the member fits and its payload yields `c` of its size and checksum. */
  lemma {:induction false} ReadExact(codec: Codec, data: Slice, m: Member, limit: nat, left: nat, c: Content)
    requires PayloadIn(data, m)
    ensures ReadSpec(codec, data, m, limit, left) == Ok(c) <==>
      && Admitted(m, limit, left) && Yields(codec, data, m, c)
      && |c.bytes| == m.size && codec.crc32(c.bytes) == m.crc
  {
  }

  /** Which error a failed read gives: the first of the conditions that fails, in this order. */
  lemma {:induction false} ReadErrors(codec: Codec, data: Slice, m: Member, limit: nat, left: nat)
    requires PayloadIn(data, m)
    ensures var r := ReadSpec(codec, data, m, limit, left);
      && (r == Err(Encrypted) <==> m.flags % 2 == 1)
      && (r == Err(OverLimit) <==> m.flags % 2 == 0 && m.size > limit)
      && (r == Err(OverBudget) <==> m.flags % 2 == 0 && m.size <= limit && m.size > left)
      && (r == Err(DoesNotInflate) <==>
            Admitted(m, limit, left) && m.compression == 8 && forall c :: !Yields(codec, data, m, c))
      && (r == Err(Unsupported) <==>
            Admitted(m, limit, left) && m.compression !in {0, 8} && m.payloadLen != m.size)
      && (r == Err(WrongSize) <==>
            Admitted(m, limit, left) && exists c :: Yields(codec, data, m, c) && |c.bytes| != m.size)
      && (r == Err(WrongCrc) <==>
            Admitted(m, limit, left)
            && exists c :: Yields(codec, data, m, c) && |c.bytes| == m.size && codec.crc32(c.bytes) != m.crc)
  {
    if Admitted(m, limit, left) {
      var unpacked := Unpacked(codec, data, m);
      if unpacked.Ok? {
        assert Yields(codec, data, m, unpacked.value);
      } else {
        assert forall c :: !Yields(codec, data, m, c);
      }
      assert forall c :: Yields(codec, data, m, c) ==> unpacked == Ok(c);
    }
  }

  /**
   What one read costs: a success exactly the bytes it returns, a refusal or an unsupported method
   nothing, and every other failure the size the member declares.
   */
  lemma ReadCost(codec: Codec, data: Slice, m: Member, limit: nat, left: nat)
    requires PayloadIn(data, m)
    ensures var r, charge := ReadSpec(codec, data, m, limit, left), Charge(m, limit, left);
      && (r.Ok? ==> charge == |r.value.bytes| == m.size && codec.crc32(r.value.bytes) == m.crc)
      && (r.Err? && r.error in {Encrypted, OverLimit, OverBudget, Unsupported} ==> charge == 0)
      && (r.Err? && r.error in {DoesNotInflate, WrongSize, WrongCrc} ==> charge == m.size <= left)
  {
  }

  // A sequence of reads

  datatype Request = Request(member: Member, limit: usize)

  /** What is left after `reads`, from `left`. */
  function LeftAfter(requests: seq<Request>, left: usize): (r: usize)
    ensures r <= left
  {
    if |requests| == 0 then left
    else
      var before := LeftAfter(requests[..|requests| - 1], left);
      var last := requests[|requests| - 1];
      before - Charge(last.member, last.limit, before)
  }

  ghost predicate AllIn(data: Slice, requests: seq<Request>) {
    forall k | 0 <= k < |requests| :: PayloadIn(data, requests[k].member)
  }

  function ReadsSpec(codec: Codec, data: Slice, requests: seq<Request>, left: usize): seq<ReadResult>
    requires AllIn(data, requests)
  {
    if |requests| == 0 then []
    else
      var init, last := requests[..|requests| - 1], requests[|requests| - 1];
      ReadsSpec(codec, data, init, left) + [ReadSpec(codec, data, last.member, last.limit, LeftAfter(init, left))]
  }

  /** The bytes the successful reads returned. */
  function BytesRead(results: seq<ReadResult>): nat {
    if |results| == 0 then 0
    else
      var last := results[|results| - 1];
      BytesRead(results[..|results| - 1]) + (if last.Ok? then |last.value.bytes| else 0)
  }

  /** What a read took, told by its outcome alone. */
  function Spent(request: Request, r: ReadResult): nat {
    match r
    case Ok(content) => |content.bytes|
    case Err(DoesNotInflate) => request.member.size
    case Err(WrongSize) => request.member.size
    case Err(WrongCrc) => request.member.size
    case Err(_) => 0
  }

  /** The bytes returned, and the declared sizes of the members that were tried and failed. */
  function BytesSpent(requests: seq<Request>, results: seq<ReadResult>): nat
    requires |requests| == |results|
  {
    if |requests| == 0 then 0
    else
      var n := |requests| - 1;
      BytesSpent(requests[..n], results[..n]) + Spent(requests[n], results[n])
  }

  method ReadAll(codec: Codec, data: Slice, requests: seq<Request>, budget: Budget) returns (results: seq<ReadResult>)
    requires AllIn(data, requests)
    modifies budget
    ensures results == ReadsSpec(codec, data, requests, old(budget.left))
    ensures budget.left == LeftAfter(requests, old(budget.left))
  {
    hide Charge, ReadSpec;
    results := [];
    var k := 0;
    while k < |requests|
      invariant 0 <= k <= |requests|
      invariant results == ReadsSpec(codec, data, requests[..k], old(budget.left))
      invariant budget.left == LeftAfter(requests[..k], old(budget.left))
    {
      assert requests[..k + 1][..k] == requests[..k];
      var r := ReadMember(codec, data, requests[k].member, requests[k].limit, budget);
      results := results + [r];
      k := k + 1;
    }
    assert requests[..k] == requests;
  }

  /**
   Conservation: over any reads, failures included, the bytes returned, the declared sizes of the
   members tried in vain and what is left are together what there was.
   */
  lemma {:induction false} BudgetConserved(codec: Codec, data: Slice, requests: seq<Request>, left: usize)
    requires AllIn(data, requests)
    ensures |ReadsSpec(codec, data, requests, left)| == |requests|
    ensures BytesSpent(requests, ReadsSpec(codec, data, requests, left)) + LeftAfter(requests, left) == left
    ensures BytesRead(ReadsSpec(codec, data, requests, left))
         <= BytesSpent(requests, ReadsSpec(codec, data, requests, left)) <= left
  {
    hide ReadSpec, Charge;
    if |requests| > 0 {
      var init, last := requests[..|requests| - 1], requests[|requests| - 1];
      BudgetConserved(codec, data, init, left);
      SpentCharged(codec, data, last, LeftAfter(init, left));
      var results := ReadsSpec(codec, data, requests, left);
      assert results[..|results| - 1] == ReadsSpec(codec, data, init, left);
    }
  }

  /** What a read's outcome says it took is what was taken from the budget. */
  lemma SpentCharged(codec: Codec, data: Slice, request: Request, left: nat)
    requires PayloadIn(data, request.member)
    ensures Spent(request, ReadSpec(codec, data, request.member, request.limit, left))
         == Charge(request.member, request.limit, left)
  {
    ReadCost(codec, data, request.member, request.limit, left);
    hide ReadSpec, Charge;
  }

  /** Every successful read of a sequence is of a member that is in clear, within its own limit and checked. */
  lemma {:induction false} ReadsWithin(codec: Codec, data: Slice, requests: seq<Request>, left: usize, k: nat)
    requires AllIn(data, requests) && k < |requests|
    ensures |ReadsSpec(codec, data, requests, left)| == |requests|
    ensures var r, m := ReadsSpec(codec, data, requests, left)[k], requests[k].member;
      r.Ok? ==> |r.value.bytes| == m.size <= requests[k].limit && m.flags % 2 == 0 && codec.crc32(r.value.bytes) == m.crc
  {
    hide ReadSpec;
    var init, last := requests[..|requests| - 1], requests[|requests| - 1];
    BudgetConserved(codec, data, requests, left);
    BudgetConserved(codec, data, init, left);
    if k < |init| {
      ReadsWithin(codec, data, init, left, k);
      assert requests[k] == init[k];
    } else {
      var r := ReadSpec(codec, data, last.member, last.limit, LeftAfter(init, left));
      if r.Ok? {
        ReadExact(codec, data, last.member, last.limit, LeftAfter(init, left), r.value);
      }
    }
  }

  // One APK

  /** Each member under one limit. */
  function Requests(ms: seq<Member>, limit: usize): seq<Request> {
    seq(|ms|, k requires 0 <= k < |ms| => Request(ms[k], limit))
  }

  function Optional(m: Option<Member>): seq<Member> {
    if m.Some? then [m.value] else []
  }

  function LibraryMembers(native: seq<(bytes, Member)>): seq<Member> {
    seq(|native|, k requires 0 <= k < |native| => native[k].1)
  }

  function Named(path: bytes): Member -> bool {
    (m: Member) => m.name == path
  }

  /** The resource XML of exactly this path, when there is exactly one. */
  function PolicyMember(archive: Archive, path: Option<bytes>): seq<Member> {
    if path.None? then []
    else
      var matches := Select(archive.resourceXml, Named(path.value));
      if |matches| == 1 then matches else []
  }

  /**
   The reads of one APK in order: manifest, v1 certificates, code, native libraries, and, when the
   manifest names resources, the resource table and the one policy file it resolves to.
   */
  function Plan(archive: Archive, namesResources: bool, policyPath: Option<bytes>): seq<Request> {
    Requests(Optional(archive.manifest), MAX_APK_MANIFEST_BYTES)
    + Requests(archive.v1, MAX_APK_SIGNATURE_FILE_BYTES)
    + Requests(archive.dex, MAX_APK_DEX_BYTES)
    + Requests(LibraryMembers(archive.native), MAX_APK_NATIVE_BYTES)
    + (if namesResources then Requests(Optional(archive.resources), MAX_APK_RESOURCES_BYTES) else [])
    + Requests(PolicyMember(archive, policyPath), MAX_APK_MANIFEST_BYTES)
  }

  /** The requests from `at` on are for these members, in order and each under this limit. */
  ghost predicate Asks(plan: seq<Request>, at: nat, ms: seq<Member>, limit: nat) {
    at + |ms| <= |plan| && forall k | 0 <= k < |ms| :: plan[at + k].member == ms[k] && plan[at + k].limit == limit
  }

  ghost predicate AsksLibraries(plan: seq<Request>, at: nat, native: seq<(bytes, Member)>, limit: nat) {
    && at + |native| <= |plan|
    && forall k | 0 <= k < |native| :: plan[at + k].member == native[k].1 && plan[at + k].limit == limit
  }

  /** The plan in its six parts, each under its own limit. */
  lemma {:induction false} PlanParts(archive: Archive, namesResources: bool, policyPath: Option<bytes>)
    returns (p1: nat, p2: nat, p3: nat, p4: nat, p5: nat)
    ensures
      var plan := Plan(archive, namesResources, policyPath);
      var policy := PolicyMember(archive, policyPath);
      && p1 == |Optional(archive.manifest)| && p2 == p1 + |archive.v1| && p3 == p2 + |archive.dex|
      && p4 == p3 + |archive.native| && p5 == p4 + (if namesResources then |Optional(archive.resources)| else 0)
      && |plan| == p5 + |policy|
      && Asks(plan, 0, Optional(archive.manifest), 0x40_0000)
      && Asks(plan, p1, archive.v1, 0x10_0000)
      && Asks(plan, p2, archive.dex, 0x800_0000)
      && Asks(plan, p3, LibraryMembers(archive.native), 0x400_0000)
      && (namesResources ==> Asks(plan, p4, Optional(archive.resources), 0x400_0000))
      && Asks(plan, p5, policy, 0x40_0000)
  {
    hide PolicyMember, Requests, Asks, Optional;
    var q1 := Requests(Optional(archive.manifest), MAX_APK_MANIFEST_BYTES);
    var q2 := q1 + Requests(archive.v1, MAX_APK_SIGNATURE_FILE_BYTES);
    var q3 := q2 + Requests(archive.dex, MAX_APK_DEX_BYTES);
    var q4 := q3 + Requests(LibraryMembers(archive.native), MAX_APK_NATIVE_BYTES);
    var q5 := q4 + (if namesResources then Requests(Optional(archive.resources), MAX_APK_RESOURCES_BYTES) else []);
    var q6 := q5 + Requests(PolicyMember(archive, policyPath), MAX_APK_MANIFEST_BYTES);
    p1, p2, p3, p4, p5 := |q1|, |q2|, |q3|, |q4|, |q5|;
    AsksLast([], Optional(archive.manifest), MAX_APK_MANIFEST_BYTES);
    assert [] + q1 == q1;
    AsksLast(q1, archive.v1, MAX_APK_SIGNATURE_FILE_BYTES);
    AsksLast(q2, archive.dex, MAX_APK_DEX_BYTES);
    AsksLast(q3, LibraryMembers(archive.native), MAX_APK_NATIVE_BYTES);
    AsksLast(q4, Optional(archive.resources), MAX_APK_RESOURCES_BYTES);
    AsksLast(q5, PolicyMember(archive, policyPath), MAX_APK_MANIFEST_BYTES);
    AsksMore(q1, 0, Optional(archive.manifest), MAX_APK_MANIFEST_BYTES, q6);
    AsksMore(q2, p1, archive.v1, MAX_APK_SIGNATURE_FILE_BYTES, q6);
    AsksMore(q3, p2, archive.dex, MAX_APK_DEX_BYTES, q6);
    AsksMore(q4, p3, LibraryMembers(archive.native), MAX_APK_NATIVE_BYTES, q6);
    if namesResources {
      AsksMore(q5, p4, Optional(archive.resources), MAX_APK_RESOURCES_BYTES, q6);
    }
  }

  /**
   The plan, request by request: the manifest under 4 MiB, the v1 certificates under 1 MiB, the code under
   128 MiB, the libraries under 64 MiB, the resource table under 64 MiB when it is asked for, the policy
   under 4 MiB, and nothing else.
   */
  lemma {:induction false} PlanExact(archive: Archive, namesResources: bool, policyPath: Option<bytes>)
    ensures
      var plan := Plan(archive, namesResources, policyPath);
      var manifest := if archive.manifest.Some? then 1 else 0;
      var table := if namesResources && archive.resources.Some? then 1 else 0;
      var libraries := manifest + |archive.v1| + |archive.dex|;
      var rest := libraries + |archive.native|;
      && (archive.manifest.Some? ==> Asks(plan, 0, [archive.manifest.value], 0x40_0000))
      && Asks(plan, manifest, archive.v1, 0x10_0000)
      && Asks(plan, manifest + |archive.v1|, archive.dex, 0x800_0000)
      && rest + table <= |plan|
      && AsksLibraries(plan, libraries, archive.native, 0x400_0000)
      && (table == 1 ==> Asks(plan, rest, [archive.resources.value], 0x400_0000))
      && Asks(plan, rest + table, PolicyMember(archive, policyPath), 0x40_0000)
      && |plan| == rest + table + |PolicyMember(archive, policyPath)|
  {
    hide PolicyMember, Plan, Asks, AsksLibraries;
    var p1, p2, p3, p4, p5 := PlanParts(archive, namesResources, policyPath);
    assert archive.manifest.Some? ==> Optional(archive.manifest) == [archive.manifest.value];
    assert archive.resources.Some? ==> Optional(archive.resources) == [archive.resources.value];
    LibrariesAsked(Plan(archive, namesResources, policyPath), p3, archive.native, 0x400_0000);
  }

  lemma AsksLast(plan: seq<Request>, ms: seq<Member>, limit: usize)
    ensures |Requests(ms, limit)| == |ms| && Asks(plan + Requests(ms, limit), |plan|, ms, limit)
  {
  }

  lemma AsksMore(plan: seq<Request>, at: nat, ms: seq<Member>, limit: usize, whole: seq<Request>)
    requires Asks(plan, at, ms, limit) && plan <= whole
    ensures Asks(whole, at, ms, limit)
  {
    assert forall k | 0 <= k < |plan| :: whole[k] == plan[k];
  }

  lemma LibrariesAsked(plan: seq<Request>, at: nat, native: seq<(bytes, Member)>, limit: usize)
    requires Asks(plan, at, LibraryMembers(native), limit)
    ensures AsksLibraries(plan, at, native, limit)
  {
    var ms := LibraryMembers(native);
    forall k | 0 <= k < |native|
      ensures plan[at + k].member == native[k].1 && plan[at + k].limit == limit
    {
      assert plan[at + k].member == ms[k];
    }
  }

  /** The policy is the one resource XML of exactly the path asked for: none when there is none, or more than one. */
  lemma {:induction false} PolicyExact(archive: Archive, path: bytes, m: Member)
    ensures PolicyMember(archive, None) == []
    ensures |PolicyMember(archive, Some(path))| <= 1
    ensures PolicyMember(archive, Some(path)) == [m] <==>
      exists k :: 0 <= k < |archive.resourceXml| && archive.resourceXml[k] == m && m.name == path
                  && forall j | 0 <= j < |archive.resourceXml| && archive.resourceXml[j].name == path :: j == k
  {
    var ms := archive.resourceXml;
    var ks := SelectIndices(ms, Named(path));
    var matches := PolicyMember(archive, Some(path));
    assert Select(ms, Named(path)) == if |ks| == 1 then matches else Select(ms, Named(path));
    hide Select, PolicyMember;
    if k :| 0 <= k < |ms| && ms[k] == m && m.name == path
            && forall j | 0 <= j < |ms| && ms[j].name == path :: j == k {
      OnlyPick(ms, ks, Named(path), k);
    }
    if |ks| == 1 {
      assert forall j: nat | j < |ms| && Named(path)(ms[j]) :: j in ks;
      assert ks == [ks[0]];
    }
  }

  lemma AscendingEnds(ks: seq<nat>)
    requires forall i, j | 0 <= i < j < |ks| :: ks[i] < ks[j]
    ensures |ks| <= 1 || ks[0] != ks[|ks| - 1]
  {
  }

  lemma {:induction false} OnlyPick(ms: seq<Member>, ks: seq<nat>, shape: Member -> bool, k: nat)
    requires Picks(ms, ks, shape) && k < |ms| && shape(ms[k])
    requires forall j: nat | j < |ms| && shape(ms[j]) :: j == k
    ensures ks == [k]
  {
    assert k in ks;
    forall i | 0 <= i < |ks|
      ensures ks[i] == k
    {
      assert ks[i] in ks;
    }
    AscendingEnds(ks);
  }

  lemma PlanHandedOn(archive: Archive, namesResources: bool, policyPath: Option<bytes>)
    ensures forall r | r in Plan(archive, namesResources, policyPath) :: HandedOn(archive, r.member)
  {
    var plan := Plan(archive, namesResources, policyPath);
    if policyPath.Some? {
      SelectMembers(archive.resourceXml, Named(policyPath.value));
    }
    hide Select;
    forall r | r in plan
      ensures HandedOn(archive, r.member)
    {
      var m := r.member;
      assert r in Requests(archive.v1, MAX_APK_SIGNATURE_FILE_BYTES) ==> m in archive.v1;
      assert r in Requests(archive.dex, MAX_APK_DEX_BYTES) ==> m in archive.dex;
    }
  }

  /** All that is read of one APK, whatever its members claim, stays within the one budget. */
  method ReadApk(codec: Codec, data: Slice, archive: Archive, namesResources: bool, policyPath: Option<bytes>)
    returns (results: seq<ReadResult>)
    requires WalkSpec(data).Ok? && archive == WalkSpec(data).value.1
    ensures AllIn(data, Plan(archive, namesResources, policyPath))
    ensures results == ReadsSpec(codec, data, Plan(archive, namesResources, policyPath), 0x1000_0000)
    ensures BytesRead(results) <= 0x1000_0000
  {
    hide WalkSpec, Plan, ReadsSpec, LeftAfter, BytesRead, BytesSpent, HandedOn;
    var requests := Plan(archive, namesResources, policyPath);
    PlanHandedOn(archive, namesResources, policyPath);
    forall k | 0 <= k < |requests|
      ensures PayloadIn(data, requests[k].member)
    {
      assert requests[k] in requests;
      ReadMembersChecked(data, requests[k].member);
    }
    var budget := new Budget(MAX_APK_INFLATED_BYTES);
    results := ReadAll(codec, data, requests, budget);
    BudgetConserved(codec, data, requests, MAX_APK_INFLATED_BYTES);
  }
}
