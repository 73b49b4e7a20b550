/** The APK Signing Block of Android's APK Signature Scheme v2: length-prefixed pairs before the directory. */
module SigningBlock {
  import opened Prelude
  import opened Positional
  import opened ZipFields

  /** `APK Sig Block 42`. */
  function Magic(): (magic: bytes)
    ensures |magic| == 16
  {
    [65, 80, 75, 32, 83, 105, 103, 32, 66, 108, 111, 99, 107, 32, 52, 50]
  }

  datatype Scheme = V2 | V3 | V31

  const V2_ID: nat := 0x7109_871a

  function SchemeOf(id: nat): Option<Scheme> {
    if id == V2_ID then Some(V2)
    else if id == 0xf053_68c0 then Some(V3)
    else if id == 0x1b93_ad61 then Some(V31)
    else None
  }

  datatype Pair = Pair(id: nat, value: bytes)

  datatype SigningBlock = SigningBlock(
    present: bool,
    schemes: set<Scheme>,
    duplicates: set<Scheme>,
    values: seq<(Scheme, bytes)>,
    start: Option<usize>)

  const ABSENT: SigningBlock := SigningBlock(false, {}, {}, [], None)

  // What a list of pairs means

  function Occurrences(ps: seq<Pair>, scheme: Scheme): nat {
    if |ps| == 0 then 0
    else
      Occurrences(ps[..|ps| - 1], scheme) + (if SchemeOf(ps[|ps| - 1].id) == Some(scheme) then 1 else 0)
  }

  function Schemes(ps: seq<Pair>, atLeast: nat): set<Scheme> {
    set scheme: Scheme | Occurrences(ps, scheme) >= atLeast
  }

  /** The values of the known schemes outside `withheld`, in the order of the pairs. */
  function ValuesOutside(ps: seq<Pair>, withheld: set<Scheme>): seq<(Scheme, bytes)> {
    if |ps| == 0 then []
    else
      var last := ps[|ps| - 1];
      ValuesOutside(ps[..|ps| - 1], withheld)
      + (if SchemeOf(last.id).Some? && SchemeOf(last.id).value !in withheld
         then [(SchemeOf(last.id).value, last.value)] else [])
  }

  /** Every known scheme, those that occur twice or more, and in order the values of those that occur once. */
  function Summary(ps: seq<Pair>, start: usize): SigningBlock {
    SigningBlock(true, Schemes(ps, 1), Schemes(ps, 2), ValuesOutside(ps, Schemes(ps, 2)), Some(start))
  }

  // The encoding

  function EncodePair(p: Pair): bytes {
    LeBytes(4 + |p.value|, 8) + (LeBytes(p.id, 4) + p.value)
  }

  function EncodePairs(ps: seq<Pair>): bytes {
    if |ps| == 0 then [] else EncodePair(ps[0]) + EncodePairs(ps[1..])
  }

  function EncodeBlock(ps: seq<Pair>): bytes {
    var size := |EncodePairs(ps)| + 24;
    LeBytes(size, 8) + (EncodePairs(ps) + (LeBytes(size, 8) + Magic()))
  }

  ghost predicate Ids32(ps: seq<Pair>) {
    forall k | 0 <= k < |ps| :: ps[k].id < 0x1_0000_0000
  }

  // Reading

  /** The pairs that fill `data` from `pos` to `end`, or nothing when they do not fill it exactly. */
  function PairsFrom(data: Slice, pos: usize, end: usize): Option<seq<Pair>>
    requires end <= |data|
    decreases if pos < end then end - pos else 0
  {
    if pos >= end then (if pos == end then Some([]) else None)
    else
      var length :- Le64(data, pos);
      var body :- CheckedAdd(pos, 8);
      var next :- CheckedAdd(body, length);
      if length < 4 || next > end then None
      else
        var id :- Le32(data, pos + 8);
        var rest :- PairsFrom(data, next, end);
        Some([Pair(id, data[pos + 12..next])] + rest)
  }

  /** Where the block that ends at `centralAt` starts, when its footer and both its size fields agree. */
  function BlockStart(data: Slice, centralAt: usize): (start: Option<usize>)
    ensures start.Some? ==> centralAt <= |data| && start.value + 32 <= centralAt
  {
    var footerAt :- CheckedSub(centralAt, 24);
    if CheckedRange(data, centralAt - 16, 16) != Some(Magic()) then None
    else
      var size :- Le64(data, footerAt);
      var total :- CheckedAdd(size, 8);
      var start :- CheckedSub(centralAt, total);
      if size < 24 || Le64(data, start) != Some(size) || start + 8 > footerAt then None else Some(start)
  }

  function BlockPairs(data: Slice, centralAt: usize): Option<(usize, seq<Pair>)> {
    var start :- BlockStart(data, centralAt);
    var ps :- PairsFrom(data, start + 8, centralAt - 24);
    Some((start, ps))
  }

  function SigningBlockSpec(data: Slice, centralAt: usize): SigningBlock {
    match BlockPairs(data, centralAt)
    case None => ABSENT
    case Some((start, ps)) => Summary(ps, start)
  }

  lemma HeldValue(data: bytes, at: nat, piece: bytes)
    requires Holds(data, at, piece)
    ensures at + |piece| <= |data| && data[at..at + |piece|] == piece
  {
  }

  /** What a pair written at `pos` reads as. */
  lemma PairFields(data: Slice, pos: usize, p: Pair)
    requires p.id < 0x1_0000_0000 && Holds(data, pos, EncodePair(p))
    ensures pos + 12 + |p.value| <= |data| && data[pos + 12..pos + 12 + |p.value|] == p.value
    ensures Le64(data, pos) == Some(4 + |p.value|) && Le32(data, pos + 8) == Some(p.id)
  {
    hide Holds, LeBytes, Pow;
    HoldsJoin(data, pos, LeBytes(4 + |p.value|, 8), LeBytes(p.id, 4) + p.value);
    HoldsJoin(data, pos + 8, LeBytes(p.id, 4), p.value);
    HeldValue(data, pos + 12, p.value);
    Widths();
    HoldsField(data, pos, 4 + |p.value|, 8);
    HoldsField(data, pos + 8, p.id, 4);
  }

  lemma PairRead(data: Slice, pos: usize, end: usize, p: Pair, rest: seq<Pair>)
    requires pos + 12 + |p.value| <= end <= |data|
    requires data[pos + 12..pos + 12 + |p.value|] == p.value
    requires Le64(data, pos) == Some(4 + |p.value|) && Le32(data, pos + 8) == Some(p.id)
    requires PairsFrom(data, pos + 12 + |p.value|, end) == Some(rest)
    ensures PairsFrom(data, pos, end) == Some([p] + rest)
  {
    hide Le64, Le32;
  }

  /** The pairs of an encoding are read back, wherever the encoding stands. */
  lemma {:induction false} PairsRead(data: Slice, pos: usize, end: usize, ps: seq<Pair>)
    requires Ids32(ps) && Holds(data, pos, EncodePairs(ps)) && end == pos + |EncodePairs(ps)| <= |data|
    ensures PairsFrom(data, pos, end) == Some(ps)
    decreases |ps|
  {
    hide PairsFrom, Holds, EncodePairs, EncodePair, Le64, Le32;
    if |ps| == 0 {
      EmptyRead(data, pos);
    } else {
      var p, rest := ps[0], ps[1..];
      assert ps == [p] + rest;
      EncodeCons(p, rest);
      HoldsJoin(data, pos, EncodePair(p), EncodePairs(rest));
      PairFields(data, pos, p);
      PairsRead(data, pos + 12 + |p.value|, end, rest);
      PairRead(data, pos, end, p, rest);
    }
  }

  lemma EmptyRead(data: Slice, pos: usize)
    requires pos <= |data|
    ensures EncodePairs([]) == [] && PairsFrom(data, pos, pos) == Some([])
  {
  }

  lemma PairTiles(data: Slice, pos: usize, p: Pair)
    requires pos + 12 + |p.value| <= |data| && data[pos + 12..pos + 12 + |p.value|] == p.value
    requires Le64(data, pos) == Some(4 + |p.value|) && Le32(data, pos + 8) == Some(p.id)
    ensures Holds(data, pos, EncodePair(p))
  {
    FieldHolds(data, pos, 8);
    FieldHolds(data, pos + 8, 4);
    HoldsJoin(data, pos + 8, LeBytes(p.id, 4), p.value);
    HoldsJoin(data, pos, LeBytes(4 + |p.value|, 8), LeBytes(p.id, 4) + p.value);
  }

  lemma PairsUnfold(data: Slice, pos: usize, end: usize) returns (p: Pair, rest: seq<Pair>)
    requires pos < end <= |data| && PairsFrom(data, pos, end).Some?
    ensures p.id < 0x1_0000_0000 && pos + 12 + |p.value| <= end
    ensures data[pos + 12..pos + 12 + |p.value|] == p.value
    ensures Le64(data, pos) == Some(4 + |p.value|) && Le32(data, pos + 8) == Some(p.id)
    ensures PairsFrom(data, pos + 12 + |p.value|, end) == Some(rest)
    ensures PairsFrom(data, pos, end) == Some([p] + rest)
  {
    var next := pos + 8 + Le64(data, pos).value;
    p := Pair(Le32(data, pos + 8).value, data[pos + 12..next]);
    rest := PairsFrom(data, next, end).value;
  }

  lemma EncodeCons(p: Pair, rest: seq<Pair>)
    ensures EncodePairs([p] + rest) == EncodePair(p) + EncodePairs(rest) && |EncodePair(p)| == 12 + |p.value|
  {
    assert ([p] + rest)[1..] == rest;
  }

  lemma PairsNone(data: Slice, pos: usize, end: usize)
    requires end <= |data| && pos >= end && PairsFrom(data, pos, end).Some?
    ensures pos == end && PairsFrom(data, pos, end) == Some([]) && EncodePairs([]) == [] && Holds(data, pos, [])
  {
  }

  /** Pairs that are read tile the bytes from `pos` to `end`: they are an encoding of the pairs. */
  lemma {:induction false} PairsTile(data: Slice, pos: usize, end: usize)
    requires end <= |data| && PairsFrom(data, pos, end).Some?
    ensures var ps := PairsFrom(data, pos, end).value;
      Ids32(ps) && Holds(data, pos, EncodePairs(ps)) && end == pos + |EncodePairs(ps)|
    decreases if pos < end then end - pos else 0
  {
    hide PairsFrom, Holds, EncodePairs, EncodePair, Le64, Le32;
    if pos >= end {
      PairsNone(data, pos, end);
    } else {
      var p, rest := PairsUnfold(data, pos, end);
      PairsTile(data, pos + 12 + |p.value|, end);
      PairTiles(data, pos, p);
      EncodeCons(p, rest);
      HoldsJoin(data, pos, EncodePair(p), EncodePairs(rest));
    }
  }

  /** The parts of an encoded block, where each of them stands. */
  lemma BlockParts(data: bytes, start: nat, ps: seq<Pair>)
    ensures var size := |EncodePairs(ps)| + 24;
      Holds(data, start, EncodeBlock(ps)) <==>
      && Holds(data, start, LeBytes(size, 8))
      && Holds(data, start + 8, EncodePairs(ps))
      && Holds(data, start + size - 16, LeBytes(size, 8))
      && Holds(data, start + size - 8, Magic())
  {
    hide Holds, EncodePairs, LeBytes;
    var inner := EncodePairs(ps);
    var size := |inner| + 24;
    HoldsJoin(data, start, LeBytes(size, 8), inner + (LeBytes(size, 8) + Magic()));
    HoldsJoin(data, start + 8, inner, LeBytes(size, 8) + Magic());
    HoldsJoin(data, start + 8 + |inner|, LeBytes(size, 8), Magic());
  }

  /** What the header and footer checks establish, both ways. */
  lemma BlockStartExact(data: Slice, centralAt: usize, start: usize)
    ensures BlockStart(data, centralAt) == Some(start) <==>
      && start + 32 <= centralAt <= |data|
      && data[centralAt - 16..centralAt] == Magic()
      && Le64(data, start) == Le64(data, centralAt - 24) == Some(centralAt - start - 8)
  {
    hide Magic, Le64;
  }

  lemma BlockTiles(data: Slice, centralAt: usize, start: usize, ps: seq<Pair>)
    requires BlockPairs(data, centralAt) == Some((start, ps))
    ensures Ids32(ps) && start + |EncodeBlock(ps)| == centralAt && Holds(data, start, EncodeBlock(ps))
  {
    hide *;
    BlockPairsParts(data, centralAt, start, ps);
    PairsTile(data, start + 8, centralAt - 24);
    var size := |EncodePairs(ps)| + 24;
    SizeField(data, start, size);
    SizeField(data, centralAt - 24, size);
    BlockParts(data, start, ps);
    EncodeBlockLength(ps);
  }

  lemma EncodeBlockLength(ps: seq<Pair>)
    ensures |EncodeBlock(ps)| == |EncodePairs(ps)| + 32
  {
  }

  lemma SizeField(data: Slice, at: usize, size: usize)
    requires Le64(data, at) == Some(size)
    ensures Holds(data, at, LeBytes(size, 8))
  {
    FieldHolds(data, at, 8);
  }

  lemma BlockPairsParts(data: Slice, centralAt: usize, start: usize, ps: seq<Pair>)
    requires BlockPairs(data, centralAt) == Some((start, ps))
    ensures start + 32 <= centralAt <= |data|
    ensures PairsFrom(data, start + 8, centralAt - 24) == Some(ps)
    ensures Holds(data, centralAt - 16, Magic())
    ensures Le64(data, start) == Le64(data, centralAt - 24) == Some(centralAt - start - 8)
  {
    hide Magic, PairsFrom;
    BlockStartExact(data, centralAt, start);
  }

  lemma BlockRead(data: Slice, centralAt: usize, start: usize, ps: seq<Pair>)
    requires Ids32(ps) && start + |EncodeBlock(ps)| == centralAt && Holds(data, start, EncodeBlock(ps))
    ensures BlockPairs(data, centralAt) == Some((start, ps))
  {
    hide EncodePairs, LeBytes, Pow, Magic, BlockStart, PairsFrom, Le;
    var size := |EncodePairs(ps)| + 24;
    assert |EncodeBlock(ps)| == size + 8;
    BlockParts(data, start, ps);
    HeldValue(data, centralAt - 16, Magic());
    hide Holds, EncodeBlock;
    Widths();
    HoldsField(data, start, size, 8);
    HoldsField(data, centralAt - 24, size, 8);
    BlockStartExact(data, centralAt, start);
    PairsRead(data, start + 8, centralAt - 24, ps);
  }

  /**
   A signing block is accepted exactly where the encoding of some pair list ends at the
   directory, and its pairs are that list.
   */
  lemma BlockExact(data: Slice, centralAt: usize, start: usize, ps: seq<Pair>)
    ensures BlockPairs(data, centralAt) == Some((start, ps)) <==>
      Ids32(ps) && start + |EncodeBlock(ps)| == centralAt && Holds(data, start, EncodeBlock(ps))
  {
    hide BlockPairs, Holds, EncodeBlock;
    if BlockPairs(data, centralAt) == Some((start, ps)) {
      BlockTiles(data, centralAt, start, ps);
    }
    if Ids32(ps) && start + |EncodeBlock(ps)| == centralAt && Holds(data, start, EncodeBlock(ps)) {
      BlockRead(data, centralAt, start, ps);
    }
  }

  // What the summary says of each scheme

  /** The identifier a scheme's pairs carry. */
  ghost function SchemeId(scheme: Scheme): nat {
    match scheme
    case V2 => 0x7109_871a
    case V3 => 0xf053_68c0
    case V31 => 0x1b93_ad61
  }

  lemma SchemeIds(id: nat, scheme: Scheme)
    ensures SchemeOf(id) == Some(scheme) <==> id == SchemeId(scheme)
  {
  }

  lemma {:induction false} OccurrencesExact(ps: seq<Pair>, scheme: Scheme)
    ensures Occurrences(ps, scheme) >= 1 <==> exists k :: 0 <= k < |ps| && ps[k].id == SchemeId(scheme)
    ensures Occurrences(ps, scheme) >= 2 <==>
      exists j, k :: 0 <= j < k < |ps| && ps[j].id == SchemeId(scheme) && ps[k].id == SchemeId(scheme)
  {
    hide SchemeOf, SchemeId;
    if |ps| > 0 {
      var init := ps[..|ps| - 1];
      OccurrencesExact(init, scheme);
      SchemeIds(ps[|ps| - 1].id, scheme);
      assert forall k | 0 <= k < |init| :: init[k] == ps[k];
    }
  }

  /** The pair at `k` is the only one of a known scheme outside `withheld`. */
  ghost predicate Gives(ps: seq<Pair>, withheld: set<Scheme>, k: nat)
    requires k < |ps|
  {
    exists scheme :: ps[k].id == SchemeId(scheme) && scheme !in withheld
  }

  /** The values kept are those of the pairs that give one, in order, each with its scheme. */
  lemma {:induction false} ValuesExact(ps: seq<Pair>, withheld: set<Scheme>) returns (ks: seq<nat>)
    ensures |ks| == |ValuesOutside(ps, withheld)|
    ensures forall i, j | 0 <= i < j < |ks| :: ks[i] < ks[j]
    ensures forall i | 0 <= i < |ks| :: ks[i] < |ps|
    ensures forall k: nat | k < |ps| :: k in ks <==> Gives(ps, withheld, k)
    ensures forall i | 0 <= i < |ks| ::
      var v := ValuesOutside(ps, withheld)[i];
      ps[ks[i]].id == SchemeId(v.0) && ps[ks[i]].value == v.1
  {
    hide SchemeOf, SchemeId;
    ks := [];
    if |ps| > 0 {
      var n := |ps| - 1;
      ks := ValuesExact(ps[..n], withheld);
      assert forall k | 0 <= k < n :: ps[..n][k] == ps[k];
      forall scheme
        ensures SchemeOf(ps[n].id) == Some(scheme) <==> ps[n].id == SchemeId(scheme)
      {
        SchemeIds(ps[n].id, scheme);
      }
      assert forall k: nat | k < n :: Gives(ps, withheld, k) <==> Gives(ps[..n], withheld, k);
      if SchemeOf(ps[n].id).Some? && SchemeOf(ps[n].id).value !in withheld {
        ks := ks + [n];
      }
    }
  }

  /**
   The report of a block, by the identifiers of its pairs: the known schemes that occur, those that occur
   again, and in order the values of those that do not.
   */
  lemma {:induction false} SummaryExact(ps: seq<Pair>, start: usize) returns (ks: seq<nat>)
    ensures var found := Summary(ps, start);
      && found.present && found.start == Some(start)
      && (forall scheme :: scheme in found.schemes <==> exists k :: 0 <= k < |ps| && ps[k].id == SchemeId(scheme))
      && (forall scheme :: scheme in found.duplicates <==>
            exists j, k :: 0 <= j < k < |ps| && ps[j].id == SchemeId(scheme) && ps[k].id == SchemeId(scheme))
      && |found.values| == |ks|
      && (forall i, j | 0 <= i < j < |ks| :: ks[i] < ks[j]) && (forall i | 0 <= i < |ks| :: ks[i] < |ps|)
      && (forall k: nat | k < |ps| :: k in ks <==> Gives(ps, found.duplicates, k))
      && forall i | 0 <= i < |ks| ::
           ps[ks[i]].id == SchemeId(found.values[i].0) && ps[ks[i]].value == found.values[i].1
  {
    hide Occurrences, SchemeId, ValuesOutside, Gives;
    forall scheme
      ensures scheme in Schemes(ps, 1) <==> exists k :: 0 <= k < |ps| && ps[k].id == SchemeId(scheme)
      ensures scheme in Schemes(ps, 2) <==>
        exists j, k :: 0 <= j < k < |ps| && ps[j].id == SchemeId(scheme) && ps[k].id == SchemeId(scheme)
    {
      OccurrencesExact(ps, scheme);
    }
    ks := ValuesExact(ps, Schemes(ps, 2));
  }

  // The reader

  /** What the reader has pushed before it drops the values of repeated schemes. */
  ghost function FirstValues(ps: seq<Pair>): seq<(Scheme, bytes)> {
    if |ps| == 0 then []
    else
      var init, last := ps[..|ps| - 1], ps[|ps| - 1];
      FirstValues(init)
      + (if SchemeOf(last.id).Some? && Occurrences(init, SchemeOf(last.id).value) == 0
         then [(SchemeOf(last.id).value, last.value)] else [])
  }

  function Retain(values: seq<(Scheme, bytes)>, withheld: set<Scheme>): seq<(Scheme, bytes)> {
    if |values| == 0 then []
    else
      var last := values[|values| - 1];
      Retain(values[..|values| - 1], withheld) + (if last.0 !in withheld then [last] else [])
  }

  lemma RetainLast(values: seq<(Scheme, bytes)>, last: (Scheme, bytes), withheld: set<Scheme>)
    ensures Retain(values + [last], withheld) == Retain(values, withheld) + (if last.0 !in withheld then [last] else [])
  {
    assert (values + [last])[..|values|] == values;
  }

  lemma Associative<T>(a: seq<T>, b: seq<T>, c: seq<T>)
    ensures a + (b + c) == a + b + c
  {
  }

  lemma {:induction false} RetainAppend(values: seq<(Scheme, bytes)>, more: seq<(Scheme, bytes)>, withheld: set<Scheme>)
    ensures Retain(values + more, withheld) == Retain(values, withheld) + Retain(more, withheld)
    decreases |more|
  {
    if |more| == 0 {
      assert values + more == values && Retain(more, withheld) == [];
    } else {
      hide Retain;
      var init, last := more[..|more| - 1], more[|more| - 1];
      RetainAppend(values, init, withheld);
      RetainLast(values + init, last, withheld);
      RetainLast(init, last, withheld);
      assert more == init + [last];
      Associative(values, init, [last]);
      Associative(Retain(values, withheld), Retain(init, withheld), if last.0 !in withheld then [last] else []);
    }
  }

  /** Dropping the repeated schemes from the first values leaves every value of the others. */
  lemma {:induction false} RetainFirst(ps: seq<Pair>, withheld: set<Scheme>)
    requires Schemes(ps, 2) <= withheld
    ensures Retain(FirstValues(ps), withheld) == ValuesOutside(ps, withheld)
  {
    if |ps| > 0 {
      var init, last := ps[..|ps| - 1], ps[|ps| - 1];
      assert Schemes(init, 2) <= Schemes(ps, 2) by {
        forall scheme | scheme in Schemes(init, 2) ensures scheme in Schemes(ps, 2) {}
      }
      RetainFirst(init, withheld);
      if SchemeOf(last.id).Some? {
        var scheme, value := SchemeOf(last.id).value, last.value;
        if Occurrences(init, scheme) == 0 {
          RetainAppend(FirstValues(init), [(scheme, value)], withheld);
          assert Retain([(scheme, value)], withheld) == if scheme in withheld then [] else [(scheme, value)];
        } else {
          assert scheme in Schemes(ps, 2) && scheme in withheld;
          assert FirstValues(ps) == FirstValues(init) && ValuesOutside(ps, withheld) == ValuesOutside(init, withheld);
        }
      } else {
        assert FirstValues(ps) == FirstValues(init) && ValuesOutside(ps, withheld) == ValuesOutside(init, withheld);
      }
    }
  }

  /** What the pairs read so far leave to be read. */
  ghost predicate Remaining(data: Slice, first: usize, pos: usize, end: usize, seen: seq<Pair>)
    requires end <= |data|
  {
    PairsFrom(data, first, end) == Prepended(seen, PairsFrom(data, pos, end))
  }

  ghost function Prepended(seen: seq<Pair>, rest: Option<seq<Pair>>): Option<seq<Pair>> {
    if rest.None? then None else Some(seen + rest.value)
  }

  lemma RemainingStart(data: Slice, first: usize, end: usize)
    requires end <= |data|
    ensures Remaining(data, first, first, end, [])
  {
    assert PairsFrom(data, first, end).Some? ==> [] + PairsFrom(data, first, end).value == PairsFrom(data, first, end).value;
  }

  lemma RemainingStep(data: Slice, first: usize, pos: usize, end: usize, seen: seq<Pair>, next: usize, p: Pair)
    requires end <= |data| && pos + 12 <= next <= end
    requires Remaining(data, first, pos, end, seen)
    requires Le64(data, pos) == Some(next - pos - 8) && Le32(data, pos + 8) == Some(p.id)
    requires p.value == data[pos + 12..next]
    ensures Remaining(data, first, next, end, seen + [p])
  {
    hide PairsFrom, Le64, Le32;
    PairsFromStep(data, pos, end, next, p);
    var rest := PairsFrom(data, next, end);
    if rest.Some? {
      assert seen + ([p] + rest.value) == (seen + [p]) + rest.value;
    }
  }

  lemma PairsFromStep(data: Slice, pos: usize, end: usize, next: usize, p: Pair)
    requires end <= |data| && pos + 12 <= next <= end
    requires Le64(data, pos) == Some(next - pos - 8) && Le32(data, pos + 8) == Some(p.id)
    requires p.value == data[pos + 12..next]
    ensures PairsFrom(data, pos, end) == Prepended([p], PairsFrom(data, next, end))
  {
    hide Le64, Le32;
  }

  lemma OccurrencesStep(ps: seq<Pair>, p: Pair, scheme: Scheme)
    ensures Occurrences(ps + [p], scheme)
         == Occurrences(ps, scheme) + (if SchemeOf(p.id) == Some(scheme) then 1 else 0)
  {
    assert (ps + [p])[..|ps|] == ps;
  }

  lemma SchemesStep(ps: seq<Pair>, p: Pair)
    ensures SchemeOf(p.id).None? ==>
      && Schemes(ps + [p], 1) == Schemes(ps, 1)
      && Schemes(ps + [p], 2) == Schemes(ps, 2)
      && FirstValues(ps + [p]) == FirstValues(ps)
    ensures SchemeOf(p.id).Some? ==>
      var scheme := SchemeOf(p.id).value;
      && Schemes(ps + [p], 1) == Schemes(ps, 1) + {scheme}
      && Schemes(ps + [p], 2) == Schemes(ps, 2) + (if scheme in Schemes(ps, 1) then {scheme} else {})
      && FirstValues(ps + [p])
         == FirstValues(ps) + (if scheme in Schemes(ps, 1) then [] else [(scheme, p.value)])
  {
    assert (ps + [p])[..|ps|] == ps;
    forall scheme: Scheme
      ensures Occurrences(ps + [p], scheme)
           == Occurrences(ps, scheme) + (if SchemeOf(p.id) == Some(scheme) then 1 else 0)
    {
      OccurrencesStep(ps, p, scheme);
    }
    hide Occurrences, SchemeOf;
  }

  /** The pairs of a block, scanned once. */
  method ReadPairs(data: Slice, first: usize, footerAt: usize, start: usize) returns (found: SigningBlock)
    requires first <= footerAt <= |data|
    ensures found == match PairsFrom(data, first, footerAt)
                     case None => ABSENT
                     case Some(ps) => Summary(ps, start)
  {
    hide Schemes, FirstValues, Remaining, ValuesOutside, Retain, Pow, Occurrences;
    var schemes: set<Scheme>, duplicates: set<Scheme>, values: seq<(Scheme, bytes)> := {}, {}, [];
    var pos := first;
    ghost var seen: seq<Pair> := [];
    RemainingStart(data, first, footerAt);
    SchemesStart();
    while pos < footerAt
      invariant first <= pos <= footerAt
      invariant Remaining(data, first, pos, footerAt, seen)
      invariant schemes == Schemes(seen, 1) && duplicates == Schemes(seen, 2) && values == FirstValues(seen)
    {
      var length := Le64(data, pos);
      if length.None? {
        RemainingFails(data, first, pos, footerAt, seen);
        return ABSENT;
      }
      var body := CheckedAdd(pos, 8);
      var next := if body.None? then None else CheckedAdd(body.value, length.value);
      if next.None? || length.value < 4 || next.value > footerAt {
        RemainingFails(data, first, pos, footerAt, seen);
        return ABSENT;
      }
      var id := Le32(data, pos + 8);
      if id.None? {
        return ABSENT;
      }
      var value := data[pos + 12..next.value];
      ghost var p := Pair(id.value, value);
      RemainingStep(data, first, pos, footerAt, seen, next.value, p);
      SchemesStep(seen, p);
      var scheme := SchemeOf(id.value);
      if scheme.Some? {
        if scheme.value !in schemes {
          schemes := schemes + {scheme.value};
          values := values + [(scheme.value, value)];
        } else {
          duplicates := duplicates + {scheme.value};
        }
      }
      seen := seen + [p];
      pos := next.value;
    }
    assert pos == footerAt;
    RemainingDone(data, first, footerAt, seen);
    RetainFirst(seen, duplicates);
    return SigningBlock(true, schemes, duplicates, Retain(values, duplicates), Some(start));
  }

  lemma SchemesStart()
    ensures Schemes([], 1) == {} && Schemes([], 2) == {} && FirstValues([]) == []
  {
  }

  lemma RemainingFails(data: Slice, first: usize, pos: usize, end: usize, seen: seq<Pair>)
    requires end <= |data| && Remaining(data, first, pos, end, seen) && PairsFrom(data, pos, end).None?
    ensures PairsFrom(data, first, end).None?
  {
  }

  lemma RemainingDone(data: Slice, first: usize, end: usize, seen: seq<Pair>)
    requires end <= |data| && Remaining(data, first, end, end, seen)
    ensures PairsFrom(data, first, end) == Some(seen)
  {
    assert seen + [] == seen;
  }

  method ReadSigningBlock(data: Slice, centralAt: usize) returns (found: SigningBlock)
    ensures found == SigningBlockSpec(data, centralAt)
  {
    hide PairsFrom, Summary;
    var start := BlockStart(data, centralAt);
    if start.None? {
      return ABSENT;
    }
    found := ReadPairs(data, start.value + 8, centralAt - 24, start.value);
  }

  /**
   The reader inverts the block encoding: it reports a block exactly where one ends at the
   directory, with every known scheme that occurs, those repeated, and the values of the rest in
   order; otherwise it reports nothing at all.
   */
  lemma SigningBlockInverts(data: Slice, centralAt: usize, start: usize, ps: seq<Pair>)
    ensures Ids32(ps) && start + |EncodeBlock(ps)| == centralAt && Holds(data, start, EncodeBlock(ps)) ==>
      SigningBlockSpec(data, centralAt) == Summary(ps, start)
    ensures !SigningBlockSpec(data, centralAt).present ==> SigningBlockSpec(data, centralAt) == ABSENT
    ensures SigningBlockSpec(data, centralAt).present ==>
      exists at: usize, qs: seq<Pair> ::
        && Ids32(qs) && at + |EncodeBlock(qs)| == centralAt && Holds(data, at, EncodeBlock(qs))
        && SigningBlockSpec(data, centralAt) == Summary(qs, at)
  {
    hide EncodeBlock, Holds, BlockPairs;
    BlockExact(data, centralAt, start, ps);
    if BlockPairs(data, centralAt).Some? {
      var (at, qs) := BlockPairs(data, centralAt).value;
      BlockExact(data, centralAt, at, qs);
    }
  }

  /** A value is kept exactly when its scheme is known and occurs once. */
  lemma {:induction false} ValuesKept(ps: seq<Pair>, withheld: set<Scheme>, v: (Scheme, bytes))
    ensures v in ValuesOutside(ps, withheld) <==>
      v.0 !in withheld && exists k | 0 <= k < |ps| :: SchemeOf(ps[k].id) == Some(v.0) && ps[k].value == v.1
  {
    if |ps| > 0 {
      var init := ps[..|ps| - 1];
      ValuesKept(init, withheld, v);
      assert forall k | 0 <= k < |init| :: init[k] == ps[k];
    }
  }
}
