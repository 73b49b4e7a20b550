/** The canonical form of a URL's query string: tracking parameters dropped, keys lower-cased, pairs sorted. */
module Canonical {
  import opened Prelude
  import opened Text
  import opened Sorting

  /** `split('&')`: always at least one part. */
  function Split(s: string): (parts: seq<string>)
    ensures |parts| > 0
  {
    if |s| == 0 then [""]
    else
      var rest := Split(s[1..]);
      if s[0] == '&' then [""] + rest else [[s[0]] + rest[0]] + rest[1..]
  }

  /** The parts with `&` between. */
  function Join(parts: seq<string>): string {
    if |parts| == 0 then ""
    else if |parts| == 1 then parts[0]
    else parts[0] + ("&" + Join(parts[1..]))
  }

  datatype Pair = Pair(key: string, value: string)

  const BARE: Pair := Pair("", "")

  /** Where the first `=` of `part` is, or its length. */
  function FirstEquals(part: string): (at: nat)
    ensures at <= |part|
    ensures at < |part| ==> part[at] == '='
    ensures forall k | 0 <= k < at :: part[k] != '='
  {
    if |part| == 0 || part[0] == '=' then 0 else 1 + FirstEquals(part[1..])
  }

  /** `split_once('=')`, or the whole part and an empty value. */
  function SplitOnce(part: string): Pair {
    var at := FirstEquals(part);
    if at < |part| then Pair(part[..at], part[at + 1..]) else Pair(part, "")
  }

  predicate TrackingName(key: string) {
    || key == "gclid" || key == "gclsrc" || key == "dclid" || key == "gbraid" || key == "wbraid"
    || key == "_ga" || key == "_gl" || key == "fbclid" || key == "igshid" || key == "igsh"
    || key == "mibextid" || key == "msclkid" || key == "twclid" || key == "ref_src" || key == "ref_url"
    || key == "yclid" || key == "mc_cid" || key == "mc_eid" || key == "mkt_tok" || key == "_hsenc"
    || key == "_hsmi" || key == "hsctatracking" || key == "vero_id" || key == "vero_conv"
    || key == "oly_anon_id" || key == "oly_enc_id" || key == "wickedid" || key == "spm" || key == "scm"
    || key == "s_kwcid" || key == "_openstat" || key == "icid"
  }

  /** A tracking parameter's key, in any case. */
  predicate IsTrackingParamKey(key: string) {
    (|key| >= 4 && Lower(key[..4]) == "utm_") || TrackingName(Lower(key))
  }

  /** What one part of a query contributes: nothing, or its pair with the key in lower case. */
  function PartPairs(part: string): seq<Pair> {
    if part == "" then []
    else
      var pair := SplitOnce(part);
      if IsTrackingParamKey(pair.key) then [] else [Pair(Lower(pair.key), pair.value)]
  }

  function PairsOf(parts: seq<string>): seq<Pair> {
    if |parts| == 0 then [] else PartPairs(parts[0]) + PairsOf(parts[1..])
  }

  /** The pairs of a query that are not tracking parameters, in order. */
  function KeptPairs(raw: string): seq<Pair> {
    PairsOf(Split(raw))
  }

  predicate PairLeq(a: Pair, b: Pair) {
    a == b || Less(a.key, b.key) || (a.key == b.key && Less(a.value, b.value))
  }

  function Render(pair: Pair): string {
    if pair.value == "" then pair.key else pair.key + "=" + pair.value
  }

  function RenderAll(pairs: seq<Pair>): seq<string> {
    seq(|pairs|, k requires 0 <= k < |pairs| => Render(pairs[k]))
  }

  function CanonicalQuery(raw: string): string {
    Join(RenderAll(Sort(KeptPairs(raw), PairLeq)))
  }

  lemma {:induction false} PairOrder()
    ensures TotalOrder(PairLeq)
  {
    hide Less;
    forall a, b
      ensures PairLeq(a, b) || PairLeq(b, a)
      ensures PairLeq(a, b) && PairLeq(b, a) ==> a == b
    {
      LessTotal(a.key, b.key);
      LessTotal(a.value, b.value);
    }
    forall a, b, c | PairLeq(a, b) && PairLeq(b, c)
      ensures PairLeq(a, c)
    {
      if Less(a.key, b.key) && Less(b.key, c.key) {
        LessTransitive(a.key, b.key, c.key);
      }
      if Less(a.value, b.value) && Less(b.value, c.value) {
        LessTransitive(a.value, b.value, c.value);
      }
    }
  }

  // Splitting and joining

  ghost predicate Without(s: string, c: char) {
    forall k | 0 <= k < |s| :: s[k] != c
  }

  lemma {:induction false} SplitWhole(s: string)
    requires Without(s, '&')
    ensures Split(s) == [s]
  {
    if |s| > 0 {
      SplitWhole(s[1..]);
      assert [s[0]] + s[1..] == s;
    }
  }

  lemma {:induction false} SplitFirst(c: char, s: string)
    ensures Split([c] + s) == if c == '&' then [""] + Split(s) else [[c] + Split(s)[0]] + Split(s)[1..]
  {
    assert ([c] + s)[1..] == s;
  }

  lemma {:induction false} SplitAtFirst(c: char, rest: string, t: string)
    requires Split(rest + ("&" + t)) == Split(rest) + Split(t)
    ensures Split([c] + (rest + ("&" + t))) == Split([c] + rest) + Split(t)
  {
    hide Split;
    SplitFirst(c, rest);
    SplitFirst(c, rest + ("&" + t));
    var parts, more := Split(rest), Split(t);
    if c == '&' {
      assert [""] + (parts + more) == [""] + parts + more;
    } else {
      assert (parts + more)[0] == parts[0] && (parts + more)[1..] == parts[1..] + more;
      assert [[c] + parts[0]] + (parts[1..] + more) == [[c] + parts[0]] + parts[1..] + more;
    }
  }

  lemma {:induction false} SplitAt(s: string, t: string)
    ensures Split(s + ("&" + t)) == Split(s) + Split(t)
    decreases |s|
  {
    hide Split;
    if |s| == 0 {
      SplitFirst('&', t);
      SplitWhole("");
      assert s + ("&" + t) == ['&'] + t;
    } else {
      SplitAt(s[1..], t);
      SplitAtFirst(s[0], s[1..], t);
      assert s == [s[0]] + s[1..];
      assert s + ("&" + t) == [s[0]] + (s[1..] + ("&" + t));
    }
  }

  lemma {:induction false} SplitClean(s: string)
    ensures forall k | 0 <= k < |Split(s)| :: Without(Split(s)[k], '&')
  {
    if |s| > 0 {
      SplitClean(s[1..]);
    }
  }

  lemma {:induction false} SplitJoin(parts: seq<string>)
    requires |parts| > 0 && forall k | 0 <= k < |parts| :: Without(parts[k], '&')
    ensures Split(Join(parts)) == parts
    decreases |parts|
  {
    SplitWhole(parts[0]);
    if |parts| == 1 {
      assert parts == [parts[0]];
    } else {
      SplitJoin(parts[1..]);
      SplitAt(parts[0], Join(parts[1..]));
      assert parts == [parts[0]] + parts[1..];
    }
  }

  lemma {:induction false} PairsOfAppend(ps: seq<string>, qs: seq<string>)
    ensures PairsOf(ps + qs) == PairsOf(ps) + PairsOf(qs)
    decreases |ps|
  {
    hide PartPairs;
    if |ps| == 0 {
      assert ps + qs == qs;
    } else {
      PairsOfAppend(ps[1..], qs);
      assert (ps + qs)[1..] == ps[1..] + qs;
    }
  }

  /** The pairs of two queries joined by `&` are the pairs of both. */
  lemma {:induction false} KeptPairsJoin(s: string, t: string)
    ensures KeptPairs(s + ("&" + t)) == KeptPairs(s) + KeptPairs(t)
  {
    hide Split, PairsOf;
    SplitAt(s, t);
    PairsOfAppend(Split(s), Split(t));
  }

  // Rendering a pair and reading it back

  /** A kept pair: a lower-case key that is no tracking parameter, free of the separators. */
  ghost predicate Clean(pair: Pair) {
    && Without(pair.key, '&') && Without(pair.key, '=') && Without(pair.value, '&')
    && Lower(pair.key) == pair.key && !IsTrackingParamKey(pair.key)
  }

  lemma {:induction false} LowerIdempotent(s: string)
    ensures Lower(Lower(s)) == Lower(s)
    ensures Without(s, '&') ==> Without(Lower(s), '&')
    ensures Without(s, '=') ==> Without(Lower(s), '=')
    ensures |s| >= 4 ==> Lower(Lower(s)[..4]) == Lower(s[..4])
  {
  }

  lemma {:induction false} PartClean(part: string)
    requires Without(part, '&')
    ensures forall pair | pair in PartPairs(part) :: Clean(pair)
  {
    hide TrackingName;
    LowerIdempotent(SplitOnce(part).key);
  }

  lemma {:induction false} PairsClean(parts: seq<string>)
    requires forall k | 0 <= k < |parts| :: Without(parts[k], '&')
    ensures forall pair | pair in PairsOf(parts) :: Clean(pair)
    decreases |parts|
  {
    hide Clean, PartPairs;
    if |parts| > 0 {
      PartClean(parts[0]);
      PairsClean(parts[1..]);
    }
  }

  lemma {:induction false} KeptClean(raw: string)
    ensures forall pair | pair in KeptPairs(raw) :: Clean(pair)
  {
    hide Clean, PairsOf, Split;
    SplitClean(raw);
    PairsClean(Split(raw));
  }

  /** A clean pair is read back from its rendering, the bare pair excepted. */
  lemma {:induction false} RenderRead(pair: Pair)
    requires Clean(pair)
    ensures SplitOnce(Render(pair)) == pair
    ensures PartPairs(Render(pair)) == if pair == BARE then [] else [pair]
    ensures Without(Render(pair), '&') && (Render(pair) == "" <==> pair == BARE)
  {
    hide IsTrackingParamKey;
    var part := Render(pair);
    var at := FirstEquals(part);
    if pair.value == "" {
      assert at == |part|;
    } else {
      assert part[|pair.key|] == '=';
      assert forall k | 0 <= k < |pair.key| :: part[k] == pair.key[k];
      assert at == |pair.key|;
      assert part[..at] == pair.key && part[at + 1..] == pair.value;
    }
  }

  /** The pairs but the bare ones. */
  function NotBare(pairs: seq<Pair>): seq<Pair> {
    if |pairs| == 0 then [] else (if pairs[0] == BARE then [] else [pairs[0]]) + NotBare(pairs[1..])
  }

  lemma {:induction false} RenderAllRead(pairs: seq<Pair>)
    requires forall pair | pair in pairs :: Clean(pair)
    ensures PairsOf(RenderAll(pairs)) == NotBare(pairs)
    decreases |pairs|
  {
    hide Clean, PartPairs, Render;
    if |pairs| > 0 {
      assert pairs[0] in pairs;
      RenderRead(pairs[0]);
      assert forall pair | pair in pairs[1..] :: pair in pairs;
      RenderAllRead(pairs[1..]);
      assert RenderAll(pairs)[1..] == RenderAll(pairs[1..]);
    }
  }

  lemma {:induction false} SplitRendered(pairs: seq<Pair>)
    requires |pairs| > 0 && forall pair | pair in pairs :: Clean(pair)
    ensures Split(Join(RenderAll(pairs))) == RenderAll(pairs)
  {
    hide Clean, Render, Split, Join;
    forall k | 0 <= k < |pairs|
      ensures Without(RenderAll(pairs)[k], '&')
    {
      assert pairs[k] in pairs;
      RenderRead(pairs[k]);
    }
    SplitJoin(RenderAll(pairs));
  }

  /** Rendered lists of clean pairs are equal only when the lists are, or both show nothing. */
  lemma {:induction false} RenderedInjective(ps: seq<Pair>, qs: seq<Pair>)
    requires forall pair | pair in ps :: Clean(pair)
    requires forall pair | pair in qs :: Clean(pair)
    requires |ps| > 0 && |qs| > 0 && Join(RenderAll(ps)) == Join(RenderAll(qs))
    ensures ps == qs
  {
    hide Clean, Render, Split, Join;
    SplitRendered(ps);
    SplitRendered(qs);
    var rs := RenderAll(ps);
    assert rs == RenderAll(qs);
    forall k | 0 <= k < |ps|
      ensures |qs| == |ps| && ps[k] == qs[k]
    {
      assert ps[k] in ps && qs[k] in qs && rs[k] == Render(ps[k]) == Render(qs[k]);
      RenderRead(ps[k]);
      RenderRead(qs[k]);
    }
  }

  lemma {:induction false} RenderedEmpty(pairs: seq<Pair>)
    requires forall pair | pair in pairs :: Clean(pair)
    ensures Join(RenderAll(pairs)) == "" <==> ShowsNothing(pairs)
  {
    hide Clean, Render;
    if |pairs| > 0 {
      SplitRendered(pairs);
      assert pairs[0] in pairs;
      RenderRead(pairs[0]);
      assert Split("") == [""];
      assert RenderAll(pairs)[0] == Render(pairs[0]);
      if |pairs| == 1 {
        assert pairs == [pairs[0]];
      }
    }
  }

  /** No pair at all, or one that is written with nothing around its `=`. */
  predicate ShowsNothing(pairs: seq<Pair>) {
    |pairs| == 0 || pairs == [BARE]
  }

  // The theorems

  lemma {:induction false} SortedKept(raw: string) returns (pairs: seq<Pair>)
    ensures pairs == Sort(KeptPairs(raw), PairLeq) && multiset(pairs) == multiset(KeptPairs(raw))
    ensures Sorted(pairs, PairLeq) && |pairs| == |KeptPairs(raw)|
    ensures forall pair | pair in pairs :: Clean(pair)
    ensures ShowsNothing(pairs) <==> ShowsNothing(KeptPairs(raw))
  {
    hide Clean, KeptPairs, PairLeq;
    pairs := Sort(KeptPairs(raw), PairLeq);
    PairOrder();
    SortSorts(KeptPairs(raw), PairLeq);
    SameElements(pairs, KeptPairs(raw));
    KeptClean(raw);
    if |pairs| == 1 {
      var kept := KeptPairs(raw);
      assert pairs[0] in kept && kept[0] in pairs;
    }
  }

  /**
   Two queries have one canonical form exactly when they keep the same pairs, however often and in
   whatever order they write them, or when neither keeps a pair that shows.
   */
  lemma {:induction false} CanonicalComplete(q: string, r: string)
    ensures CanonicalQuery(q) == CanonicalQuery(r) <==>
      || multiset(KeptPairs(q)) == multiset(KeptPairs(r))
      || (ShowsNothing(KeptPairs(q)) && ShowsNothing(KeptPairs(r)))
  {
    hide KeptPairs, PairLeq, Clean, Join, RenderAll, Sort;
    var ps := SortedKept(q);
    var qs := SortedKept(r);
    RenderedEmpty(ps);
    RenderedEmpty(qs);
    if CanonicalQuery(q) == CanonicalQuery(r) && |ps| > 0 && |qs| > 0 {
      RenderedInjective(ps, qs);
    }
    if multiset(KeptPairs(q)) == multiset(KeptPairs(r)) {
      PairOrder();
      SortForgetsOrder(KeptPairs(q), KeptPairs(r), PairLeq);
    }
  }

  /** The canonical form keeps the query's pairs, sorted, but for the bare ones. */
  lemma {:induction false} CanonicalKeeps(q: string)
    ensures KeptPairs(CanonicalQuery(q)) == NotBare(Sort(KeptPairs(q), PairLeq))
    ensures Sorted(KeptPairs(CanonicalQuery(q)), PairLeq)
  {
    hide PairLeq, Clean, RenderAll, Sort, PairsOf, Split, Join, KeptPairs;
    var pairs := SortedKept(q);
    NotBareSorted(pairs);
    if |pairs| == 0 {
      NoPairs();
    } else {
      SplitRendered(pairs);
      RenderAllRead(pairs);
      KeptPairsSplit(Join(RenderAll(pairs)));
    }
  }

  lemma {:induction false} KeptPairsSplit(raw: string)
    ensures KeptPairs(raw) == PairsOf(Split(raw))
  {
  }

  lemma {:induction false} NoPairs()
    ensures KeptPairs(Join(RenderAll([]))) == [] == NotBare([])
  {
    assert Split("") == [""];
  }

  lemma {:induction false} NotBareSorted(pairs: seq<Pair>)
    requires Sorted(pairs, PairLeq)
    ensures Sorted(NotBare(pairs), PairLeq)
    ensures forall pair :: pair in NotBare(pairs) <==> pair in pairs && pair != BARE
    ensures BARE !in pairs ==> NotBare(pairs) == pairs
    decreases |pairs|
  {
    hide PairLeq;
    if |pairs| > 0 {
      NotBareSorted(pairs[1..]);
      assert pairs == [pairs[0]] + pairs[1..];
      assert forall k | 0 <= k < |NotBare(pairs[1..])| :: NotBare(pairs[1..])[k] in NotBare(pairs[1..]);
    }
  }

  /**
   Canonicalising again changes nothing exactly when no part is a bare `=` or nothing else is kept:
   a bare `=` shows as an empty part, which the next pass drops.
   */
  lemma {:induction false} CanonicalIdempotent(q: string)
    ensures CanonicalQuery(CanonicalQuery(q)) == CanonicalQuery(q) <==>
      "=" !in Split(q) || |KeptPairs(q)| == 1
  {
    hide PairLeq, Clean, KeptPairs, Sort, Split, CanonicalQuery;
    var pairs := SortedKept(q);
    CanonicalKeeps(q);
    CanonicalComplete(CanonicalQuery(q), q);
    BarePart(q);
    NotBareSorted(pairs);
    SameElements(pairs, KeptPairs(q));
    if BARE in pairs {
      NotBareShorter(pairs);
    }
  }

  /** A query that changes when it is canonicalised again. */
  lemma {:induction false} CanonicalTwice()
    ensures CanonicalQuery(CanonicalQuery("=&a")) != CanonicalQuery("=&a")
  {
    hide Split, CanonicalQuery, KeptPairs, Lower, IsTrackingParamKey;
    SplitWhole("=");
    SplitWhole("a");
    SplitAt("=", "a");
    assert "=" + ("&" + "a") == "=&a";
    KeptPairsJoin("=", "a");
    BarePart("=");
    KeptOne();
    CanonicalIdempotent("=&a");
  }

  lemma {:induction false} KeptOne()
    ensures KeptPairs("=") != [] && |KeptPairs("a")| == 1
  {
    hide Split, PartPairs;
    SplitWhole("=");
    SplitWhole("a");
    BareOne("=");
    assert PairsOf(["="]) == PartPairs("=") + PairsOf([]);
    KeyAlone();
    assert PairsOf(["a"]) == PartPairs("a") + PairsOf([]);
  }

  lemma KeyAlone()
    ensures |PartPairs("a")| == 1
  {
    NotTracking();
    hide IsTrackingParamKey;
    assert SplitOnce("a") == Pair("a", "");
  }

  lemma NotTracking()
    ensures !IsTrackingParamKey("a")
  {
    assert Lower("a") == "a";
  }

  lemma {:induction false} NotBareShorter(pairs: seq<Pair>)
    requires BARE in pairs
    ensures BARE !in NotBare(pairs) && multiset(NotBare(pairs)) != multiset(pairs)
    ensures |pairs| == 1 ==> pairs == [BARE] && NotBare(pairs) == []
  {
    NotBareMembers(pairs);
    if multiset(NotBare(pairs)) == multiset(pairs) {
      SameElements(NotBare(pairs), pairs);
    }
    if |pairs| == 1 {
      assert pairs == [BARE];
      assert pairs[1..] == [];
    }
  }

  lemma {:induction false} NotBareMembers(pairs: seq<Pair>)
    ensures BARE !in NotBare(pairs)
    decreases |pairs|
  {
    if |pairs| > 0 {
      NotBareMembers(pairs[1..]);
    }
  }

  /** The bare pair is kept exactly when a part of the query is `=`. */
  lemma {:induction false} BarePart(q: string)
    ensures BARE in KeptPairs(q) <==> "=" in Split(q)
  {
    hide Split;
    BareParts(Split(q));
  }

  lemma {:induction false} BareParts(parts: seq<string>)
    ensures BARE in PairsOf(parts) <==> "=" in parts
    decreases |parts|
  {
    hide PartPairs;
    if |parts| > 0 {
      BareParts(parts[1..]);
      BareOne(parts[0]);
      assert parts == [parts[0]] + parts[1..];
    }
  }

  lemma {:induction false} BareOne(part: string)
    ensures BARE in PartPairs(part) <==> part == "="
  {
    var pair := SplitOnce(part);
    if part == "=" {
      assert pair == BARE;
      EmptyKeyKept();
    }
  }

  lemma {:induction false} EmptyKeyKept()
    ensures !IsTrackingParamKey("") && Lower("") == ""
  {
  }

  /** A part that keeps nothing may stand or be left out, and the order of parts does not matter. */
  lemma {:induction false} CanonicalIgnores(s: string, dropped: string, t: string)
    ensures KeptPairs(dropped) == [] ==>
      CanonicalQuery(s + ("&" + (dropped + ("&" + t)))) == CanonicalQuery(s + ("&" + t))
    ensures CanonicalQuery(s + ("&" + t)) == CanonicalQuery(t + ("&" + s))
  {
    hide KeptPairs, CanonicalQuery;
    KeptPairsJoin(s, t);
    KeptPairsJoin(t, s);
    KeptPairsJoin(dropped, t);
    KeptPairsJoin(s, dropped + ("&" + t));
    CanonicalComplete(s + ("&" + (dropped + ("&" + t))), s + ("&" + t));
    CanonicalComplete(s + ("&" + t), t + ("&" + s));
  }

  // What the canonical form is

  /** A key that tracks, in any case. */
  ghost predicate TrackingKey(key: string) {
    var name := Lower(key);
    || "utm_" <= name || name == "gclid" || name == "gclsrc" || name == "dclid" || name == "gbraid"
    || name == "wbraid" || name == "_ga" || name == "_gl" || name == "fbclid" || name == "igshid"
    || name == "igsh" || name == "mibextid" || name == "msclkid" || name == "twclid" || name == "ref_src"
    || name == "ref_url" || name == "yclid" || name == "mc_cid" || name == "mc_eid" || name == "mkt_tok"
    || name == "_hsenc" || name == "_hsmi" || name == "hsctatracking" || name == "vero_id"
    || name == "vero_conv" || name == "oly_anon_id" || name == "oly_enc_id" || name == "wickedid"
    || name == "spm" || name == "scm" || name == "s_kwcid" || name == "_openstat" || name == "icid"
  }

  lemma {:induction false} TrackingExact(key: string)
    ensures IsTrackingParamKey(key) <==> TrackingKey(key)
  {
    hide Lower;
    if |key| >= 4 {
      assert Lower(key[..4]) == Lower(key)[..4];
    }
  }

  /** A part is a key, or a key, `=` and a value. */
  ghost predicate Reads(part: string, key: string, value: string) {
    '=' !in key && ((part == key && value == "") || part == key + "=" + value)
  }

  lemma {:induction false} SplitOnceExact(part: string, key: string, value: string)
    ensures SplitOnce(part) == Pair(key, value) <==> Reads(part, key, value)
  {
    var at := FirstEquals(part);
    if Reads(part, key, value) {
      if part == key {
        assert at == |part|;
      } else {
        assert part[|key|] == '=' && forall k | 0 <= k < |key| :: part[k] == key[k];
        assert at == |key| && part[..at] == key && part[at + 1..] == value;
      }
    } else if at < |part| {
      assert part == part[..at] + "=" + part[at + 1..];
    }
  }

  /** A part gives its pair, the key in lower case, unless it is empty or tracks. */
  lemma {:induction false} PartExact(part: string, pair: Pair)
    ensures |PartPairs(part)| <= 1
    ensures pair in PartPairs(part) <==>
      part != "" && exists key :: Reads(part, key, pair.value) && Lower(key) == pair.key && !TrackingKey(key)
  {
    hide IsTrackingParamKey, TrackingKey, Reads, SplitOnce;
    var read := SplitOnce(part);
    TrackingExact(read.key);
    forall key
      ensures Reads(part, key, pair.value) <==> read == Pair(key, pair.value)
    {
      SplitOnceExact(part, key, pair.value);
    }
  }

  /** The pairs of a single part are the part's. */
  lemma {:induction false} KeptOfPart(part: string)
    requires '&' !in part
    ensures KeptPairs(part) == PartPairs(part)
  {
    hide PartPairs, Split;
    SplitWhole(part);
    assert PairsOf([part]) == PartPairs(part) + PairsOf([]);
  }

  lemma {:induction false} JoinSplit(s: string)
    ensures Join(Split(s)) == s
  {
    if s != "" {
      var rest := Split(s[1..]);
      JoinSplit(s[1..]);
      JoinFirst(s[0], rest);
      assert s == [s[0]] + s[1..];
    }
  }

  lemma JoinCons(part: string, rest: seq<string>)
    ensures Join([part] + rest) == if rest == [] then part else part + ("&" + Join(rest))
  {
    assert ([part] + rest)[1..] == rest;
  }

  lemma {:induction false} JoinFirst(c: char, rest: seq<string>)
    requires |rest| > 0
    ensures Join([""] + rest) == "&" + Join(rest)
    ensures Join([[c] + rest[0]] + rest[1..]) == [c] + Join(rest)
  {
    hide Join;
    var first, more := rest[0], rest[1..];
    JoinCons("", rest);
    JoinCons(first, more);
    JoinCons([c] + first, more);
    assert rest == [first] + more;
    assert [c] + first + ("&" + Join(more)) == [c] + (first + ("&" + Join(more)));
  }

  /** The parts of a query are what its `&` separate. */
  lemma {:induction false} SplitExact(s: string, parts: seq<string>)
    ensures Split(s) == parts <==>
      |parts| > 0 && Join(parts) == s && forall k | 0 <= k < |parts| :: '&' !in parts[k]
  {
    hide Split, Join;
    if Split(s) == parts {
      JoinSplit(s);
      SplitClean(s);
    }
    if |parts| > 0 && Join(parts) == s && forall k | 0 <= k < |parts| :: '&' !in parts[k] {
      SplitJoin(parts);
    }
  }

  /** By key, then by value. */
  ghost predicate InOrder(pairs: seq<Pair>) {
    forall i, j | 0 <= i < j < |pairs| ::
      || Precedes(pairs[i].key, pairs[j].key)
      || (pairs[i].key == pairs[j].key
          && (pairs[i].value == pairs[j].value || Precedes(pairs[i].value, pairs[j].value)))
  }

  /** The pairs with `&` between, `=` only before a value. */
  ghost function Written(pairs: seq<Pair>): string {
    if |pairs| == 0 then ""
    else
      var first := pairs[0].key + (if pairs[0].value == "" then "" else "=" + pairs[0].value);
      if |pairs| == 1 then first else first + ("&" + Written(pairs[1..]))
  }

  lemma {:induction false} InOrderExact(pairs: seq<Pair>)
    ensures Sorted(pairs, PairLeq) <==> InOrder(pairs)
  {
    hide Less, Precedes;
    forall i, j | 0 <= i < j < |pairs|
      ensures Less(pairs[i].key, pairs[j].key) <==> Precedes(pairs[i].key, pairs[j].key)
      ensures Less(pairs[i].value, pairs[j].value) <==> Precedes(pairs[i].value, pairs[j].value)
    {
      LessExact(pairs[i].key, pairs[j].key);
      LessExact(pairs[i].value, pairs[j].value);
    }
  }

  lemma {:induction false} WrittenExact(pairs: seq<Pair>)
    ensures Join(RenderAll(pairs)) == Written(pairs)
    decreases |pairs|
  {
    hide Render;
    if |pairs| > 0 {
      RenderShort(pairs[0]);
      WrittenExact(pairs[1..]);
      assert RenderAll(pairs)[1..] == RenderAll(pairs[1..]);
    }
  }

  lemma RenderShort(pair: Pair)
    ensures Render(pair) == pair.key + (if pair.value == "" then "" else "=" + pair.value)
  {
    assert pair.key + "" == pair.key;
  }

  /** The canonical form is the kept pairs in order, written out: that text and no other. */
  lemma {:induction false} CanonicalExact(q: string, text: string)
    ensures text == CanonicalQuery(q) <==>
      exists pairs :: multiset(pairs) == multiset(KeptPairs(q)) && InOrder(pairs) && text == Written(pairs)
  {
    hide KeptPairs, PairLeq, Sort, InOrder, Written, Join, RenderAll, Sorted;
    var sorted := SortedKept(q);
    InOrderExact(sorted);
    WrittenExact(sorted);
    PairOrder();
    forall pairs | multiset(pairs) == multiset(KeptPairs(q)) && InOrder(pairs)
      ensures pairs == sorted
    {
      InOrderExact(pairs);
      SortedUnique(pairs, sorted, PairLeq);
    }
  }
}
