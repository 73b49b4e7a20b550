/** The captures of an archived site chosen to be read: the newest of each URL, the best three of those. */
module ArchivedPage {
  import opened Prelude
  import opened Text
  import opened Sorting

  const MAX_PAGES: nat := 3

  const CONTACT_WORDS: seq<string> :=
    ["contact", "about", "team", "staff", "people", "impressum", "imprint", "support"]

  datatype Capture = Capture(timestamp: string, url: string)

  /** The lower-case path of a URL, without the slash that starts it. */
  function Path(url: string): string {
    if FindFrom(url, "://", 0) == -1 then ""
    else
      var rest := After(url, "://");
      if FindFrom(rest, "/", 0) == -1 then "" else Lower(After(rest, "/"))
  }

  /** Contact-like pages first, then the site root, then the rest. */
  function Rank(url: string): nat {
    if exists k | 0 <= k < |CONTACT_WORDS| :: Contains(Path(url), CONTACT_WORDS[k]) then 0
    else if Path(url) == "" then 1
    else 2
  }

  datatype Ranked = Ranked(rank: nat, capture: Capture)

  function WithRank(c: Capture): Ranked {
    Ranked(Rank(c.url), c)
  }

  /** Rank, then the newest timestamp, then the URL. */
  predicate RankedBefore(a: Ranked, b: Ranked) {
    || a.rank < b.rank
    || (a.rank == b.rank && Less(b.capture.timestamp, a.capture.timestamp))
    || (a.rank == b.rank && a.capture.timestamp == b.capture.timestamp && Less(a.capture.url, b.capture.url))
  }

  predicate RankedLeq(a: Ranked, b: Ranked) {
    a == b || RankedBefore(a, b)
  }

  predicate Before(a: Capture, b: Capture) {
    RankedBefore(WithRank(a), WithRank(b))
  }

  lemma {:induction false} BeforeTransitive(a: Ranked, b: Ranked, c: Ranked)
    requires RankedBefore(a, b) && RankedBefore(b, c)
    ensures RankedBefore(a, c)
  {
    if Less(b.capture.timestamp, a.capture.timestamp) && Less(c.capture.timestamp, b.capture.timestamp) {
      LessTransitive(c.capture.timestamp, b.capture.timestamp, a.capture.timestamp);
    }
    if Less(a.capture.url, b.capture.url) && Less(b.capture.url, c.capture.url) {
      LessTransitive(a.capture.url, b.capture.url, c.capture.url);
    }
  }

  lemma {:induction false} BeforeTotal(a: Ranked, b: Ranked)
    ensures a == b || RankedBefore(a, b) || RankedBefore(b, a)
    ensures !(RankedBefore(a, b) && RankedBefore(b, a)) && !RankedBefore(a, a)
  {
    LessTotal(a.capture.timestamp, b.capture.timestamp);
    LessTotal(a.capture.url, b.capture.url);
    LessTotal(a.capture.timestamp, a.capture.timestamp);
    LessTotal(a.capture.url, a.capture.url);
  }

  lemma {:induction false} RankedOrder()
    ensures TotalOrder(RankedLeq)
  {
    hide RankedBefore;
    forall a, b
      ensures RankedLeq(a, b) || RankedLeq(b, a)
      ensures RankedLeq(a, b) && RankedLeq(b, a) ==> a == b
    {
      BeforeTotal(a, b);
    }
    forall a, b, c | RankedLeq(a, b) && RankedLeq(b, c)
      ensures RankedLeq(a, c)
    {
      if RankedBefore(a, b) && RankedBefore(b, c) {
        BeforeTransitive(a, b, c);
      }
    }
  }

  // The newest capture of each URL

  /** Where a capture of `url` is in `ranked`, or its length. */
  function IndexOf(ranked: seq<Ranked>, url: string): (k: nat)
    ensures k <= |ranked|
    ensures k < |ranked| ==> ranked[k].capture.url == url
    ensures forall j | 0 <= j < k :: ranked[j].capture.url != url
  {
    if |ranked| == 0 || ranked[0].capture.url == url then 0 else 1 + IndexOf(ranked[1..], url)
  }

  /** What is kept once `c` is seen too: a newer capture takes the place of the kept one of its URL. */
  function Keep(kept: seq<Ranked>, c: Capture): seq<Ranked> {
    var k := IndexOf(kept, c.url);
    if k == |kept| then kept + [WithRank(c)]
    else if Less(kept[k].capture.timestamp, c.timestamp) then kept[k := Ranked(kept[k].rank, c)]
    else kept
  }

  /** The captures kept, in order of the first of each URL. */
  function Newest(captures: seq<Capture>): seq<Ranked> {
    if |captures| == 0 then [] else Keep(Newest(captures[..|captures| - 1]), captures[|captures| - 1])
  }

  function Captures(ranked: seq<Ranked>): seq<Capture> {
    seq(|ranked|, k requires 0 <= k < |ranked| => ranked[k].capture)
  }

  function InOrder(captures: seq<Capture>): seq<Ranked> {
    Sort(Newest(captures), RankedLeq)
  }

  function Chosen(captures: seq<Capture>): seq<Capture> {
    var sorted := InOrder(captures);
    Captures(sorted[..Min(|sorted|, MAX_PAGES)])
  }

  method Choose(captures: seq<Capture>) returns (r: seq<Capture>)
    ensures r == Chosen(captures)
  {
    hide Rank, Less, RankedLeq;
    var ranked: seq<Ranked> := [];
    for k := 0 to |captures|
      invariant ranked == Newest(captures[..k])
    {
      var capture := captures[k];
      assert captures[..k + 1][..k] == captures[..k];
      var seen := IndexOf(ranked, capture.url);
      if seen < |ranked| {
        if Less(ranked[seen].capture.timestamp, capture.timestamp) {
          ranked := ranked[seen := Ranked(ranked[seen].rank, capture)];
        }
      } else {
        ranked := ranked + [Ranked(Rank(capture.url), capture)];
      }
    }
    assert captures[..|captures|] == captures;
    ranked := Sort(ranked, RankedLeq);
    return Captures(ranked[..Min(|ranked|, MAX_PAGES)]);
  }

  // The specification

  /** No capture of the same URL is newer. */
  ghost predicate Latest(c: Capture, captures: seq<Capture>) {
    c in captures && forall d | d in captures && d.url == c.url :: !Less(c.timestamp, d.timestamp)
  }

  ghost predicate Distinct<T>(xs: seq<T>) {
    forall i, j | 0 <= i < j < |xs| :: xs[i] != xs[j]
  }

  /** `r` is the first `n` of the latest captures, best first. */
  ghost predicate Top(r: seq<Capture>, n: nat, captures: seq<Capture>) {
    && |r| <= n
    && (forall i, j | 0 <= i < j < |r| :: Before(r[i], r[j]))
    && (forall c | c in r :: Latest(c, captures))
    && (forall c | Latest(c, captures) && c !in r :: |r| == n && forall d | d in r :: Before(d, c))
  }

  /** One ranked capture for every URL seen, the latest of that URL. */
  ghost predicate Keeps(kept: seq<Ranked>, captures: seq<Capture>) {
    && (forall k | 0 <= k < |kept| :: kept[k] == WithRank(kept[k].capture) && Latest(kept[k].capture, captures))
    && (forall i, j | 0 <= i < j < |kept| :: kept[i].capture.url != kept[j].capture.url)
    && (forall d | d in captures :: IndexOf(kept, d.url) < |kept|)
  }

  lemma {:induction false} LatestStep(x: Capture, init: seq<Capture>, c: Capture)
    requires Latest(x, init) && (c.url == x.url ==> !Less(x.timestamp, c.timestamp))
    ensures Latest(x, init + [c])
  {
  }

  lemma {:induction false} IndexOfMoves(kept: seq<Ranked>, more: seq<Ranked>, url: string)
    requires forall k | 0 <= k < |kept| :: k < |more| && kept[k].capture.url == more[k].capture.url
    ensures IndexOf(kept, url) < |kept| ==> IndexOf(more, url) < |more|
  {
    var k := IndexOf(kept, url);
    assert k < |kept| ==> more[k].capture.url == url;
  }

  lemma {:induction false} KeepsStep(kept: seq<Ranked>, init: seq<Capture>, c: Capture)
    requires Keeps(kept, init)
    ensures Keeps(Keep(kept, c), init + [c])
  {
    hide Less, IndexOf, Rank;
    var captures, more, k := init + [c], Keep(kept, c), IndexOf(kept, c.url);
    forall d | d in captures
      ensures IndexOf(more, d.url) < |more|
    {
      IndexOfMoves(kept, more, d.url);
      if d == c {
        assert k == |kept| ==> more[k].capture.url == c.url;
        IndexOfFound(more, k, c.url);
      }
    }
    KeptIsLatest(kept, init, c);
    forall j | 0 <= j < |more|
      ensures more[j] == WithRank(more[j].capture) && Latest(more[j].capture, captures)
    {
      if j < |kept| && (j != k || !Less(kept[k].capture.timestamp, c.timestamp)) {
        LatestStep(kept[j].capture, init, c);
      } else {
        SameUrlSameRank(c, kept, k);
      }
    }
  }

  lemma {:induction false} IndexOfFound(kept: seq<Ranked>, k: nat, url: string)
    requires k < |kept| && kept[k].capture.url == url
    ensures IndexOf(kept, url) < |kept|
  {
  }

  lemma {:induction false} SameUrlSameRank(c: Capture, kept: seq<Ranked>, k: nat)
    requires forall j | 0 <= j < |kept| :: kept[j] == WithRank(kept[j].capture)
    ensures k < |kept| && kept[k].capture.url == c.url ==> Ranked(kept[k].rank, c) == WithRank(c)
  {
    hide Rank;
  }

  /** The capture just seen is the latest of its URL when it takes a place. */
  lemma {:induction false} KeptIsLatest(kept: seq<Ranked>, init: seq<Capture>, c: Capture)
    requires Keeps(kept, init)
    ensures var k := IndexOf(kept, c.url);
      && (k == |kept| ==> Latest(c, init + [c]))
      && (k < |kept| && Less(kept[k].capture.timestamp, c.timestamp) ==> Latest(c, init + [c]))
      && forall j | 0 <= j < |kept| && kept[j].capture.url == c.url :: j == k
  {
    hide Less, WithRank;
    var k, captures := IndexOf(kept, c.url), init + [c];
    LessTotal(c.timestamp, c.timestamp);
    if k < |kept| && Less(kept[k].capture.timestamp, c.timestamp) {
      forall d | d in captures && d.url == c.url
        ensures !Less(c.timestamp, d.timestamp)
      {
        if Less(c.timestamp, d.timestamp) && d in init {
          LessTransitive(kept[k].capture.timestamp, c.timestamp, d.timestamp);
        }
      }
    }
  }

  lemma {:induction false} NewestKeeps(captures: seq<Capture>)
    ensures Keeps(Newest(captures), captures)
  {
    hide Keeps, Keep;
    if |captures| == 0 {
      NothingKept();
    } else {
      var init, c := captures[..|captures| - 1], captures[|captures| - 1];
      NewestKeeps(init);
      KeepsStep(Newest(init), init, c);
      assert captures == init + [c];
    }
  }

  lemma {:induction false} NothingKept()
    ensures Keeps([], [])
  {
  }

  /** What is kept are the latest captures, all of them. */
  lemma {:induction false} KeptExactly(captures: seq<Capture>, c: Capture)
    ensures WithRank(c) in Newest(captures) <==> Latest(c, captures)
  {
    hide Less, Rank, Newest, IndexOf;
    NewestKeeps(captures);
    var kept := Newest(captures);
    if Latest(c, captures) {
      var k := IndexOf(kept, c.url);
      IndexOfHit(kept, c.url);
      LessTotal(c.timestamp, kept[k].capture.timestamp);
      assert kept[k].capture == c;
    }
  }

  lemma {:induction false} IndexOfHit(kept: seq<Ranked>, url: string)
    ensures IndexOf(kept, url) < |kept| ==> kept[IndexOf(kept, url)].capture.url == url
  {
  }

  lemma {:induction false} LatestUnique(c: Capture, d: Capture, captures: seq<Capture>)
    requires Latest(c, captures) && Latest(d, captures) && c.url == d.url
    ensures c == d
  {
    hide Less;
    LessTotal(c.timestamp, d.timestamp);
  }

  /** Some latest capture has the URL of every capture, and is that capture or comes before it. */
  lemma {:induction false} LatestExists(d: Capture, captures: seq<Capture>) returns (c: Capture)
    requires d in captures
    ensures Latest(c, captures) && c.url == d.url && (c == d || Before(c, d))
  {
    hide Less, Rank, Newest, IndexOf;
    NewestKeeps(captures);
    var kept := Newest(captures);
    IndexOfHit(kept, d.url);
    c := kept[IndexOf(kept, d.url)].capture;
    LessTotal(c.timestamp, d.timestamp);
  }

  /** The sorted list holds the latest captures, each with its rank. */
  lemma {:induction false} OrderedMembers(captures: seq<Capture>)
    ensures forall k | 0 <= k < |InOrder(captures)| :: InOrder(captures)[k] == WithRank(InOrder(captures)[k].capture)
    ensures forall c :: WithRank(c) in InOrder(captures) <==> Latest(c, captures)
  {
    hide Less, Rank, Newest, RankedBefore, Latest, IndexOf, Sort;
    var kept, sorted := Newest(captures), InOrder(captures);
    NewestKeeps(captures);
    SameElements(sorted, kept);
    forall k | 0 <= k < |sorted|
      ensures sorted[k] == WithRank(sorted[k].capture)
    {
      assert sorted[k] in kept;
    }
    forall c
      ensures WithRank(c) in sorted <==> Latest(c, captures)
    {
      KeptExactly(captures, c);
    }
  }

  lemma {:induction false} OrderedAscends(captures: seq<Capture>)
    ensures forall i, j | 0 <= i < j < |InOrder(captures)| :: RankedBefore(InOrder(captures)[i], InOrder(captures)[j])
  {
    hide Less, Rank, Newest, RankedBefore, Latest, IndexOf, Sort;
    var kept, sorted := Newest(captures), InOrder(captures);
    NewestKeeps(captures);
    RankedOrder();
    SortSorts(kept, RankedLeq);
    SortedDistinct(kept, sorted);
    forall i, j | 0 <= i < j < |sorted|
      ensures RankedBefore(sorted[i], sorted[j])
    {
      assert RankedLeq(sorted[i], sorted[j]) && sorted[i] != sorted[j];
    }
  }

  lemma {:induction false} CapturesAscend(sorted: seq<Ranked>)
    requires forall k | 0 <= k < |sorted| :: sorted[k] == WithRank(sorted[k].capture)
    requires forall i, j | 0 <= i < j < |sorted| :: RankedBefore(sorted[i], sorted[j])
    ensures forall i, j | 0 <= i < j < |sorted| :: Before(Captures(sorted)[i], Captures(sorted)[j])
  {
    hide RankedBefore, Rank;
  }

  /** What the cut leaves out comes after everything it keeps. */
  lemma {:induction false} CutLeavesLater(sorted: seq<Ranked>, n: nat, c: Capture)
    requires forall k | 0 <= k < |sorted| :: sorted[k] == WithRank(sorted[k].capture)
    requires forall i, j | 0 <= i < j < |sorted| :: RankedBefore(sorted[i], sorted[j])
    requires WithRank(c) in sorted && c !in Captures(sorted[..Min(|sorted|, n)])
    ensures |Captures(sorted[..Min(|sorted|, n)])| == n
    ensures forall d | d in Captures(sorted[..Min(|sorted|, n)]) :: Before(d, c)
  {
    hide RankedBefore, Rank;
    var k :| 0 <= k < |sorted| && sorted[k] == WithRank(c);
    var m := Min(|sorted|, n);
    var r := Captures(sorted[..m]);
    assert forall i | 0 <= i < m :: r[i] == sorted[i].capture && r[i] in r;
    forall d | d in r
      ensures Before(d, c)
    {
      var i :| 0 <= i < |r| && r[i] == d;
      assert RankedBefore(sorted[i], sorted[k]);
    }
  }

  /** The choice is the first three of the latest captures, best first. */
  lemma {:induction false} ChosenIsTop(captures: seq<Capture>)
    ensures Top(Chosen(captures), MAX_PAGES, captures)
  {
    hide Before, RankedBefore, Latest, InOrder, WithRank;
    var sorted, r := InOrder(captures), Chosen(captures);
    var cut := sorted[..Min(|sorted|, MAX_PAGES)];
    OrderedMembers(captures);
    OrderedAscends(captures);
    CapturesAscend(cut);
    forall c | c in r
      ensures Latest(c, captures)
    {
      var k :| 0 <= k < |cut| && r[k] == c;
      assert sorted[k] in sorted;
    }
    forall c | Latest(c, captures) && c !in r
      ensures |r| == MAX_PAGES && forall d | d in r :: Before(d, c)
    {
      CutLeavesLater(sorted, MAX_PAGES, c);
    }
  }

  lemma {:induction false} SortedDistinct(kept: seq<Ranked>, sorted: seq<Ranked>)
    requires forall i, j | 0 <= i < j < |kept| :: kept[i].capture.url != kept[j].capture.url
    requires multiset(kept) == multiset(sorted)
    ensures Distinct(sorted)
  {
    forall i, j | 0 <= i < j < |sorted|
      ensures sorted[i] != sorted[j]
    {
      DistinctOnce(kept, sorted[i]);
      OnceDistinct(sorted, i, j);
    }
  }

  lemma {:induction false} DistinctOnce<T>(xs: seq<T>, x: T)
    requires Distinct(xs)
    ensures multiset(xs)[x] <= 1
    decreases |xs|
  {
    if |xs| > 0 {
      DistinctOnce(xs[1..], x);
      assert xs == [xs[0]] + xs[1..];
      if x == xs[0] {
        assert x !in xs[1..];
      }
    }
  }

  lemma {:induction false} OnceDistinct<T>(xs: seq<T>, i: nat, j: nat)
    requires i < j < |xs| && multiset(xs)[xs[i]] <= 1
    ensures xs[i] != xs[j]
  {
    assert xs == xs[..j] + [xs[j]] + xs[j + 1..];
    assert xs[i] in xs[..j];
    assert multiset(xs) == multiset(xs[..j]) + multiset{xs[j]} + multiset(xs[j + 1..]);
  }

  /** Distinct elements of a list are no more than the list has. */
  lemma {:induction false} Pigeonhole<T>(xs: seq<T>, ys: seq<T>)
    requires Distinct(xs) && forall x | x in xs :: x in ys
    ensures |xs| <= |ys|
    decreases |xs|
  {
    if |xs| > 0 {
      assert xs[0] in xs;
      var k :| 0 <= k < |ys| && ys[k] == xs[0];
      var rest := ys[..k] + ys[k + 1..];
      forall x | x in xs[1..]
        ensures x in rest
      {
        var i :| 0 <= i < |xs[1..]| && xs[1..][i] == x;
        assert xs[i + 1] != xs[0] && xs[i + 1] in xs;
        var j :| 0 <= j < |ys| && ys[j] == x;
        assert x == rest[if j < k then j else j - 1];
      }
      Pigeonhole(xs[1..], rest);
    }
  }

  lemma {:induction false} BeforeFacts(a: Capture, b: Capture)
    ensures a == b || Before(a, b) || Before(b, a)
    ensures !(Before(a, b) && Before(b, a)) && !Before(a, a)
  {
    BeforeTotal(WithRank(a), WithRank(b));
  }

  lemma {:induction false} TopDistinct(r: seq<Capture>, n: nat, captures: seq<Capture>)
    requires Top(r, n, captures)
    ensures Distinct(r)
  {
    hide Latest, Before;
    forall i, j | 0 <= i < j < |r|
      ensures r[i] != r[j]
    {
      BeforeFacts(r[i], r[j]);
    }
  }

  /** Whatever comes before a capture at the top is at the top. */
  lemma {:induction false} TopClosed(r: seq<Capture>, n: nat, captures: seq<Capture>, a: Capture, c: Capture)
    requires Top(r, n, captures) && Latest(a, captures) && c in r && Before(a, c)
    ensures a in r
  {
    hide Latest, Before;
    BeforeFacts(a, c);
  }

  lemma {:induction false} TopSubset(r: seq<Capture>, s: seq<Capture>, n: nat, captures: seq<Capture>, c: Capture)
    requires Top(r, n, captures) && Top(s, n, captures) && c in r
    ensures c in s
  {
    hide Latest, Before;
    if c !in s {
      forall d | d in s
        ensures d in r
      {
        TopClosed(r, n, captures, d, c);
      }
      TopDistinct(s, n, captures);
      Pigeonhole(s + [c], r);
      assert false;
    }
  }

  lemma {:induction false} AscendingTail(r: seq<Capture>, c: Capture)
    requires |r| > 0 && forall i, j | 0 <= i < j < |r| :: Before(r[i], r[j])
    ensures c in r[1..] <==> c in r && c != r[0]
  {
    hide Before;
    BeforeFacts(r[0], c);
    assert r == [r[0]] + r[1..];
  }

  lemma {:induction false} AscendingUnique(r: seq<Capture>, s: seq<Capture>)
    requires forall i, j | 0 <= i < j < |r| :: Before(r[i], r[j])
    requires forall i, j | 0 <= i < j < |s| :: Before(s[i], s[j])
    requires forall c :: c in r <==> c in s
    ensures r == s
    decreases |r|
  {
    hide Before;
    assert |s| == 0 || s[0] in s;
    if |r| > 0 {
      assert r[0] in r && r[0] in s && s[0] in s && s[0] in r;
      BeforeFacts(r[0], s[0]);
      assert r[0] == s[0];
      forall c
        ensures c in r[1..] <==> c in s[1..]
      {
        AscendingTail(r, c);
        AscendingTail(s, c);
      }
      AscendingUnique(r[1..], s[1..]);
    }
  }

  /** There is one top of any captures. */
  lemma {:induction false} TopUnique(r: seq<Capture>, s: seq<Capture>, n: nat, captures: seq<Capture>)
    requires Top(r, n, captures) && Top(s, n, captures)
    ensures r == s
  {
    forall c
      ensures c in r <==> c in s
    {
      if c in r { TopSubset(r, s, n, captures, c); }
      if c in s { TopSubset(s, r, n, captures, c); }
    }
    hide Latest, Before;
    AscendingUnique(r, s);
  }

  /** The choice depends on which captures there are, not on their order or repetition. */
  lemma {:induction false} ChosenForgetsOrder(captures: seq<Capture>, others: seq<Capture>)
    requires forall c :: c in captures <==> c in others
    ensures Chosen(captures) == Chosen(others)
  {
    hide Chosen, Before, Less;
    ChosenIsTop(captures);
    ChosenIsTop(others);
    assert forall c :: Latest(c, captures) <==> Latest(c, others);
    assert Top(Chosen(others), MAX_PAGES, captures);
    TopUnique(Chosen(captures), Chosen(others), MAX_PAGES, captures);
  }

  // Choosing in parts

  lemma {:induction false} LatestOfPart(c: Capture, part: seq<Capture>, whole: seq<Capture>)
    requires Latest(c, whole) && c in part && forall d | d in part :: d in whole
    ensures Latest(c, part)
  {
  }

  /** The latest of a URL, in a greater set of captures, of each capture of `r`. */
  lemma {:induction false} LatestOfEach(r: seq<Capture>, captures: seq<Capture>) returns (s: seq<Capture>)
    requires forall d | d in r :: d in captures
    ensures |s| == |r|
    ensures forall k | 0 <= k < |r| ::
      Latest(s[k], captures) && s[k].url == r[k].url && (s[k] == r[k] || Before(s[k], r[k]))
    decreases |r|
  {
    hide Latest, Before;
    s := [];
    if |r| > 0 {
      var n := |r| - 1;
      assert r[n] in r;
      var init := LatestOfEach(r[..n], captures);
      var last := LatestExists(r[n], captures);
      s := init + [last];
    }
  }

  /** What the whole puts at the top, the part it is in puts at the top. */
  lemma {:induction false} TopOfPart(
    r: seq<Capture>, whole: seq<Capture>, p: seq<Capture>, part: seq<Capture>, n: nat, c: Capture)
    requires Top(r, n, whole) && Top(p, n, part) && forall d | d in part :: d in whole
    requires c in r && c in part
    ensures c in p
  {
    hide Before;
    LatestOfPart(c, part, whole);
    if c !in p {
      var s := LatestOfEach(p, whole);
      forall k | 0 <= k < |s|
        ensures s[k] in r && s[k] != c
      {
        assert p[k] in p;
        BeforeThrough(s[k], p[k], c);
        TopClosed(r, n, whole, s[k], c);
        BeforeFacts(s[k], c);
      }
      UrlsDistinct(p, part, n, s);
      OneMore(s, c, r);
      assert false;
    }
  }

  lemma {:induction false} BeforeThrough(a: Capture, b: Capture, c: Capture)
    requires (a == b || Before(a, b)) && Before(b, c)
    ensures Before(a, c)
  {
    hide RankedBefore;
    if a != b {
      BeforeTransitive(WithRank(a), WithRank(b), WithRank(c));
    }
  }

  lemma {:induction false} UrlsDistinct(p: seq<Capture>, part: seq<Capture>, n: nat, s: seq<Capture>)
    requires Top(p, n, part) && |s| == |p| && forall k | 0 <= k < |p| :: s[k].url == p[k].url
    ensures Distinct(s)
  {
    hide Before, Latest;
    TopDistinct(p, n, part);
    forall i, j | 0 <= i < j < |s|
      ensures s[i] != s[j]
    {
      assert p[i] in p && p[j] in p && p[i] != p[j];
      if s[i] == s[j] {
        LatestUnique(p[i], p[j], part);
      }
    }
  }

  lemma {:induction false} OneMore(s: seq<Capture>, c: Capture, r: seq<Capture>)
    requires Distinct(s) && c in r && forall k | 0 <= k < |s| :: s[k] in r && s[k] != c
    ensures |s| < |r|
  {
    Pigeonhole(s + [c], r);
  }

  /** The top of the whole is the top of the tops of two parts that make it up. */
  lemma {:induction false} TopOfTops(
    r: seq<Capture>, p: seq<Capture>, q: seq<Capture>, xs: seq<Capture>, ys: seq<Capture>, n: nat)
    requires Top(r, n, xs + ys) && Top(p, n, xs) && Top(q, n, ys)
    ensures Top(r, n, p + q)
  {
    hide Before, Top;
    var whole, tops := xs + ys, p + q;
    TopMembers(p, n, xs);
    TopMembers(q, n, ys);
    TopMembers(r, n, whole);
    assert forall d | d in tops :: d in whole;
    forall c | c in r
      ensures c in tops && Latest(c, tops)
    {
      if c in xs {
        TopOfPart(r, whole, p, xs, n, c);
      } else {
        TopOfPart(r, whole, q, ys, n, c);
      }
      LatestOfPart(c, tops, whole);
    }
    forall e | Latest(e, tops) && e !in r
      ensures |r| == n && forall d | d in r :: Before(d, e)
    {
      var best := LatestExists(e, whole);
      if best in r {
        LatestUnique(best, e, tops);
      }
      TopOutside(r, n, whole, best);
      forall d | d in r
        ensures Before(d, e)
      {
        BeforeAfter(d, best, e);
      }
    }
    TopFrom(r, n, whole, tops);
  }

  lemma {:induction false} TopMembers(r: seq<Capture>, n: nat, captures: seq<Capture>)
    requires Top(r, n, captures)
    ensures forall c | c in r :: c in captures && Latest(c, captures)
  {
    hide Before;
  }

  lemma {:induction false} TopOutside(r: seq<Capture>, n: nat, captures: seq<Capture>, c: Capture)
    requires Top(r, n, captures) && Latest(c, captures) && c !in r
    ensures |r| == n && forall d | d in r :: Before(d, c)
  {
  }

  lemma {:induction false} BeforeAfter(d: Capture, b: Capture, e: Capture)
    requires Before(d, b) && (b == e || Before(b, e))
    ensures Before(d, e)
  {
    hide RankedBefore;
    if b != e {
      BeforeTransitive(WithRank(d), WithRank(b), WithRank(e));
    }
  }

  lemma {:induction false} TopFrom(r: seq<Capture>, n: nat, whole: seq<Capture>, captures: seq<Capture>)
    requires Top(r, n, whole)
    requires forall c | c in r :: Latest(c, captures)
    requires forall c | Latest(c, captures) && c !in r :: |r| == n && forall d | d in r :: Before(d, c)
    ensures Top(r, n, captures)
  {
    hide Before, Latest;
  }

  /** Choosing of parts and then of their choices chooses what choosing of everything does. */
  lemma {:induction false} ChosenMerges(xs: seq<Capture>, ys: seq<Capture>)
    ensures Chosen(xs + ys) == Chosen(Chosen(xs) + Chosen(ys))
  {
    hide Chosen, Top;
    var p, q := Chosen(xs), Chosen(ys);
    ChosenIsTop(xs + ys);
    ChosenIsTop(xs);
    ChosenIsTop(ys);
    ChosenIsTop(p + q);
    TopOfTops(Chosen(xs + ys), p, q, xs, ys, MAX_PAGES);
    TopUnique(Chosen(xs + ys), Chosen(p + q), MAX_PAGES, p + q);
  }

  // The order by what a URL shows

  /** The URL's scheme, host and path: `://` after the first, `/` after the second. */
  ghost predicate Addressed(url: string, scheme: string, host: string, path: string) {
    !Contains(scheme, "://") && '/' !in host && url == scheme + "://" + host + "/" + path
  }

  /** The path holds a contact word, in any case. */
  ghost predicate ContactUrl(url: string) {
    exists scheme, host, path, word ::
      Addressed(url, scheme, host, path)
      && word in ["contact", "about", "team", "staff", "people", "impressum", "imprint", "support"]
      && Contains(Lower(path), word)
  }

  /** Nothing follows the host but a slash, or not even that. */
  ghost predicate RootUrl(url: string) {
    forall scheme, host, path | Addressed(url, scheme, host, path) :: path == ""
  }

  ghost function Group(url: string): nat {
    if ContactUrl(url) then 0 else if RootUrl(url) then 1 else 2
  }

  /** Contact pages first, then the site's root, then the rest; the newest first in each, then by URL. */
  ghost predicate Prefers(c: Capture, d: Capture) {
    || Group(c.url) < Group(d.url)
    || (Group(c.url) == Group(d.url)
        && (Precedes(d.timestamp, c.timestamp) || (c.timestamp == d.timestamp && Precedes(c.url, d.url))))
  }

  lemma {:induction false} FoundFirst(s: string, needle: string, at: nat)
    requires FoundAt(s, needle, at) && forall k | 0 <= k < at :: !FoundAt(s, needle, k)
    ensures FindFrom(s, needle, 0) == at && After(s, needle) == s[at + |needle|..]
  {
  }

  lemma {:induction false} SchemeFound(scheme: string, rest: string)
    requires !Contains(scheme, "://")
    ensures var url := scheme + "://" + rest;
      FindFrom(url, "://", 0) == |scheme| && After(url, "://") == rest
  {
    var url := scheme + "://" + rest;
    assert url[|scheme|..|scheme| + 3] == "://" && url[|scheme| + 3..] == rest;
    forall k | 0 <= k < |scheme|
      ensures !FoundAt(url, "://", k)
    {
      if FoundAt(url, "://", k) {
        assert url[k..k + 3][0] == url[k] && url[k..k + 3][1] == url[k + 1] && url[k..k + 3][2] == url[k + 2];
        assert url[|scheme|] == ':';
        assert k + 3 <= |scheme| && scheme[k..k + 3] == url[k..k + 3];
        assert FoundAt(scheme, "://", k);
      }
    }
    FoundFirst(url, "://", |scheme|);
  }

  lemma {:induction false} HostFound(host: string, path: string)
    requires '/' !in host
    ensures var rest := host + "/" + path;
      FindFrom(rest, "/", 0) == |host| && After(rest, "/") == path
  {
    var rest := host + "/" + path;
    assert rest[|host|..|host| + 1] == "/" && rest[|host| + 1..] == path;
    forall k | 0 <= k < |host|
      ensures !FoundAt(rest, "/", k)
    {
      SlashAt(rest, k);
      assert rest[k] == host[k];
    }
    FoundFirst(rest, "/", |host|);
  }

  lemma {:induction false} PathOf(url: string, scheme: string, host: string, path: string)
    requires Addressed(url, scheme, host, path)
    ensures Path(url) == Lower(path)
  {
    hide FindFrom, Contains, After, Lower;
    assert url == scheme + "://" + (host + "/" + path);
    SchemeFound(scheme, host + "/" + path);
    HostFound(host, path);
  }

  lemma {:induction false} SchemeOf(url: string) returns (scheme: string)
    requires FindFrom(url, "://", 0) != -1
    ensures !Contains(scheme, "://") && url == scheme + "://" + After(url, "://")
  {
    hide Contains;
    var at := FindFrom(url, "://", 0);
    scheme := url[..at];
    SchemeFree(url, at);
    assert url == url[..at] + url[at..at + 3] + url[at + 3..];
  }

  lemma {:induction false} HostOf(rest: string) returns (host: string)
    requires FindFrom(rest, "/", 0) != -1
    ensures '/' !in host && rest == host + "/" + After(rest, "/")
  {
    var slash := FindFrom(rest, "/", 0);
    host := rest[..slash];
    HostFree(rest, slash);
    assert rest == rest[..slash] + rest[slash..slash + 1] + rest[slash + 1..];
  }

  /** A URL with a path is addressed. */
  lemma {:induction false} AddressOf(url: string) returns (scheme: string, host: string, path: string)
    ensures Path(url) == "" || Addressed(url, scheme, host, path)
  {
    hide Contains, Lower, FindFrom, After;
    scheme, host, path := "", "", "";
    if FindFrom(url, "://", 0) != -1 {
      var rest := After(url, "://");
      if FindFrom(rest, "/", 0) != -1 {
        scheme := SchemeOf(url);
        host := HostOf(rest);
        path := After(rest, "/");
        assert scheme + "://" + (host + "/" + path) == scheme + "://" + host + "/" + path;
      }
    }
  }

  lemma {:induction false} SchemeFree(url: string, at: nat)
    requires at <= |url| && forall k | 0 <= k < at :: !FoundAt(url, "://", k)
    ensures !Contains(url[..at], "://")
  {
    forall k | 0 <= k <= at
      ensures !FoundAt(url[..at], "://", k)
    {
      assert k < at ==> !FoundAt(url, "://", k);
      assert k + 3 <= at ==> url[..at][k..k + 3] == url[k..k + 3];
    }
  }

  lemma SlashAt(s: string, k: int)
    ensures FoundAt(s, "/", k) <==> 0 <= k < |s| && s[k] == '/'
  {
    if 0 <= k < |s| {
      assert s[k..k + 1] == [s[k]];
    }
  }

  lemma {:induction false} HostFree(rest: string, slash: nat)
    requires slash <= |rest| && forall k | 0 <= k < slash :: !FoundAt(rest, "/", k)
    ensures '/' !in rest[..slash]
  {
    forall k | 0 <= k < slash
      ensures rest[k] != '/'
    {
      assert !FoundAt(rest, "/", k);
      SlashAt(rest, k);
    }
  }

  lemma ContactWord(path: string)
    ensures (exists k | 0 <= k < |CONTACT_WORDS| :: Contains(path, CONTACT_WORDS[k])) <==>
      exists word ::
        word in ["contact", "about", "team", "staff", "people", "impressum", "imprint", "support"] && Contains(path, word)
  {
    hide Contains;
    forall k | 0 <= k < |CONTACT_WORDS|
      ensures CONTACT_WORDS[k] in ["contact", "about", "team", "staff", "people", "impressum", "imprint", "support"]
    {
    }
  }

  lemma NoWordInNothing()
    ensures forall k | 0 <= k < |CONTACT_WORDS| :: !Contains("", CONTACT_WORDS[k])
  {
    forall k | 0 <= k < |CONTACT_WORDS|
      ensures !Contains("", CONTACT_WORDS[k])
    {
      assert |CONTACT_WORDS[k]| > 0;
    }
  }

  /** The rank of a URL is its group. */
  lemma {:induction false} RankExact(url: string)
    ensures Rank(url) == Group(url)
  {
    hide Path, Contains, Lower, Addressed;
    var scheme, host, path := AddressOf(url);
    forall scheme, host, path | Addressed(url, scheme, host, path)
      ensures Path(url) == Lower(path)
    {
      PathOf(url, scheme, host, path);
    }
    ContactWord(Path(url));
    NoWordInNothing();
    assert forall p: string :: p == "" <==> Lower(p) == "";
  }

  lemma {:induction false} BeforeExact(c: Capture, d: Capture)
    ensures Before(c, d) <==> Prefers(c, d)
  {
    hide Rank, Group, Less, Precedes;
    RankExact(c.url);
    RankExact(d.url);
    LessExact(d.timestamp, c.timestamp);
    LessExact(c.url, d.url);
  }

  /** None of the same URL is newer. */
  ghost predicate NewestOf(c: Capture, captures: seq<Capture>) {
    c in captures && forall d | d in captures && d.url == c.url :: !Precedes(c.timestamp, d.timestamp)
  }

  /** The site's root, with its slash or without, and a URL without `://`, are roots. */
  lemma {:induction false} Roots(scheme: string, host: string)
    requires !Contains(scheme, "://") && '/' !in host
    ensures Group(scheme + "://" + host) == 1 && Group(scheme + "://" + host + "/") == 1
  {
    hide Contains;
    assert scheme + "://" + host + "/" + "" == scheme + "://" + host + "/";
    PathOf(scheme + "://" + host + "/", scheme, host, "");
    SchemeFound(scheme, host);
    HostAlone(host);
    NoWordInNothing();
    RankExact(scheme + "://" + host);
    RankExact(scheme + "://" + host + "/");
    hide FindFrom, After, Group;
  }

  lemma HostAlone(host: string)
    requires '/' !in host
    ensures FindFrom(host, "/", 0) == -1
  {
    forall k | 0 <= k <= |host|
      ensures !FoundAt(host, "/", k)
    {
      SlashAt(host, k);
    }
  }

  /**
   The choice by what the captures show: the newest of each URL, at most three, in the preferred order, and
   nothing left out that is preferred to any of them.
   */
  lemma {:induction false} ChosenPrefers(captures: seq<Capture>)
    ensures
      var r := Chosen(captures);
      && |r| <= 3
      && (forall i, j | 0 <= i < j < |r| :: Prefers(r[i], r[j]))
      && (forall c | c in r :: NewestOf(c, captures))
      && (forall c | NewestOf(c, captures) && c !in r :: |r| == 3 && forall d | d in r :: Prefers(d, c))
  {
    hide Before, Prefers, Chosen, Less, Precedes;
    ChosenIsTop(captures);
    forall c, d
      ensures Before(c, d) <==> Prefers(c, d)
    {
      BeforeExact(c, d);
    }
    forall c
      ensures NewestOf(c, captures) <==> Latest(c, captures)
    {
      forall d
        ensures Less(c.timestamp, d) <==> Precedes(c.timestamp, d)
      {
        LessExact(c.timestamp, d);
      }
    }
  }
}
