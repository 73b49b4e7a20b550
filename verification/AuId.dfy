/** Australian business identifiers: grouped digits, the ABN checksum modulo 89 and the ACN check digit. */
module AuId {
  import opened Prelude
  import opened Positional
  import opened Text

  predicate IsSeparator(c: char) {
    c == ' ' || c == '-'
  }

  /** The digits of `s`, whatever stands between them. */
  function DigitsOf(s: string): (ds: seq<nat>)
    ensures Digits(10, ds)
  {
    if |s| == 0 then []
    else
      var last := s[|s| - 1];
      DigitsOf(s[..|s| - 1]) + (if IsDigit(last) then [DigitValue(last)] else [])
  }

  /** Digits with at most one space or hyphen between two of them, and none at either end. */
  predicate WellGrouped(s: string) {
    && |s| > 0 && IsDigit(s[0]) && IsDigit(s[|s| - 1])
    && (forall k | 0 <= k < |s| :: IsDigit(s[k]) || IsSeparator(s[k]))
    && (forall k | 0 < k < |s| :: IsDigit(s[k - 1]) || IsDigit(s[k]))
  }

  function Grouped(raw: string): (r: Option<seq<nat>>)
    ensures r.Some? ==> Digits(10, r.value)
  {
    if WellGrouped(Trim(raw)) then Some(DigitsOf(Trim(raw))) else None
  }

  method GroupedDigits(raw: string) returns (r: Option<seq<nat>>)
    ensures r == Grouped(raw)
  {
    var s := Trim(raw);
    var out: seq<nat> := [];
    var afterSeparator := true;
    var at := 0;
    while at < |s|
      invariant 0 <= at <= |s|
      invariant out == DigitsOf(s[..at])
      invariant at > 0 ==> IsDigit(s[0])
      invariant forall k | 0 <= k < at :: IsDigit(s[k]) || IsSeparator(s[k])
      invariant forall k | 0 < k < at :: IsDigit(s[k - 1]) || IsDigit(s[k])
      invariant afterSeparator <==> at == 0 || !IsDigit(s[at - 1])
    {
      assert s[..at + 1][..at] == s[..at];
      if IsDigit(s[at]) {
        out := out + [DigitValue(s[at])];
        afterSeparator := false;
      } else if IsSeparator(s[at]) && !afterSeparator {
        afterSeparator := true;
      } else {
        return None;
      }
      at := at + 1;
    }
    assert s[..at] == s;
    return if afterSeparator then None else Some(out);
  }

  function DigitsToString(ds: seq<nat>): (s: string)
    requires Digits(10, ds)
    ensures AllDigits(s) && |s| == |ds|
  {
    seq(|ds|, k requires 0 <= k < |ds| => DigitChar(ds[k]))
  }

  // The grouping grammar

  /** Nothing, a space or a hyphen between two digits. */
  ghost predicate Gap(s: string) {
    s == "" || s == " " || s == "-"
  }

  /** The digits written with these gaps between. */
  ghost function Spelled(ds: seq<nat>, gaps: seq<string>): string
    requires |ds| > 0 && Digits(10, ds) && |gaps| == |ds| - 1
  {
    var n := |ds| - 1;
    if n == 0 then [DigitChar(ds[0])] else Spelled(ds[..n], gaps[..n - 1]) + gaps[n - 1] + [DigitChar(ds[n])]
  }

  ghost predicate SpelledAs(s: string, ds: seq<nat>) {
    && |ds| > 0 && Digits(10, ds)
    && exists gaps: seq<string> ::
         |gaps| == |ds| - 1 && (forall k | 0 <= k < |gaps| :: Gap(gaps[k])) && s == Spelled(ds, gaps)
  }

  lemma DigitsOfLast(s: string, c: char)
    ensures DigitsOf(s + [c]) == DigitsOf(s) + (if IsDigit(c) then [DigitValue(c)] else [])
  {
    assert (s + [c])[..|s|] == s;
  }

  lemma {:induction false} SpelledReads(ds: seq<nat>, gaps: seq<string>)
    requires |ds| > 0 && Digits(10, ds) && |gaps| == |ds| - 1 && forall k | 0 <= k < |gaps| :: Gap(gaps[k])
    ensures WellGrouped(Spelled(ds, gaps)) && DigitsOf(Spelled(ds, gaps)) == ds
    decreases |ds|
  {
    hide DigitsOf, WellGrouped;
    var n := |ds| - 1;
    var d := DigitChar(ds[n]);
    if n == 0 {
      DigitsOfLast("", d);
      assert "" + [d] == [d] && ds == [ds[0]];
      OneGrouped(d);
      NoDigits();
    } else {
      var before, gap := Spelled(ds[..n], gaps[..n - 1]), gaps[n - 1];
      SpelledReads(ds[..n], gaps[..n - 1]);
      DigitsOfLast(before + gap, d);
      if gap != "" {
        DigitsOfLast(before, gap[0]);
        assert gap == [gap[0]];
      } else {
        assert before + gap == before;
      }
      GroupedMore(before, gap, d);
      assert ds == ds[..n] + [ds[n]];
    }
  }

  lemma NoDigits()
    ensures DigitsOf("") == []
  {
  }

  lemma OneGrouped(d: char)
    requires IsDigit(d)
    ensures WellGrouped([d])
  {
  }

  lemma {:induction false} GroupedMore(before: string, gap: string, d: char)
    requires WellGrouped(before) && Gap(gap) && IsDigit(d)
    ensures WellGrouped(before + gap + [d])
  {
    var s := before + gap + [d];
    assert forall k | 0 <= k < |before| :: s[k] == before[k];
    assert gap != "" ==> s[|before|] == gap[0] && IsSeparator(gap[0]);
  }

  /** A grouped text ends in a digit, after a shorter grouped text and a gap, or alone. */
  lemma {:induction false} GroupedLess(s: string) returns (before: string, gap: string)
    requires WellGrouped(s) && |s| > 1
    ensures WellGrouped(before) && Gap(gap) && s == before + gap + [s[|s| - 1]] && |before| < |s|
  {
    var n := |s| - 1;
    if IsDigit(s[n - 1]) {
      before, gap := s[..n], "";
    } else {
      assert n - 1 > 0 && IsDigit(s[n - 2]);
      before, gap := s[..n - 1], [s[n - 1]];
    }
    assert forall k | 0 <= k < |before| :: before[k] == s[k];
  }

  lemma {:induction false} GroupedSpelled(s: string)
    requires WellGrouped(s)
    ensures SpelledAs(s, DigitsOf(s))
    decreases |s|
  {
    hide DigitsOf, WellGrouped;
    GroupedEnds(s);
    var d := s[|s| - 1];
    if |s| == 1 {
      assert s == "" + [d] == [d];
      DigitsOfLast("", d);
      NoDigits();
      assert DigitsOf(s) == [DigitValue(d)];
      assert s == Spelled(DigitsOf(s), []);
    } else {
      var before, gap := GroupedLess(s);
      GroupedSpelled(before);
      DigitsOfLast(before + gap, d);
      GroupedEnds(before);
      if gap != "" {
        assert gap == [gap[0]] && !IsDigit(gap[0]);
        DigitsOfLast(before, gap[0]);
        assert DigitsOf(before) + [] == DigitsOf(before);
      } else {
        assert before + gap == before;
      }
      SpelledMore(before, DigitsOf(before), gap, d);
    }
  }

  lemma GroupedEnds(s: string)
    requires WellGrouped(s)
    ensures |s| > 0 && IsDigit(s[|s| - 1])
  {
  }

  lemma {:induction false} SpelledMore(before: string, ds: seq<nat>, gap: string, d: char)
    requires SpelledAs(before, ds) && Gap(gap) && IsDigit(d)
    ensures SpelledAs(before + gap + [d], ds + [DigitValue(d)])
  {
    var gaps: seq<string> :|
      |gaps| == |ds| - 1 && (forall k | 0 <= k < |gaps| :: Gap(gaps[k])) && before == Spelled(ds, gaps);
    SpelledLast(ds, gaps, gap, d);
    assert forall k | 0 <= k < |gaps + [gap]| :: Gap((gaps + [gap])[k]);
  }

  lemma SpelledLast(ds: seq<nat>, gaps: seq<string>, gap: string, d: char)
    requires |ds| > 0 && Digits(10, ds) && |gaps| == |ds| - 1 && IsDigit(d)
    ensures Spelled(ds + [DigitValue(d)], gaps + [gap]) == Spelled(ds, gaps) + gap + [d]
  {
    assert (ds + [DigitValue(d)])[..|ds|] == ds && (gaps + [gap])[..|gaps|] == gaps;
    assert DigitChar(DigitValue(d)) == d;
  }

  /** A text is grouped digits exactly when, trimmed, it is those digits with nothing, a space or a hyphen between. */
  lemma {:induction false} GroupedExact(raw: string, ds: seq<nat>)
    ensures Grouped(raw) == Some(ds) <==> SpelledAs(Trim(raw), ds)
  {
    hide Trim, WellGrouped, DigitsOf, Spelled;
    if Grouped(raw) == Some(ds) {
      GroupedSpelled(Trim(raw));
    }
    if SpelledAs(Trim(raw), ds) {
      var gaps: seq<string> :|
        |gaps| == |ds| - 1 && (forall k | 0 <= k < |gaps| :: Gap(gaps[k])) && Trim(raw) == Spelled(ds, gaps);
      SpelledReads(ds, gaps);
    }
  }

  lemma {:induction false} DigitsOfDigits(s: string)
    requires AllDigits(s)
    ensures DigitsOf(s) == DigitValues(s)
  {
    if |s| > 0 {
      DigitsOfDigits(s[..|s| - 1]);
    }
  }

  /** A bare digit string reads as its own digits. */
  lemma BareDigitsRead(ds: seq<nat>)
    requires Digits(10, ds) && |ds| > 0
    ensures Grouped(DigitsToString(ds)) == Some(ds)
  {
    var s := DigitsToString(ds);
    TrimKeeps(s);
    DigitsOfDigits(s);
    assert DigitValues(s) == ds;
  }

  // Weighted sums

  function WeightedSum(ws: seq<int>, ds: seq<int>): int
    requires |ws| == |ds|
  {
    if |ds| == 0 then 0 else ws[|ds| - 1] * ds[|ds| - 1] + WeightedSum(ws[..|ds| - 1], ds[..|ds| - 1])
  }

  lemma {:induction false} WeightedUpdate(ws: seq<int>, ds: seq<int>, k: nat, d: int)
    requires |ws| == |ds| && k < |ds|
    ensures WeightedSum(ws, ds[k := d]) == WeightedSum(ws, ds) + ws[k] * (d - ds[k])
  {
    var n := |ds| - 1;
    if k == n {
      assert ds[k := d][..n] == ds[..n];
    } else {
      assert ds[k := d][..n] == ds[..n][k := d];
      WeightedUpdate(ws[..n], ds[..n], k, d);
    }
  }

  // The ABN

  const ABN_WEIGHTS: seq<int> := [10, 1, 3, 5, 7, 9, 11, 13, 15, 17, 19]
  const ACN_WEIGHTS: seq<int> := [8, 7, 6, 5, 4, 3, 2, 1]

  function AbnSum(d: seq<int>): int
    requires |d| == 11
  {
    WeightedSum(ABN_WEIGHTS, d[0 := d[0] - 1])
  }

  predicate AbnOk(d: seq<int>) {
    |d| == 11 && d[0] != 0 && AbnSum(d) % 89 == 0
  }

  lemma AbnUpdate(d: seq<int>, k: nat, x: int)
    requires |d| == 11 && k < 11
    ensures AbnSum(d[k := x]) == AbnSum(d) + ABN_WEIGHTS[k] * (x - d[k])
  {
    hide WeightedSum;
    WeightedUpdate(ABN_WEIGHTS, d[0 := d[0] - 1], k, if k == 0 then x - 1 else x);
    assert d[k := x][0 := d[k := x][0] - 1] == d[0 := d[0] - 1][k := if k == 0 then x - 1 else x];
  }

  /** `step` times the position, and `first`, times each digit before `n`. */
  ghost function Ramp(first: int, step: int, d: seq<int>, n: nat): int
    requires n <= |d|
  {
    if n == 0 then 0 else Ramp(first, step, d, n - 1) + (first + step * (n - 1)) * d[n - 1]
  }

  lemma {:induction false} WeightedRamp(ws: seq<int>, d: seq<int>, first: int, step: int)
    requires |ws| == |d| && forall k | 0 <= k < |ws| :: ws[k] == first + step * k
    ensures WeightedSum(ws, d) == Ramp(first, step, d, |d|)
    decreases |d|
  {
    if |d| > 0 {
      var n := |d| - 1;
      WeightedRamp(ws[..n], d[..n], first, step);
      RampPrefix(first, step, d, n, n);
    }
  }

  lemma {:induction false} RampPrefix(first: int, step: int, d: seq<int>, end: nat, n: nat)
    requires n <= end <= |d|
    ensures Ramp(first, step, d[..end], n) == Ramp(first, step, d, n)
    decreases n
  {
    if n > 0 {
      RampPrefix(first, step, d, end, n - 1);
    }
  }

  lemma {:induction false} WeightedFirst(w: int, ws: seq<int>, x: int, d: seq<int>)
    requires |ws| == |d|
    ensures WeightedSum([w] + ws, [x] + d) == w * x + WeightedSum(ws, d)
    decreases |d|
  {
    var n := |d|;
    if n == 0 {
      assert [w] + ws == [w] && [x] + d == [x] && [w][..0] == [] && [x][..0] == [];
    } else {
      WeightedFirst(w, ws[..n - 1], x, d[..n - 1]);
      assert ([w] + ws)[..n] == [w] + ws[..n - 1] && ([x] + d)[..n] == [x] + d[..n - 1];
    }
  }

  /**
   The ABN rule: one taken from the first digit, which is not zero, the digits weighted 10, 1, 3, 5 and so on
   by twos up to 19 sum to a multiple of 89.
   */
  lemma {:induction false} AbnExact(d: seq<int>)
    requires |d| == 11
    ensures AbnOk(d) <==> d[0] != 0 && (10 * (d[0] - 1) + Ramp(1, 2, d[1..], 10)) % 89 == 0
  {
    hide WeightedSum, Ramp;
    var ws := ABN_WEIGHTS[1..];
    assert ABN_WEIGHTS == [10] + ws;
    assert d[0 := d[0] - 1] == [d[0] - 1] + d[1..];
    WeightedFirst(10, ws, d[0] - 1, d[1..]);
    WeightedRamp(ws, d[1..], 1, 2);
  }

  /** What nine digits after the first two add to the sum. */
  ghost function TailSum(tail: seq<int>): int
    requires |tail| == 9
  {
    Ramp(3, 2, tail, 9)
  }

  lemma {:induction false} AbnSumLead(lead: nat, tail: seq<int>)
    requires 10 <= lead <= 99 && |tail| == 9
    ensures AbnSum([lead / 10, lead % 10] + tail) == lead - 10 + TailSum(tail)
  {
    hide WeightedSum, Ramp;
    var d: seq<int> := [lead / 10, lead % 10] + tail;
    var ws := ABN_WEIGHTS[2..];
    assert ABN_WEIGHTS == [10] + ([1] + ws);
    assert d[0 := d[0] - 1] == [lead / 10 - 1] + ([lead % 10] + tail);
    WeightedFirst(10, [1] + ws, lead / 10 - 1, [lead % 10] + tail);
    WeightedFirst(1, ws, lead % 10, tail);
    WeightedRamp(ws, tail, 3, 2);
  }

  /**
   The two leading digits are the check: nine digits have exactly one valid lead in 10..98, the number that brings
   the sum to a multiple of 89; and 99 is a second one exactly when that is 10.
   */
  lemma {:induction false} AbnLeadUnique(lead: nat, tail: seq<int>)
    requires 10 <= lead <= 99 && |tail| == 9
    ensures
      var only := 10 + (89 - TailSum(tail) % 89) % 89;
      && 10 <= only <= 98
      && (lead <= 98 ==> (AbnOk([lead / 10, lead % 10] + tail) <==> lead == only))
      && (lead == 99 ==> (AbnOk([lead / 10, lead % 10] + tail) <==> only == 10))
  {
    AbnSumLead(lead, tail);
    hide AbnSum, TailSum;
    LeadArithmetic(TailSum(tail), lead);
  }

  lemma LeadArithmetic(sum: int, lead: nat)
    requires 10 <= lead <= 99
    ensures
      var only := 10 + (89 - sum % 89) % 89;
      && 10 <= only <= 98
      && ((lead - 10 + sum) % 89 == 0 <==> if lead == 99 then only == 10 else lead == only)
  {
    var q, r := sum / 89, sum % 89;
    assert sum == 89 * q + r;
    var n := lead - 10 + r;
    assert lead - 10 + sum == 89 * q + n && 0 <= n <= 177;
    Multiple89(q, n);
  }

  lemma Multiple89(q: int, n: nat)
    requires n <= 177
    ensures (89 * q + n) % 89 == 0 <==> n == 0 || n == 89
  {
  }

  /** 89 is prime and larger than any weight or difference of weights and any difference of digits. */
  lemma NoFactor89(w: int, step: int)
    requires -19 <= w <= 19 && w != 0 && -9 <= step <= 9 && step != 0
    ensures (w * step) % 89 != 0
  {
    var a, b := if w < 0 then -w else w, if step < 0 then -step else step;
    assert w * step == a * b || w * step == -(a * b);
    SmallProduct(a, b);
  }

  lemma SmallProduct(a: int, b: int)
    requires 0 < a <= 19 && 0 < b <= 9
    ensures 0 < a * b <= 171 && a * b != 89
  {
    if b == 1 { assert a * b == a; }
    else if b == 2 { assert a * b == a * 2; }
    else if b == 3 { assert a * b == a * 3; }
    else if b == 4 { assert a * b == a * 4; }
    else if b == 5 { assert a * b == a * 5; }
    else if b == 6 { assert a * b == a * 6; }
    else if b == 7 { assert a * b == a * 7; }
    else if b == 8 { assert a * b == a * 8; }
    else { assert a * b == a * 9; }
  }

  lemma Shift89(n: int, change: int)
    requires n % 89 == 0 && change % 89 != 0
    ensures (n + change) % 89 != 0
  {
  }

  /** Every error in one digit of a valid ABN is caught. */
  lemma AbnCatchesSubstitution(d: seq<nat>, k: nat, x: nat)
    requires Digits(10, d) && AbnOk(d) && k < 11 && x < 10 && x != d[k]
    ensures !AbnOk(d[k := x])
  {
    hide AbnSum;
    AbnUpdate(d, k, x);
    NoFactor89(ABN_WEIGHTS[k], x - d[k]);
    Shift89(AbnSum(d), ABN_WEIGHTS[k] * (x - d[k]));
  }

  lemma AbnWeightsDiffer(j: nat, k: nat)
    requires j < k < 11
    ensures -19 <= ABN_WEIGHTS[j] - ABN_WEIGHTS[k] <= 19 && ABN_WEIGHTS[j] != ABN_WEIGHTS[k]
  {
  }

  /** Every exchange of two unequal digits of a valid ABN is caught, the lead digit included. */
  lemma AbnCatchesSwap(d: seq<nat>, j: nat, k: nat)
    requires Digits(10, d) && AbnOk(d) && j < k < 11 && d[j] != d[k]
    ensures !AbnOk(d[j := d[k]][k := d[j]])
  {
    hide AbnSum;
    var a: int, b: int, v, w := d[j], d[k], ABN_WEIGHTS[j], ABN_WEIGHTS[k];
    AbnUpdate(d, j, d[k]);
    AbnUpdate(d[j := d[k]], k, d[j]);
    AbnWeightsDiffer(j, k);
    SwapChange(v, w, a, b);
    NoFactor89(v - w, b - a);
    Shift89(AbnSum(d), (v - w) * (b - a));
  }

  lemma SwapChange(v: int, w: int, a: int, b: int)
    ensures v * (b - a) + w * (a - b) == (v - w) * (b - a)
  {
  }

  // The ACN

  predicate AcnOk(d: seq<int>) {
    |d| == 9 && d[8] == (10 - WeightedSum(ACN_WEIGHTS, d[..8]) % 10) % 10
  }

  /** The ACN rule: the digits weighted 8 down to 1, with the check digit, sum to a multiple of ten. */
  lemma {:induction false} AcnExact(d: seq<nat>)
    requires Digits(10, d) && |d| == 9
    ensures AcnOk(d) <==> (Ramp(8, -1, d[..8], 8) + d[8]) % 10 == 0
  {
    hide WeightedSum, Ramp;
    WeightedRamp(ACN_WEIGHTS, d[..8], 8, -1);
    var sum: int := Ramp(8, -1, d[..8], 8);
    TenComplement(sum, d[8]);
  }

  lemma TenComplement(sum: int, c: nat)
    requires c < 10
    ensures (sum + c) % 10 == 0 <==> c == (10 - sum % 10) % 10
  {
  }

  predicate Survives(d: seq<nat>, k: nat, x: nat)
    requires k < |d|
  {
    x != d[k] && AcnOk(d[k := x])
  }

  /** The digits that may replace digit `k` of a valid ACN unnoticed. */
  ghost function Survivors(d: seq<nat>, k: nat): set<nat>
    requires k < |d|
  {
    set x: nat | x < 10 && Survives(d, k, x)
  }

  lemma AcnUpdate(d: seq<nat>, k: nat, x: nat)
    requires Digits(10, d) && AcnOk(d) && k < 8 && x < 10
    ensures AcnOk(d[k := x]) <==> ACN_WEIGHTS[k] * (x - d[k]) % 10 == 0
  {
    hide WeightedSum;
    WeightedUpdate(ACN_WEIGHTS, d[..8], k, x);
    assert d[k := x][..8] == d[..8][k := x];
    CheckDigitMoves(WeightedSum(ACN_WEIGHTS, d[..8]), ACN_WEIGHTS[k] * (x - d[k]));
  }

  lemma CheckDigitMoves(sum: int, change: int)
    ensures (10 - (sum + change) % 10) % 10 == (10 - sum % 10) % 10 <==> change % 10 == 0
  {
  }

  /** The replacements of digit `a` a weight of `w` does not see. */
  predicate Unseen(w: int, a: nat, x: nat) {
    if w == 5 then x != a && x % 2 == a % 2 else w % 2 == 0 && x == (a + 5) % 10
  }

  /** A weight misses exactly the replacements it moves by a multiple of ten. */
  lemma WeightBlindSpots(w: int, a: nat, x: nat)
    requires w in {1, 2, 3, 4, 5, 6, 7, 8} && a < 10 && x < 10 && x != a
    ensures w * (x - a) % 10 == 0 <==> Unseen(w, a, x)
  {
    HalfTurn(a, x);
    MultipleOfTen(w, x - a);
    hide Unseen;
    assert Unseen(w, a, x) <==> if w == 5 then (x - a) % 2 == 0 else w % 2 == 0 && (x - a == 5 || x - a == -5) by {
      UnseenSteps(w, a, x);
    }
  }

  lemma HalfTurn(a: nat, x: nat)
    requires a < 10 && x < 10 && x != a
    ensures x == (a + 5) % 10 <==> x - a == 5 || x - a == -5
    ensures x % 2 == a % 2 <==> (x - a) % 2 == 0
  {
  }

  lemma UnseenSteps(w: int, a: nat, x: nat)
    requires a < 10 && x < 10 && x != a
    ensures Unseen(w, a, x) <==> if w == 5 then (x - a) % 2 == 0 else w % 2 == 0 && (x - a == 5 || x - a == -5)
  {
    HalfTurn(a, x);
  }

  lemma MultipleOfTen(w: int, step: int)
    requires w in {1, 2, 3, 4, 5, 6, 7, 8} && -9 <= step <= 9 && step != 0
    ensures w * step % 10 == 0 <==> if w == 5 then step % 2 == 0 else w % 2 == 0 && (step == 5 || step == -5)
  {
    if w == 5 {
      assert w * step == 10 * (step / 2) + 5 * (step % 2);
    } else if w % 2 == 0 {
      EvenWeight(w, step);
    } else {
      OddWeight(w, step);
    }
  }

  lemma EvenWeight(w: int, step: int)
    requires w in {2, 4, 6, 8} && -9 <= step <= 9 && step != 0
    ensures w * step % 10 == 0 <==> step == 5 || step == -5
  {
    if w == 2 { assert w * step == step * 2; }
    else if w == 4 { assert w * step == step * 4; }
    else if w == 6 { assert w * step == step * 6; }
    else { assert w * step == step * 8; }
  }

  lemma OddWeight(w: int, step: int)
    requires w in {1, 3, 7} && -9 <= step <= 9 && step != 0
    ensures w * step % 10 != 0
  {
    if w == 1 { assert w * step == step; }
    else if w == 3 { assert w * step == step * 3; }
    else { assert w * step == step * 7; }
  }

  /** How many replacements of each digit pass, the check digit last. */
  const ACN_BLIND_SPOTS: seq<nat> := [1, 0, 1, 4, 1, 0, 1, 0, 0]

  /** The check's blind spots are the same for every valid ACN, and exactly these. */
  lemma AcnBlindSpots(d: seq<nat>, k: nat)
    requires Digits(10, d) && AcnOk(d) && k < 9
    ensures |Survivors(d, k)| == ACN_BLIND_SPOTS[k]
  {
    var a := d[k];
    if k < 8 {
      var w := ACN_WEIGHTS[k];
      forall x: nat | x < 10
        ensures Survives(d, k, x) <==> Unseen(w, a, x)
      {
        if x != a {
          AcnUpdate(d, k, x);
          WeightBlindSpots(w, a, x);
        }
      }
      hide AcnOk, Survives;
      if k == 3 {
        SameParity(a, Survivors(d, k));
      } else if w % 2 == 0 {
        assert Survivors(d, k) == {(a + 5) % 10};
      } else {
        assert Survivors(d, k) == {};
      }
    } else {
      forall x: nat | x < 10
        ensures !Survives(d, k, x)
      {
        assert d[k := x][..8] == d[..8];
      }
      assert Survivors(d, k) == {};
    }
  }

  lemma {:induction false} SameParity(a: nat, s: set<nat>)
    requires a < 10 && forall x: nat :: x in s <==> x < 10 && x != a && x % 2 == a % 2
    ensures |s| == 4
  {
    var p: nat := a % 2;
    var all := {p, p + 2, p + 4, p + 6, p + 8};
    forall x: nat
      ensures x in all <==> x < 10 && x % 2 == p
    {
      var h := x / 2;
      assert x == 2 * h + x % 2;
    }
    assert a in all && s == all - {a};
  }

  // The parsers

  function NormaliseAbn(raw: string): Option<string> {
    var d :- Grouped(raw);
    if AbnOk(d) then Some(DigitsToString(d)) else None
  }

  predicate IsValidAcn(raw: string) {
    Grouped(raw).Some? && AcnOk(Grouped(raw).value)
  }

  function DeriveAcn(raw: string): Option<string> {
    var d :- Grouped(raw);
    if AbnOk(d) && AcnOk(d[2..]) then Some(DigitsToString(d[2..])) else None
  }

  /** Normalising again changes nothing, and depends on the digits alone, not on their grouping. */
  lemma NormaliseAbnStable(raw: string, other: string)
    ensures NormaliseAbn(raw).Some? ==> NormaliseAbn(NormaliseAbn(raw).value) == NormaliseAbn(raw)
    ensures WellGrouped(Trim(raw)) && WellGrouped(Trim(other)) ==>
      (DigitsOf(Trim(raw)) == DigitsOf(Trim(other)) ==> NormaliseAbn(raw) == NormaliseAbn(other))
  {
    hide AbnOk;
    if NormaliseAbn(raw).Some? {
      AbnLength(Grouped(raw).value);
      BareDigitsRead(Grouped(raw).value);
    }
  }

  lemma AbnLength(d: seq<int>)
    ensures AbnOk(d) ==> |d| == 11
  {
  }

  lemma {:induction false} BareExact(ds: seq<nat>, bare: string)
    requires Digits(10, ds)
    ensures DigitsToString(ds) == bare <==> AllDigits(bare) && DigitValues(bare) == ds
  {
    if AllDigits(bare) && DigitValues(bare) == ds {
      assert forall k | 0 <= k < |bare| :: DigitChar(DigitValue(bare[k])) == bare[k];
    }
  }

  /** A text normalises to a bare ABN exactly when it is that ABN's eleven digits grouped, and they pass the check. */
  lemma {:induction false} NormaliseAbnExact(raw: string, bare: string)
    ensures NormaliseAbn(raw) == Some(bare) <==>
      |bare| == 11 && AllDigits(bare) && SpelledAs(Trim(raw), DigitValues(bare)) && AbnOk(DigitValues(bare))
  {
    hide Trim, SpelledAs, Grouped, DigitsToString, AbnOk;
    if Grouped(raw).Some? {
      var ds := Grouped(raw).value;
      GroupedExact(raw, ds);
      BareExact(ds, bare);
      AbnLength(ds);
    }
    if AllDigits(bare) {
      GroupedExact(raw, DigitValues(bare));
      AbnLength(DigitValues(bare));
      BareExact(DigitValues(bare), bare);
    }
  }

  /** An ACN is derived exactly from an ABN whose last nine digits are one. */
  lemma {:induction false} DeriveAcnExact(raw: string, acn: string)
    ensures DeriveAcn(raw) == Some(acn) <==>
      && NormaliseAbn(raw).Some? && |NormaliseAbn(raw).value| == 11
      && acn == NormaliseAbn(raw).value[2..] && AllDigits(acn) && AcnOk(DigitValues(acn))
  {
    hide Grouped, AbnOk, AcnOk;
    if NormaliseAbn(raw).Some? {
      var d := Grouped(raw).value;
      AbnLength(d);
      assert DigitsToString(d)[2..] == DigitsToString(d[2..]);
      assert DigitValues(DigitsToString(d[2..])) == d[2..];
    }
  }

  /** The ACN taken from an ABN is one the ACN check accepts. */
  lemma DerivedAcnIsValid(raw: string)
    ensures DeriveAcn(raw).Some? ==> IsValidAcn(DeriveAcn(raw).value)
  {
    if DeriveAcn(raw).Some? {
      BareDigitsRead(Grouped(raw).value[2..]);
    }
  }

  // Classifying a token

  /** Six digits, whole or with one separator in the middle. */
  function NormaliseBsb(raw: string): Option<string> {
    var s := Trim(raw);
    if |s| == 6 && AllDigits(s) then Some(s)
    else if |s| == 7 && IsSeparator(s[3]) && AllDigits(s[..3]) && AllDigits(s[4..]) then Some(s[..3] + s[4..])
    else None
  }

  const INSTITUTIONS: seq<(string, string)> :=
    [("182", "Macquarie Bank"), ("183", "Macquarie Bank"), ("193", "Bank of Melbourne"), ("105", "BankSA"),
     ("124", "Bank of Queensland"), ("484", "Suncorp Bank"), ("923", "ING"), ("939", "AMP Bank"),
     ("01", "ANZ"), ("03", "Westpac"), ("06", "Commonwealth Bank"), ("08", "NAB"),
     ("11", "St George Bank"), ("30", "Bankwest"), ("63", "Bendigo Bank")]

  /** The first row of a table whose prefix starts `bsb`. */
  function FirstPrefix(table: seq<(string, string)>, bsb: string): Option<(string, string)> {
    if table == [] then None
    else if table[0].0 <= bsb then Some(table[0])
    else FirstPrefix(table[1..], bsb)
  }

  function BsbInstitution(raw: string): Option<string> {
    var bsb :- NormaliseBsb(raw);
    var row :- FirstPrefix(INSTITUTIONS, bsb);
    Some(row.1)
  }

  ghost predicate LongestFirst(table: seq<(string, string)>) {
    forall j, k | 0 <= j < k < |table| :: |table[k].0| <= |table[j].0|
  }

  /** In a table with the longest prefixes first, the row found is that of the longest prefix. */
  lemma {:induction false} PrefixLongest(table: seq<(string, string)>, bsb: string)
    requires LongestFirst(table)
    ensures FirstPrefix(table, bsb).None? <==> forall row | row in table :: !(row.0 <= bsb)
    ensures FirstPrefix(table, bsb).Some? ==>
      var found := FirstPrefix(table, bsb).value;
      found in table && found.0 <= bsb && forall row | row in table && row.0 <= bsb :: |row.0| <= |found.0|
    decreases |table|
  {
    if table != [] {
      PrefixLongest(table[1..], bsb);
      assert table == [table[0]] + table[1..];
    }
  }

  lemma InstitutionsLongestFirst()
    ensures LongestFirst(INSTITUTIONS)
  {
  }

  datatype Identifier =
    | Abn(bare: string, acn: Option<string>)
    | Acn(bare: string)
    | Bsb(bare: string, institution: Option<string>)

  function Classify(raw: string): Option<Identifier> {
    if NormaliseAbn(raw).Some? then
      var bare := NormaliseAbn(raw).value;
      Some(Abn(bare, DeriveAcn(bare)))
    else if IsValidAcn(raw) then Some(Acn(DigitsToString(Grouped(raw).value)))
    else if NormaliseBsb(raw).Some? then
      var bare := NormaliseBsb(raw).value;
      Some(Bsb(bare, BsbInstitution(bare)))
    else None
  }

  lemma {:induction false} DigitsCounted(s: string)
    ensures |DigitsOf(s)| <= |s|
  {
    if |s| > 0 {
      DigitsCounted(s[..|s| - 1]);
    }
  }

  lemma ReadLengths(raw: string)
    ensures NormaliseAbn(raw).Some? ==> |NormaliseAbn(raw).value| == 11 && |Grouped(raw).value| == 11
    ensures IsValidAcn(raw) ==> |Grouped(raw).value| == 9
    ensures NormaliseBsb(raw).Some? ==> |NormaliseBsb(raw).value| == 6
    ensures NormaliseBsb(raw).Some? && Grouped(raw).Some? ==> |Grouped(raw).value| <= 7
  {
    DigitsCounted(Trim(raw));
    hide Trim, DigitsOf, WellGrouped;
    if NormaliseAbn(raw).Some? {
      AbnLength(Grouped(raw).value);
    }
  }

  /** No token is two of the three: eleven digits, nine and six. */
  lemma ClassifyExclusive(raw: string)
    ensures !(NormaliseAbn(raw).Some? && IsValidAcn(raw))
    ensures !(NormaliseAbn(raw).Some? && NormaliseBsb(raw).Some?)
    ensures !(IsValidAcn(raw) && NormaliseBsb(raw).Some?)
  {
    hide NormaliseAbn, IsValidAcn, NormaliseBsb, Grouped;
    ReadLengths(raw);
    if NormaliseAbn(raw).Some? || IsValidAcn(raw) {
      GroupedRead(raw);
    }
  }

  lemma GroupedRead(raw: string)
    requires NormaliseAbn(raw).Some? || IsValidAcn(raw)
    ensures Grouped(raw).Some?
  {
  }

  /** Six digits, alone or with a hyphen or a space in the middle. */
  lemma {:induction false} NormaliseBsbExact(raw: string, bare: string)
    ensures NormaliseBsb(raw) == Some(bare) <==>
      && |bare| == 6 && AllDigits(bare)
      && (Trim(raw) == bare || Trim(raw) == bare[..3] + "-" + bare[3..] || Trim(raw) == bare[..3] + " " + bare[3..])
  {
    hide Trim;
    var s := Trim(raw);
    if |s| == 7 {
      assert s == s[..3] + [s[3]] + s[4..];
      var joined := s[..3] + s[4..];
      assert joined[..3] == s[..3] && joined[3..] == s[4..];
      assert forall k | 0 <= k < 6 :: joined[k] == if k < 3 then s[..3][k] else s[4..][k - 3];
    }
    if |bare| == 6 {
      HalvesRead(bare, '-');
      HalvesRead(bare, ' ');
    }
  }

  lemma HalvesRead(bare: string, c: char)
    requires |bare| == 6
    ensures var s := bare[..3] + [c] + bare[3..];
      && |s| == 7 && s[3] == c && s[..3] + s[4..] == bare
      && (AllDigits(bare) ==> AllDigits(s[..3]) && AllDigits(s[4..]))
  {
    var s := bare[..3] + [c] + bare[3..];
    assert s[..3] == bare[..3] && s[4..] == bare[3..];
  }

  /** What a token is: an ABN with the ACN inside it, if any, an ACN, a BSB with its institution, or nothing. */
  lemma {:induction false} ClassifyExact(raw: string, bare: string)
    ensures Classify(raw).None? <==> NormaliseAbn(raw).None? && !IsValidAcn(raw) && NormaliseBsb(raw).None?
    ensures Classify(raw) == Some(Abn(bare, DeriveAcn(bare))) <==> NormaliseAbn(raw) == Some(bare)
    ensures Classify(raw) == Some(Acn(bare)) <==>
      AllDigits(bare) && SpelledAs(Trim(raw), DigitValues(bare)) && AcnOk(DigitValues(bare))
    ensures Classify(raw) == Some(Bsb(bare, BsbInstitution(bare))) <==> NormaliseBsb(raw) == Some(bare)
  {
    hide Trim, SpelledAs, Grouped, DigitsToString, AbnOk, AcnOk, NormaliseAbn, NormaliseBsb, DeriveAcn, BsbInstitution;
    ClassifyExclusive(raw);
    if Grouped(raw).Some? {
      GroupedExact(raw, Grouped(raw).value);
      BareExact(Grouped(raw).value, bare);
    }
    if AllDigits(bare) {
      GroupedExact(raw, DigitValues(bare));
      BareExact(DigitValues(bare), bare);
    }
  }

  /** The bare form of an identifier is classified as that identifier. */
  lemma ClassifyBare(raw: string)
    requires Classify(raw).Some?
    ensures Classify(Classify(raw).value.bare) == Classify(raw)
  {
    hide AbnOk, AcnOk, WellGrouped, Trim, DigitsToString, DigitsOf;
    var bare := Classify(raw).value.bare;
    ReadLengths(raw);
    ReadLengths(bare);
    ClassifyExclusive(raw);
    if NormaliseAbn(raw).Some? {
      NormaliseAbnStable(raw, raw);
    } else if IsValidAcn(raw) {
      BareDigitsRead(Grouped(raw).value);
      ClassifyExclusive(bare);
    } else {
      BsbBare(raw);
      ClassifyExclusive(bare);
    }
  }

  lemma BsbBare(raw: string)
    requires NormaliseBsb(raw).Some?
    ensures NormaliseBsb(NormaliseBsb(raw).value) == NormaliseBsb(raw)
  {
    TrimKeeps(NormaliseBsb(raw).value);
  }
}
