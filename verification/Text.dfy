/** The parts of Rust's `str` the parsers use, over Unicode scalar values. */
module Text {

  /** Unicode White_Space, which `trim` removes. */
  predicate IsWhitespace(c: char) {
    var n := c as int;
    9 <= n <= 13 || n in {0x20, 0x85, 0xA0, 0x1680, 0x2028, 0x2029, 0x202F, 0x205F, 0x3000}
    || 0x2000 <= n <= 0x200A
  }

  function TrimStart(s: string): string {
    if |s| > 0 && IsWhitespace(s[0]) then TrimStart(s[1..]) else s
  }

  function TrimEnd(s: string): string {
    if |s| > 0 && IsWhitespace(s[|s| - 1]) then TrimEnd(s[..|s| - 1]) else s
  }

  function Trim(s: string): string {
    TrimEnd(TrimStart(s))
  }

  ghost predicate Blank(s: string) {
    forall k | 0 <= k < |s| :: IsWhitespace(s[k])
  }

  lemma {:induction false} TrimStartSplit(s: string) returns (before: string)
    ensures s == before + TrimStart(s) && Blank(before)
    ensures TrimStart(s) == [] || !IsWhitespace(TrimStart(s)[0])
  {
    before := [];
    if |s| > 0 && IsWhitespace(s[0]) {
      var rest := TrimStartSplit(s[1..]);
      before := [s[0]] + rest;
    }
  }

  lemma {:induction false} TrimEndSplit(s: string) returns (after: string)
    ensures s == TrimEnd(s) + after && Blank(after)
    ensures TrimEnd(s) == [] || !IsWhitespace(TrimEnd(s)[|TrimEnd(s)| - 1])
  {
    after := [];
    if |s| > 0 && IsWhitespace(s[|s| - 1]) {
      var rest := TrimEndSplit(s[..|s| - 1]);
      after := rest + [s[|s| - 1]];
    }
  }

  /** Trimming cuts white space off both ends and nothing else. */
  lemma TrimSplit(s: string) returns (before: string, after: string)
    ensures s == before + Trim(s) + after && Blank(before) && Blank(after)
  {
    before := TrimStartSplit(s);
    after := TrimEndSplit(TrimStart(s));
  }

  lemma TrimKeeps(s: string)
    requires s == [] || (!IsWhitespace(s[0]) && !IsWhitespace(s[|s| - 1]))
    ensures Trim(s) == s
  {
  }

  lemma {:induction false} TrimStartPast(before: string, s: string)
    requires Blank(before)
    ensures TrimStart(before + s) == TrimStart(s)
    decreases |before|
  {
    hide IsWhitespace;
    if before == "" {
      assert before + s == s;
    } else {
      TrimStartPast(before[1..], s);
      assert (before + s)[1..] == before[1..] + s;
    }
  }

  lemma {:induction false} TrimEndPast(s: string, after: string)
    requires Blank(after)
    ensures TrimEnd(s + after) == TrimEnd(s)
    decreases |after|
  {
    hide IsWhitespace;
    if after == "" {
      assert s + after == s;
    } else {
      var n := |after| - 1;
      TrimEndPast(s, after[..n]);
      assert (s + after)[..|s| + n] == s + after[..n];
    }
  }

  /** `s` is `t` between white space, and `t` neither starts nor ends with any. */
  ghost predicate TrimsTo(s: string, t: string) {
    && (t == "" || (!IsWhitespace(t[0]) && !IsWhitespace(t[|t| - 1])))
    && exists before, after :: Blank(before) && Blank(after) && s == before + t + after
  }

  lemma {:induction false} TrimBetween(before: string, t: string, after: string)
    requires Blank(before) && Blank(after)
    requires t == "" || (!IsWhitespace(t[0]) && !IsWhitespace(t[|t| - 1]))
    ensures Trim(before + t + after) == t
  {
    hide IsWhitespace, Blank;
    assert before + t + after == before + (t + after);
    TrimStartPast(before, t + after);
    if t == "" {
      assert t + after == after + "" && "" + after == after;
      TrimStartPast(after, "");
    } else {
      assert TrimStart(t + after) == t + after;
      TrimEndPast(t, after);
    }
  }

  /** Trimming finds the one text that white space alone surrounds. */
  lemma {:induction false} TrimExact(s: string, t: string)
    ensures Trim(s) == t <==> TrimsTo(s, t)
  {
    hide IsWhitespace, Blank, Trim;
    if Trim(s) == t {
      var before, after := TrimSplit(s);
      TrimEnds(s);
    }
    if TrimsTo(s, t) {
      var before, after :| Blank(before) && Blank(after) && s == before + t + after;
      TrimBetween(before, t, after);
    }
  }

  lemma {:induction false} TrimEnds(s: string)
    ensures Trim(s) == "" || (!IsWhitespace(Trim(s)[0]) && !IsWhitespace(Trim(s)[|Trim(s)| - 1]))
  {
    hide IsWhitespace, Blank;
    var before := TrimStartSplit(s);
    var after := TrimEndSplit(TrimStart(s));
  }

  predicate IsDigit(c: char) {
    '0' <= c <= '9'
  }

  predicate AllDigits(s: string) {
    forall k | 0 <= k < |s| :: IsDigit(s[k])
  }

  function DigitValue(c: char): (v: nat)
    requires IsDigit(c)
    ensures v < 10
  {
    c as int - '0' as int
  }

  function DigitChar(v: nat): (c: char)
    requires v < 10
    ensures IsDigit(c) && DigitValue(c) == v
  {
    '0' + v as char
  }

  /** The digits a digit string writes. */
  function DigitValues(s: string): (ds: seq<nat>)
    requires AllDigits(s)
    ensures |ds| == |s|
    ensures forall k | 0 <= k < |s| :: ds[k] == DigitValue(s[k]) < 10
  {
    seq(|s|, k requires 0 <= k < |s| => DigitValue(s[k]))
  }

  predicate IsLower(c: char) {
    'a' <= c <= 'z'
  }

  predicate IsUpper(c: char) {
    'A' <= c <= 'Z'
  }

  predicate IsAlnum(c: char) {
    IsLower(c) || IsUpper(c) || IsDigit(c)
  }

  /** The ASCII letters and digits of a string. */
  function Alnums(s: string): string {
    if s == "" then "" else (if IsAlnum(s[0]) then [s[0]] else "") + Alnums(s[1..])
  }

  function LowerChar(c: char): char {
    if 'A' <= c <= 'Z' then c + 32 as char else c
  }

  function UpperChar(c: char): char {
    if 'a' <= c <= 'z' then c - 32 as char else c
  }

  /** `to_ascii_lowercase`. */
  function Lower(s: string): (t: string)
    ensures |t| == |s| && forall k | 0 <= k < |s| :: t[k] == LowerChar(s[k])
  {
    seq(|s|, k requires 0 <= k < |s| => LowerChar(s[k]))
  }

  /** `to_ascii_uppercase`. */
  function Upper(s: string): (t: string)
    ensures |t| == |s| && forall k | 0 <= k < |s| :: t[k] == UpperChar(s[k])
  {
    seq(|s|, k requires 0 <= k < |s| => UpperChar(s[k]))
  }

  /** `needle` stands in `s` at offset `at`. */
  predicate FoundAt<T(==)>(s: seq<T>, needle: seq<T>, at: int) {
    0 <= at <= |s| - |needle| && s[at..at + |needle|] == needle
  }

  predicate Contains<T(==)>(s: seq<T>, needle: seq<T>) {
    exists at | 0 <= at <= |s| :: FoundAt(s, needle, at)
  }

  /** The first offset at or after `from` at which `needle` stands. */
  function FindFrom<T(==)>(s: seq<T>, needle: seq<T>, from: nat): (r: int)
    requires from <= |s|
    ensures r == -1 || (from <= r && FoundAt(s, needle, r))
    ensures forall at | from <= at < (if r == -1 then |s| + 1 else r) :: !FoundAt(s, needle, at)
    decreases |s| - from
  {
    if FoundAt(s, needle, from) then from
    else if from == |s| then -1
    else FindFrom(s, needle, from + 1)
  }

  /** What follows the first `needle` of `s`. */
  function After<T(==)>(s: seq<T>, needle: seq<T>): (r: seq<T>)
    requires FindFrom(s, needle, 0) != -1
  {
    s[FindFrom(s, needle, 0) + |needle|..]
  }

  // Lexicographic order

  predicate Less(s: string, t: string) {
    |t| > 0 && (|s| == 0 || s[0] < t[0] || (s[0] == t[0] && Less(s[1..], t[1..])))
  }

  lemma {:induction false} LessTransitive(s: string, t: string, u: string)
    requires Less(s, t) && Less(t, u)
    ensures Less(s, u)
  {
    if |s| > 0 && s[0] == t[0] == u[0] {
      LessTransitive(s[1..], t[1..], u[1..]);
    }
  }

  lemma {:induction false} LessTotal(s: string, t: string)
    ensures Less(s, t) || s == t || Less(t, s)
    ensures !(Less(s, t) && Less(t, s)) && !Less(s, s)
  {
    if |s| > 0 && |t| > 0 && s[0] == t[0] {
      LessTotal(s[1..], t[1..]);
      assert s[1..] == t[1..] ==> s == [s[0]] + s[1..] == t;
    }
    if |s| > 0 {
      LessIrreflexive(s);
    }
  }

  lemma {:induction false} LessIrreflexive(s: string)
    ensures !Less(s, s)
  {
    if |s| > 0 {
      LessIrreflexive(s[1..]);
    }
  }

  /** `s` is a proper prefix of `t`, or has the smaller character where they first differ. */
  ghost predicate Precedes(s: string, t: string) {
    exists n: nat :: FirstDifference(s, t, n)
  }

  ghost predicate FirstDifference(s: string, t: string, n: nat) {
    && n <= |s| && n < |t| && (forall k | 0 <= k < n :: s[k] == t[k])
    && (n == |s| || s[n] < t[n])
  }

  /** The order is that of the characters, first to last. */
  lemma {:induction false} LessExact(s: string, t: string)
    ensures Less(s, t) <==> Precedes(s, t)
    decreases |s|
  {
    if |s| > 0 && |t| > 0 && s[0] == t[0] {
      LessExact(s[1..], t[1..]);
      if n: nat :| FirstDifference(s[1..], t[1..], n) {
        assert FirstDifference(s, t, n + 1);
      }
      if n: nat :| FirstDifference(s, t, n) {
        assert n > 0 && FirstDifference(s[1..], t[1..], n - 1);
      }
    } else if Less(s, t) {
      assert FirstDifference(s, t, 0);
    }
  }

  /** Case changes the twenty-six letters, each to its own, and nothing else. */
  lemma CaseExact(c: char)
    ensures LowerChar(c) as int == if 65 <= c as int <= 90 then c as int + 32 else c as int
    ensures UpperChar(c) as int == if 97 <= c as int <= 122 then c as int - 32 else c as int
    ensures IsAlnum(c) <==> 48 <= c as int <= 57 || 65 <= c as int <= 90 || 97 <= c as int <= 122
  {
  }
}
