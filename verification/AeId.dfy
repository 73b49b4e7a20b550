/**
 United Arab Emirates identifiers: the Luhn-checked Emirates ID number and the IBAN under ISO 7064
 MOD 97-10, as ISO 13616 uses it.
 */
module AeId {
  import opened Prelude
  import opened Positional
  import opened Text

  // Luhn (ISO/IEC 7812-1)

  /** What a digit adds to the Luhn sum. */
  function LuhnTerm(v: nat, doubled: bool): nat {
    if !doubled then v else if v * 2 > 9 then v * 2 - 9 else v * 2
  }

  /** The Luhn sum, every second digit from the right doubled. */
  function LuhnSum(ds: seq<nat>): nat {
    if |ds| == 0 then 0 else LuhnTerm(ds[0], (|ds| - 1) % 2 == 1) + LuhnSum(ds[1..])
  }

  predicate LuhnOk(ds: seq<nat>) {
    LuhnSum(ds) % 10 == 0
  }

  lemma LuhnTermInjective(v: nat, w: nat, doubled: bool)
    requires v < 10 && w < 10
    ensures LuhnTerm(v, doubled) < 10
    ensures LuhnTerm(v, doubled) == LuhnTerm(w, doubled) ==> v == w
  {
  }

  lemma {:induction false} LuhnUpdate(ds: seq<nat>, k: nat, d: nat)
    requires k < |ds|
    ensures var doubled := (|ds| - 1 - k) % 2 == 1;
      LuhnSum(ds[k := d]) == LuhnSum(ds) - LuhnTerm(ds[k], doubled) + LuhnTerm(d, doubled)
  {
    hide LuhnTerm;
    if k == 0 {
      assert ds[k := d][1..] == ds[1..];
    } else {
      assert ds[k := d][1..] == ds[1..][k - 1 := d];
      LuhnUpdate(ds[1..], k - 1, d);
    }
  }

  /** Luhn catches every error in one digit, in a number of any length. */
  lemma LuhnCatchesSubstitution(ds: seq<nat>, k: nat, d: nat)
    requires Digits(10, ds) && LuhnOk(ds) && k < |ds| && d < 10 && d != ds[k]
    ensures !LuhnOk(ds[k := d])
  {
    hide LuhnTerm, LuhnSum;
    LuhnUpdate(ds, k, d);
    LuhnTermInjective(ds[k], d, (|ds| - 1 - k) % 2 == 1);
    LuhnTermInjective(d, ds[k], (|ds| - 1 - k) % 2 == 1);
  }

  /** Luhn catches an adjacent transposition exactly when it is not of a 0 and a 9. */
  lemma LuhnTransposition(ds: seq<nat>, k: nat)
    requires Digits(10, ds) && LuhnOk(ds) && k + 1 < |ds| && ds[k] != ds[k + 1]
    ensures LuhnOk(ds[k := ds[k + 1]][k + 1 := ds[k]]) <==> {ds[k], ds[k + 1]} == {0, 9}
  {
    hide LuhnSum, LuhnTerm;
    var a, b := ds[k], ds[k + 1];
    var first := (|ds| - 1 - k) % 2 == 1;
    LuhnUpdate(ds, k, b);
    LuhnUpdate(ds[k := b], k + 1, a);
    assert ((|ds| - 1 - (k + 1)) % 2 == 1) == !first;
    TranspositionTerms(a, b, first);
    assert {a, b} == {0, 9} <==> (a == 0 && b == 9) || (a == 9 && b == 0) by {
      assert a in {a, b} && b in {a, b};
    }
  }

  lemma TranspositionTerms(a: nat, b: nat, doubled: bool)
    requires a < 10 && b < 10 && a != b
    ensures var change := LuhnTerm(b, doubled) - LuhnTerm(a, doubled) + LuhnTerm(a, !doubled) - LuhnTerm(b, !doubled);
      change % 10 == 0 <==> (a == 0 && b == 9) || (a == 9 && b == 0)
  {
  }

  // Which numbers pass

  /** The sum of a number's decimal digits, for numbers below a hundred. */
  ghost function DigitSum(n: nat): nat {
    n / 10 + n % 10
  }

  /** The payload's sum: every second digit, from the last one leftwards, replaced by the digit sum of its double. */
  ghost function PayloadSum(ds: seq<nat>): nat {
    var n := |ds|;
    if n == 0 then 0
    else if n == 1 then DigitSum(2 * ds[0])
    else PayloadSum(ds[..n - 2]) + ds[n - 2] + DigitSum(2 * ds[n - 1])
  }

  lemma {:induction false} LuhnAppend2(ds: seq<nat>, a: nat, b: nat)
    ensures LuhnSum(ds + [a, b]) == LuhnSum(ds) + LuhnTerm(a, true) + LuhnTerm(b, false)
    decreases |ds|
  {
    hide LuhnTerm;
    if ds == [] {
      assert ds + [a, b] == [a, b] && [a, b][1..] == [b] && [b][1..] == [];
    } else {
      LuhnAppend2(ds[1..], a, b);
      assert (ds + [a, b])[1..] == ds[1..] + [a, b];
    }
  }

  lemma TermIsDigitSum(v: nat)
    requires v < 10
    ensures LuhnTerm(v, true) == DigitSum(2 * v) && LuhnTerm(v, false) == v
  {
  }

  lemma {:induction false} LuhnPayload(ds: seq<nat>, c: nat)
    requires Digits(10, ds) && c < 10
    ensures LuhnSum(ds + [c]) == PayloadSum(ds) + c
    decreases |ds|
  {
    hide LuhnTerm, DigitSum;
    var n := |ds|;
    TermIsDigitSum(c);
    if n == 0 {
      assert [] + [c] == [c] && [c][1..] == [];
    } else {
      var rest, last := ds[..n - 1], ds[n - 1];
      TermIsDigitSum(last);
      assert ds + [c] == rest + [last, c];
      LuhnAppend2(rest, last, c);
      if n == 1 {
        assert rest == [];
      } else {
        LuhnPayload(ds[..n - 2], ds[n - 2]);
        assert rest == ds[..n - 2] + [ds[n - 2]];
      }
    }
  }

  /** The check digit of a payload: what brings its sum to a multiple of ten. */
  ghost function CheckDigit(ds: seq<nat>): (c: nat)
    ensures c < 10
  {
    (10 - PayloadSum(ds) % 10) % 10
  }

  /** A number of any length passes exactly when its last digit is the check digit of the rest. */
  lemma LuhnExact(ds: seq<nat>, c: nat)
    requires Digits(10, ds) && c < 10
    ensures LuhnOk(ds + [c]) <==> c == CheckDigit(ds)
  {
    LuhnPayload(ds, c);
    hide PayloadSum, LuhnSum;
    TenComplement(PayloadSum(ds), c);
  }

  lemma TenComplement(sum: nat, c: nat)
    requires c < 10
    ensures (sum + c) % 10 == 0 <==> c == (10 - sum % 10) % 10
  {
  }

  // The Emirates ID number

  const UAE_NUMERIC: string := "784"
  const EMIRATES_ID_DIGITS: nat := 15
  const GROUPS: seq<nat> := [3, 4, 7, 1]

  /** What may stand between two printed groups. */
  predicate IsSeparator(s: string) {
    s == "" || s == "-" || s == " "
  }

  /** Where the digits of group `group` start, when the groups before it end at `at`. */
  function GroupStart(s: string, group: nat, at: nat): nat {
    if group > 0 && at < |s| && (s[at] == '-' || s[at] == ' ') then at + 1 else at
  }

  /** Where the first `groups` groups of `s` end and the digits they hold. */
  function ReadGroups(s: string, groups: nat): (r: Option<(nat, string)>)
    requires groups <= |GROUPS|
    ensures r.Some? ==> r.value.0 <= |s|
  {
    if groups == 0 then Some((0, []))
    else
      var (at, digits) :- ReadGroups(s, groups - 1);
      var start := GroupStart(s, groups - 1, at);
      var end := start + GROUPS[groups - 1];
      if end <= |s| && AllDigits(s[start..end]) then Some((end, digits + s[start..end])) else None
  }

  lemma ReadGroupsNext(s: string, g: nat)
    requires g < |GROUPS| && ReadGroups(s, g).Some?
    ensures var (at, digits) := ReadGroups(s, g).value;
      var start := GroupStart(s, g, at);
      var end := start + GROUPS[g];
      ReadGroups(s, g + 1)
      == if end <= |s| && AllDigits(s[start..end]) then Some((end, digits + s[start..end])) else None
  {
  }

  lemma {:induction false} ReadGroupsFails(s: string, g: nat, h: nat)
    requires g <= h <= |GROUPS| && ReadGroups(s, g).None?
    ensures ReadGroups(s, h).None?
  {
    if g < h {
      ReadGroupsFails(s, g, h - 1);
    }
  }

  /** One more group is read after the separator before it, when `s` goes on with both. */
  lemma ReadGroupsStep(s: string, g: nat, prefix: string, digits: string, separator: string, group: string)
    requires g < |GROUPS| && ReadGroups(s, g) == Some((|prefix|, digits))
    requires IsSeparator(separator) && (g == 0 ==> separator == "")
    requires |group| == GROUPS[g] && AllDigits(group)
    requires prefix + (separator + group) <= s
    ensures ReadGroups(s, g + 1) == Some((|prefix + (separator + group)|, digits + group))
  {
    var read := prefix + (separator + group);
    var start := |prefix| + |separator|;
    assert forall k | 0 <= k < |read| :: read[k] == s[k];
    assert IsDigit(group[0]) && s[start] == read[start] == group[0];
    assert |separator| > 0 ==> s[|prefix|] == read[|prefix|] == separator[0];
    assert GroupStart(s, g, |prefix|) == start;
    assert s[start..start + |group|] == group;
  }

  predicate ValidEmiratesId(d: string) {
    && |d| == EMIRATES_ID_DIGITS && AllDigits(d)
    && d[..3] == UAE_NUMERIC && LuhnOk(DigitValues(d))
  }

  function EmiratesIdSpec(raw: string): Option<string> {
    var s := Trim(raw);
    var (at, digits) :- ReadGroups(s, |GROUPS|);
    if at == |s| && ValidEmiratesId(digits) then Some(digits) else None
  }

  /** The digits of one group, when they are all there. */
  method ReadGroup(s: string, start: nat, size: nat) returns (r: Option<string>)
    requires start <= |s|
    ensures r == if start + size <= |s| && AllDigits(s[start..start + size])
                 then Some(s[start..start + size]) else None
  {
    var digits: string := [];
    var at := start;
    while at < start + size
      invariant start <= at <= start + size && at <= |s|
      invariant AllDigits(s[start..at]) && digits == s[start..at]
    {
      if at == |s| || !IsDigit(s[at]) {
        assert start + size <= |s| ==> s[start..start + size][at - start] == s[at];
        return None;
      }
      assert s[start..at + 1] == s[start..at] + [s[at]];
      digits := digits + [s[at]];
      at := at + 1;
    }
    return Some(digits);
  }

  method EmiratesId(raw: string) returns (r: Option<string>)
    ensures r == EmiratesIdSpec(raw)
  {
    hide LuhnSum, Trim, ReadGroups, AllDigits;
    var s := Trim(raw);
    var digits: string := [];
    var at := 0;
    var group := 0;
    ReadNone(s);
    while group < |GROUPS|
      invariant 0 <= group <= |GROUPS|
      invariant ReadGroups(s, group) == Some((at, digits))
    {
      var size := GROUPS[group];
      if group > 0 && at < |s| && (s[at] == '-' || s[at] == ' ') {
        at := at + 1;
      }
      var taken := ReadGroup(s, at, size);
      ReadGroupsNext(s, group);
      if taken.None? {
        ReadGroupsFails(s, group + 1, |GROUPS|);
        return None;
      }
      digits := digits + taken.value;
      at := at + size;
      group := group + 1;
    }
    if at < |s| || !ValidEmiratesId(digits) {
      return None;
    }
    return Some(digits);
  }

  /** The fifteen digits `d` in their printed groups, with the given separators between. */
  function Written(d: string, a: string, b: string, c: string): string
    requires |d| == EMIRATES_ID_DIGITS
  {
    d[..3] + (a + d[3..7]) + (b + d[7..14]) + (c + d[14..])
  }

  lemma WrittenReads(d: string, a: string, b: string, c: string)
    requires ValidEmiratesId(d) && IsSeparator(a) && IsSeparator(b) && IsSeparator(c)
    ensures var s := Written(d, a, b, c); ReadGroups(s, |GROUPS|) == Some((|s|, d))
  {
    hide LuhnOk, ReadGroups, AllDigits, Written, IsSeparator;
    var d0, d1, d2, d3 := d[..3], d[3..7], d[7..14], d[14..];
    var p1 := [] + ("" + d0);
    var p2 := p1 + (a + d1);
    var p3 := p2 + (b + d2);
    var s := p3 + (c + d3);
    WrittenWhole(d, a, b, c);
    GroupDigits(d);
    NoSeparator();
    PrefixOf(p2, b + d2, c + d3);
    PrefixOf(p1, a + d1, b + d2);
    PrefixTransitive(p1, p2, p3);
    PrefixTransitive(p1, p3, s);
    ReadNone(s);
    ReadGroupsStep(s, 0, [], "", "", d0);
    ReadGroupsStep(s, 1, p1, "" + d0, a, d1);
    ReadGroupsStep(s, 2, p2, "" + d0 + d1, b, d2);
    ReadGroupsStep(s, 3, p3, "" + d0 + d1 + d2, c, d3);
  }

  lemma NoSeparator()
    ensures IsSeparator("")
  {
  }

  lemma WrittenWhole(d: string, a: string, b: string, c: string)
    requires |d| == EMIRATES_ID_DIGITS
    ensures Written(d, a, b, c) == [] + ("" + d[..3]) + (a + d[3..7]) + (b + d[7..14]) + (c + d[14..])
    ensures "" + d[..3] + d[3..7] + d[7..14] + d[14..] == d
  {
    assert [] + ("" + d[..3]) == d[..3];
  }

  lemma GroupDigits(d: string)
    requires |d| == EMIRATES_ID_DIGITS && AllDigits(d)
    ensures AllDigits(d[..3]) && AllDigits(d[3..7]) && AllDigits(d[7..14]) && AllDigits(d[14..])
  {
  }

  lemma PrefixOf(p: string, g: string, h: string)
    ensures p <= p + g <= p + g + h
  {
  }

  lemma PrefixTransitive(p: string, q: string, s: string)
    requires p <= q <= s
    ensures p <= s
  {
  }

  lemma ReadGroupsBefore(s: string, g: nat)
    requires 0 < g <= |GROUPS| && ReadGroups(s, g).Some?
    ensures ReadGroups(s, g - 1).Some?
  {
    hide AllDigits, GroupStart;
  }

  /** The last group read, its separator, and where the groups before it end. */
  lemma ReadGroupsLast(s: string, g: nat) returns (before: nat, separator: string, group: string)
    requires 0 < g <= |GROUPS| && ReadGroups(s, g).Some?
    ensures IsSeparator(separator) && (g == 1 ==> separator == "")
    ensures |group| == GROUPS[g - 1] && AllDigits(group)
    ensures ReadGroups(s, g - 1).Some? && ReadGroups(s, g - 1).value.0 == before
    ensures before <= ReadGroups(s, g).value.0
    ensures s[..ReadGroups(s, g).value.0] == s[..before] + (separator + group)
    ensures ReadGroups(s, g).value.1 == ReadGroups(s, g - 1).value.1 + group
  {
    hide ReadGroups, AllDigits;
    ReadGroupsBefore(s, g);
    ReadGroupsNext(s, g - 1);
    before := ReadGroups(s, g - 1).value.0;
    var start, end := GroupStart(s, g - 1, before), ReadGroups(s, g).value.0;
    separator, group := s[before..start], s[start..end];
    if start > before {
      assert separator == [s[before]];
    }
    assert s[..end] == s[..before] + (separator + group);
  }

  /** Whatever the reader reads to its end is a writing of the digits read. */
  lemma ReadIsWritten(s: string, d: string) returns (a: string, b: string, c: string)
    requires ReadGroups(s, |GROUPS|) == Some((|s|, d)) && |d| == EMIRATES_ID_DIGITS
    ensures IsSeparator(a) && IsSeparator(b) && IsSeparator(c) && s == Written(d, a, b, c)
  {
    hide ReadGroups, AllDigits, IsSeparator;
    var p3, g3, p2, g2, p1, g1, p0, e, g0;
    p3, c, g3 := ReadGroupsLast(s, 4);
    p2, b, g2 := ReadGroupsLast(s, 3);
    p1, a, g1 := ReadGroupsLast(s, 2);
    p0, e, g0 := ReadGroupsLast(s, 1);
    ReadNone(s);
    assert s[..p1] == g0;
    Pieces(g0, g1, g2, g3, d);
    assert s == s[..|s|];
  }

  /** Nothing, a hyphen or one space. */
  ghost predicate PrintedSeparator(s: string) {
    s == "" || s == "-" || s == " "
  }

  /** An Emirates ID is accepted exactly as its digits with an optional hyphen or space at each group boundary. */
  lemma EmiratesIdExact(raw: string, d: string)
    ensures EmiratesIdSpec(raw) == Some(d) <==>
      && ValidEmiratesId(d)
      && exists a, b, c ::
           PrintedSeparator(a) && PrintedSeparator(b) && PrintedSeparator(c) && Trim(raw) == Written(d, a, b, c)
  {
    hide LuhnSum, AllDigits, Trim, Written;
    if EmiratesIdSpec(raw) == Some(d) {
      var a, b, c := ReadIsWritten(Trim(raw), d);
    }
    forall a, b, c |
        ValidEmiratesId(d) && IsSeparator(a) && IsSeparator(b) && IsSeparator(c) && Trim(raw) == Written(d, a, b, c)
      ensures EmiratesIdSpec(raw) == Some(d)
    {
      WrittenReads(d, a, b, c);
    }
  }

  /**
   Fourteen digits that start 784 have exactly one check digit with which they are an Emirates ID number, however
   their groups are separated; fourteen digits that start otherwise have none.
   */
  lemma {:induction false} EmiratesCheckDigit(body: string, c: char, raw: string)
    requires |body| == 14 && AllDigits(body) && IsDigit(c)
    requires exists a, b, e :: PrintedSeparator(a) && PrintedSeparator(b) && PrintedSeparator(e)
               && Trim(raw) == Written(body + [c], a, b, e)
    ensures EmiratesIdSpec(raw) == Some(body + [c]) <==>
      body[0] == '7' && body[1] == '8' && body[2] == '4' && DigitValue(c) == CheckDigit(DigitValues(body))
  {
    hide LuhnOk, Trim, Written, EmiratesIdSpec, CheckDigit;
    EmiratesIdExact(raw, body + [c]);
    assert DigitValues(body + [c]) == DigitValues(body) + [DigitValue(c)];
    LuhnExact(DigitValues(body), DigitValue(c));
    assert (body + [c])[..3] == body[..3] == [body[0], body[1], body[2]];
  }

  lemma ReadNone(s: string)
    ensures ReadGroups(s, 0) == Some((0, ""))
  {
  }

  lemma Pieces(g0: string, g1: string, g2: string, g3: string, d: string)
    requires d == [] + g0 + g1 + g2 + g3
    ensures d[..|g0|] == g0
    ensures d[|g0|..|g0 + g1|] == g1
    ensures d[|g0 + g1|..|g0 + g1 + g2|] == g2
    ensures d[|g0 + g1 + g2|..] == g3
  {
  }

  // The IBAN

  const UAE_IBAN_LEN: nat := 23

  /** `char::to_digit(36)`. */
  function ToDigit36(c: char): Option<nat> {
    if '0' <= c <= '9' then Some(c as int - '0' as int)
    else if 'a' <= c <= 'z' then Some(c as int - 'a' as int + 10)
    else if 'A' <= c <= 'Z' then Some(c as int - 'A' as int + 10)
    else None
  }

  ghost predicate Alphanumeric(s: string) {
    forall k | 0 <= k < |s| :: ToDigit36(s[k]).Some?
  }

  /** The decimal digits of `s`, a letter as its two-digit value. */
  ghost function Expanded(s: string): seq<nat>
    requires Alphanumeric(s)
  {
    if |s| == 0 then []
    else
      var v := ToDigit36(s[|s| - 1]).value;
      Expanded(s[..|s| - 1]) + (if v < 10 then [v] else [v / 10, v % 10])
  }

  /** The string with its first four characters moved to the end, as ISO 13616 reads it. */
  function Rearranged(iban: string): string
    requires |iban| >= 4
  {
    iban[4..] + iban[..4]
  }

  lemma ModStep(n: nat, scale: nat, v: nat)
    requires scale == 10 || scale == 100
    ensures (n % 97 * scale + v) % 97 == (n * scale + v) % 97
  {
    var q, r := n / 97, n % 97 * scale + v;
    assert n * scale + v == 97 * (q * scale) + r;
    EuclideanModulus(n * scale + v, q * scale + r / 97, 97, r % 97);
  }

  /** The remainder after one more character of value `v`. */
  function NextRemainder(remainder: nat, v: nat): (r: nat)
    ensures r < 97
  {
    if v < 10 then (remainder * 10 + v) % 97 else (remainder * 100 + v) % 97
  }

  ghost predicate RemainderOf(s: string, remainder: nat) {
    Alphanumeric(s) && remainder == Value(10, Expanded(s)) % 97
  }

  lemma RemainderStep(s: string, at: nat, remainder: nat)
    requires at < |s| && RemainderOf(s[..at], remainder) && ToDigit36(s[at]).Some?
    ensures RemainderOf(s[..at + 1], NextRemainder(remainder, ToDigit36(s[at]).value))
  {
    hide Value;
    assert s[..at + 1][..at] == s[..at];
    var ds, v := Expanded(s[..at]), ToDigit36(s[at]).value;
    if v < 10 {
      ModStep(Value(10, ds), 10, v);
      ValueAppend(10, ds, v);
    } else {
      ModStep(Value(10, ds), 100, v);
      ValueAppend2(10, ds, v / 10, v % 10);
    }
  }

  /** The streaming remainder is that of the whole expanded decimal numeral. */
  method IbanRemainder(iban: string) returns (r: Option<nat>)
    ensures r.Some? <==> |iban| >= 4 && Alphanumeric(iban)
    ensures r.Some? ==> Alphanumeric(Rearranged(iban)) && r.value == Value(10, Expanded(Rearranged(iban))) % 97
  {
    if |iban| < 4 {
      return None;
    }
    hide Expanded, ToDigit36, Alphanumeric, Rearranged, Value, RemainderOf, NextRemainder;
    var characters := Rearranged(iban);
    RearrangedKeeps(iban);
    var remainder := 0;
    var at := 0;
    assert characters[..at] == "";
    ExpandedNothing();
    while at < |characters|
      invariant 0 <= at <= |characters|
      invariant RemainderOf(characters[..at], remainder)
    {
      var value := ToDigit36(characters[at]);
      if value.None? {
        NotAlphanumeric(characters, at);
        return None;
      }
      RemainderStep(characters, at, remainder);
      remainder := NextRemainder(remainder, value.value);
      at := at + 1;
    }
    assert characters[..at] == characters;
    RemainderMeans(characters, remainder);
    return Some(remainder);
  }

  lemma RearrangedKeeps(iban: string)
    requires |iban| >= 4
    ensures |Rearranged(iban)| == |iban|
    ensures Alphanumeric(Rearranged(iban)) <==> Alphanumeric(iban)
  {
    var moved := Rearranged(iban);
    assert forall k | 0 <= k < |iban| :: iban[k] == moved[if k < 4 then |iban| - 4 + k else k - 4];
    assert forall k | 0 <= k < |moved| :: moved[k] == iban[if k < |iban| - 4 then k + 4 else k - (|iban| - 4)];
  }

  lemma NotAlphanumeric(s: string, at: nat)
    requires at < |s| && ToDigit36(s[at]).None?
    ensures !Alphanumeric(s)
  {
  }

  lemma ExpandedNothing()
    ensures RemainderOf("", 0)
  {
  }

  lemma RemainderMeans(s: string, remainder: nat)
    requires RemainderOf(s, remainder)
    ensures Alphanumeric(s) && remainder == Value(10, Expanded(s)) % 97
  {
  }

  /** `AE`, twenty-one digits, and the remainder the standard asks for. */
  ghost predicate ValidUaeIban(bare: string) {
    && UaeShaped(bare)
    && Value(10, Numeral(bare)) % 97 == 1
  }

  predicate UaeShaped(bare: string) {
    |bare| == UAE_IBAN_LEN && bare[0] == 'A' && bare[1] == 'E' && AllDigits(bare[2..])
  }

  /** The nineteen digits after the check pair, `AE` as 10 and 14, and the check pair. */
  ghost function Numeral(bare: string): (ds: seq<nat>)
    requires UaeShaped(bare)
    ensures |ds| == 25
  {
    DigitValues(bare[2..])[2..] + [1, 0, 1, 4] + DigitValues(bare[2..])[..2]
  }

  lemma {:induction false} ExpandedAppend(s: string, t: string)
    requires Alphanumeric(s) && Alphanumeric(t)
    ensures Alphanumeric(s + t) && Expanded(s + t) == Expanded(s) + Expanded(t)
  {
    if |t| == 0 {
      assert s + t == s;
    } else {
      ExpandedAppend(s, t[..|t| - 1]);
      assert (s + t)[..|s + t| - 1] == s + t[..|t| - 1];
      assert (s + t)[|s + t| - 1] == t[|t| - 1];
    }
  }

  lemma {:induction false} ExpandedDigits(s: string)
    requires AllDigits(s)
    ensures Alphanumeric(s) && Expanded(s) == DigitValues(s)
  {
    if |s| > 0 {
      ExpandedDigits(s[..|s| - 1]);
    }
  }

  /** The rearranged, expanded string of a UAE-shaped IBAN is its numeral. */
  lemma ExpandedNumeral(bare: string)
    requires UaeShaped(bare)
    ensures Alphanumeric(bare) && Alphanumeric(Rearranged(bare)) && Expanded(Rearranged(bare)) == Numeral(bare)
  {
    hide Expanded, ToDigit36, Alphanumeric;
    var body, check := bare[4..], bare[2..4];
    var digits := bare[2..];
    assert body == digits[2..] && check == digits[..2];
    ExpandedDigits(body);
    ExpandedDigits(check);
    assert DigitValues(body) == DigitValues(digits)[2..] && DigitValues(check) == DigitValues(digits)[..2];
    ExpandedCountry();
    ExpandedAppend("AE", check);
    ExpandedAppend(body, "AE");
    ExpandedAppend(body + "AE", check);
    ExpandedAppend("AE" + check, body);
    assert bare == "AE" + check + body;
    assert Rearranged(bare) == body + "AE" + check;
  }

  lemma ExpandedCountry()
    ensures Alphanumeric("AE") && Expanded("AE") == [1, 0, 1, 4]
  {
    assert "AE"[..1] == "A" && "A"[..0] == "";
    assert Expanded("A") == [1, 0];
    assert Expanded("AE") == [1, 0] + [1, 4];
  }

  // Error detection: 97 is prime and the powers of ten below the twenty-fifth differ modulo it

  /** `10` to the power of `e`, modulo 97. */
  function Residue(e: nat): nat {
    if e == 0 then 1 else Residue(e - 1) * 10 % 97
  }

  /** The power below 25 whose residue is `r`. */
  function Logarithm(r: nat): nat {
    if r == 1 then 0
    else if r == 10 then 1
    else if r == 3 then 2
    else if r == 30 then 3
    else if r == 9 then 4
    else if r == 90 then 5
    else if r == 27 then 6
    else if r == 76 then 7
    else if r == 81 then 8
    else if r == 34 then 9
    else if r == 49 then 10
    else if r == 5 then 11
    else if r == 50 then 12
    else if r == 15 then 13
    else if r == 53 then 14
    else if r == 45 then 15
    else if r == 62 then 16
    else if r == 38 then 17
    else if r == 89 then 18
    else if r == 17 then 19
    else if r == 73 then 20
    else if r == 51 then 21
    else if r == 25 then 22
    else if r == 56 then 23
    else if r == 75 then 24
    else 25
  }

  lemma {:induction false} PowerResidue(e: nat)
    ensures Pow(10, e) % 97 == Residue(e)
  {
    hide Pow, Residue;
    PowerStep(e);
    if e > 0 {
      PowerResidue(e - 1);
      ModStep(Pow(10, e - 1), 10, 0);
    }
  }

  lemma PowerStep(e: nat)
    ensures e == 0 ==> Pow(10, e) == 1 && Residue(e) == 1
    ensures e > 0 ==> Pow(10, e) == Pow(10, e - 1) * 10 + 0 && Residue(e) == (Residue(e - 1) * 10 + 0) % 97
  {
  }

  const RESIDUES: seq<nat> :=
    [1, 10, 3, 30, 9, 90, 27, 76, 81, 34, 49, 5, 50, 15, 53, 45, 62, 38, 89, 17, 73, 51, 25, 56, 75]

  lemma {:induction false} ResidueListed(e: nat)
    requires e < 25
    ensures Residue(e) == RESIDUES[e]
  {
    hide Residue, Pow;
    PowerStep(e);
    if e > 0 {
      ResidueListed(e - 1);
      NextResidue(e);
    }
  }

  lemma NextResidue(e: nat)
    requires 0 < e < 25
    ensures RESIDUES[e - 1] * 10 % 97 == RESIDUES[e]
  {
  }

  lemma LogarithmInverts(e: nat)
    requires e < 25
    ensures Logarithm(Residue(e)) == e && Residue(e) > 0
  {
    hide Residue;
    ResidueListed(e);
  }

  lemma PlacesDiffer(e: nat, f: nat)
    requires e < 25 && f < 25
    ensures Pow(10, e) % 97 != 0
    ensures e != f ==> (Pow(10, e) - Pow(10, f)) % 97 != 0
  {
    hide Pow, Residue, Logarithm;
    PowerResidue(e);
    PowerResidue(f);
    LogarithmInverts(e);
    LogarithmInverts(f);
    SameResidue(Pow(10, e), Pow(10, f));
  }

  lemma SameResidue(p: int, q: int)
    ensures (p - q) % 97 == 0 <==> p % 97 == q % 97
  {
    assert p - q == 97 * (p / 97 - q / 97) + (p % 97 - q % 97);
  }

  /** A digit's difference is invertible modulo 97. */
  lemma Cancel97(a: int, b: int)
    requires -10 < a < 10 && a != 0 && (a * b) % 97 == 0
    ensures b % 97 == 0
  {
    var q := a * b / 97;
    assert a * b == 97 * q;
    if a < 0 {
      CancelPositive(-a, b, -q);
    } else {
      CancelPositive(a, b, q);
    }
  }

  lemma CancelPositive(a: nat, b: int, q: int)
    requires 0 < a < 10 && a * b == 97 * q
    ensures b % 97 == 0
  {
    if a == 2 {
      CancelInverse(2, 49, 1, b, q);
    } else if a == 3 {
      CancelInverse(3, 65, 2, b, q);
    } else if a == 4 {
      CancelInverse(4, 73, 3, b, q);
    } else if a == 5 {
      CancelInverse(5, 39, 2, b, q);
    } else if a == 6 {
      CancelInverse(6, 81, 5, b, q);
    } else if a == 7 {
      CancelInverse(7, 14, 1, b, q);
    } else if a == 8 {
      CancelInverse(8, 85, 7, b, q);
    } else if a == 9 {
      CancelInverse(9, 54, 5, b, q);
    }
  }

  lemma CancelInverse(a: int, inverse: int, m: int, b: int, q: int)
    requires a * inverse == 97 * m + 1 && a * b == 97 * q
    ensures b % 97 == 0
  {
    assert (a * inverse) * b == inverse * (a * b) == 97 * (inverse * q);
    assert (a * inverse) * b == 97 * (m * b) + b;
    assert b == 97 * (inverse * q - m * b);
  }

  /** The place in the numeral of the character at `k`. */
  function Index(k: nat): nat {
    if k >= 4 then k - 4 else k + 21
  }

  lemma NumeralUpdate(bare: string, k: nat, c: char)
    requires UaeShaped(bare) && 2 <= k < UAE_IBAN_LEN && IsDigit(c)
    ensures UaeShaped(bare[k := c])
    ensures Numeral(bare)[Index(k)] == DigitValue(bare[k])
    ensures Numeral(bare[k := c]) == Numeral(bare)[Index(k) := DigitValue(c)]
  {
    assert bare[k := c][2..] == bare[2..][k - 2 := c];
  }

  lemma DigitValueInjective(c: char, d: char)
    requires IsDigit(c) && IsDigit(d)
    ensures DigitValue(c) == DigitValue(d) ==> c == d
  {
  }

  /** Every error in one digit after `AE` is caught. */
  lemma IbanCatchesSubstitution(bare: string, k: nat, c: char)
    requires ValidUaeIban(bare) && 2 <= k < UAE_IBAN_LEN && IsDigit(c) && c != bare[k]
    ensures !ValidUaeIban(bare[k := c])
  {
    hide Numeral, Value, Pow;
    NumeralUpdate(bare, k, c);
    var ds, i := Numeral(bare), Index(k);
    assert IsDigit(bare[k]) by { assert bare[2..][k - 2] == bare[k]; }
    var step, place := DigitValue(c) - ds[i], Pow(10, 24 - i);
    ValueUpdate(10, ds, i, DigitValue(c));
    if ValidUaeIban(bare[k := c]) {
      DigitValueInjective(c, bare[k]);
      Congruent(Value(10, ds), step * place);
      Cancel97(step, place);
      PlacesDiffer(24 - i, 24 - i);
    }
  }

  lemma Congruent(n: int, change: int)
    requires n % 97 == 1 && (n + change) % 97 == 1
    ensures change % 97 == 0
  {
    assert change == 97 * ((n + change) / 97 - n / 97);
  }

  lemma SwapChange(ds: seq<nat>, i: nat, m: nat)
    requires i < |ds| && m < |ds| && i != m
    ensures Value(10, ds[i := ds[m]][m := ds[i]])
         == Value(10, ds) + (ds[m] - ds[i]) * (Pow(10, |ds| - 1 - i) - Pow(10, |ds| - 1 - m))
  {
    hide Value, Pow;
    ValueUpdate(10, ds, i, ds[m]);
    ValueUpdate(10, ds[i := ds[m]], m, ds[i]);
    Factor(ds[m], ds[i], Pow(10, |ds| - 1 - i), Pow(10, |ds| - 1 - m));
  }

  lemma Factor(a: int, b: int, p: int, q: int)
    ensures (a - b) * p + (b - a) * q == (a - b) * (p - q)
  {
  }

  /** Every exchange of two unequal digits after `AE` is caught, however far apart they stand. */
  lemma IbanCatchesSwap(bare: string, j: nat, k: nat)
    requires ValidUaeIban(bare) && 2 <= j < k < UAE_IBAN_LEN && bare[j] != bare[k]
    ensures !ValidUaeIban(bare[j := bare[k]][k := bare[j]])
  {
    hide Numeral, Value, Pow, DigitValue;
    assert bare[2..][j - 2] == bare[j] && bare[2..][k - 2] == bare[k];
    var once := bare[j := bare[k]];
    NumeralUpdate(bare, j, bare[k]);
    NumeralUpdate(bare, k, bare[k]);
    NumeralUpdate(once, k, bare[j]);
    var ds, i, m := Numeral(bare), Index(j), Index(k);
    SwapChange(ds, i, m);
    if ValidUaeIban(once[k := bare[j]]) {
      DigitValueInjective(bare[j], bare[k]);
      Congruent(Value(10, ds), (ds[m] - ds[i]) * (Pow(10, 24 - i) - Pow(10, 24 - m)));
      Cancel97(ds[m] - ds[i], Pow(10, 24 - i) - Pow(10, 24 - m));
      PlacesDiffer(24 - i, 24 - m);
    }
  }

  /** The IBAN with check pair `c` over the nineteen digits `body`. */
  function WithCheckPair(c: nat, body: string): string
    requires c < 100
  {
    ['A', 'E', DigitChar(c / 10), DigitChar(c % 10)] + body
  }

  /** The check pair in 02..98 that ISO 7064 MOD 97-10 gives `body`. */
  ghost function CheckPair(body: string): (c: nat)
    requires AllDigits(body)
    ensures 2 <= c <= 98
  {
    98 - (Value(10, DigitValues(body)) * 1_000_000 + 101_400) % 97
  }

  /**
   Each body has one valid check pair in 02..98. The parser does not hold the pair to that range,
   so it also takes 00, 01 and 99 where they are congruent to it.
   */
  lemma CheckPairUnique(body: string, c: nat)
    requires |body| == 19 && AllDigits(body) && c < 100
    ensures ValidUaeIban(WithCheckPair(c, body)) <==> (c - CheckPair(body)) % 97 == 0
    ensures 2 <= c <= 98 ==> (ValidUaeIban(WithCheckPair(c, body)) <==> c == CheckPair(body))
  {
    CheckPairValue(c, body);
    CheckPairArithmetic(Value(10, DigitValues(body)) * 1_000_000 + 101_400, c);
    hide Value, Numeral, WithCheckPair;
  }

  lemma CheckPairArithmetic(base: nat, c: nat)
    ensures var pair := 98 - base % 97;
      && ((base + c) % 97 == 1 <==> (c - pair) % 97 == 0)
      && (2 <= c <= 98 ==> ((c - pair) % 97 == 0 <==> c == pair))
  {
    var pair := 98 - base % 97;
    SameResidue(base + c, 1);
    assert base + c - 1 == 97 * (base / 97 + 1) + (c - pair);
    SameResidue(base + c - 1, 97 * (base / 97 + 1));
  }

  lemma CheckPairValue(c: nat, body: string)
    requires |body| == 19 && AllDigits(body) && c < 100
    ensures UaeShaped(WithCheckPair(c, body))
    ensures Value(10, Numeral(WithCheckPair(c, body)))
         == Value(10, DigitValues(body)) * 1_000_000 + 101_400 + c
  {
    hide Value;
    var bare := WithCheckPair(c, body);
    var digits, ds := bare[2..], DigitValues(body);
    assert digits == [DigitChar(c / 10), DigitChar(c % 10)] + body;
    assert DigitValues(digits)[2..] == ds;
    assert DigitValues(digits)[..2] == [c / 10, c % 10];
    ValueAppend2(10, ds, 1, 0);
    ValueAppend2(10, ds + [1, 0], 1, 4);
    ValueAppend2(10, ds + [1, 0] + [1, 4], c / 10, c % 10);
    assert Numeral(bare) == ds + [1, 0] + [1, 4] + [c / 10, c % 10];
  }

  lemma {:induction false} ZerosValue(ds: seq<nat>)
    requires forall k | 0 <= k < |ds| :: ds[k] == 0
    ensures Value(10, ds) == 0
  {
    if |ds| > 0 {
      ZerosValue(ds[..|ds| - 1]);
    }
  }

  /** A second pair, outside 02..98, is accepted exactly when the first is 02, 97 or 98; it is 99, 00 or 01. */
  lemma CheckPairAliases(body: string)
    requires |body| == 19 && AllDigits(body)
    ensures ValidUaeIban(WithCheckPair(99, body)) <==> CheckPair(body) == 2
    ensures ValidUaeIban(WithCheckPair(0, body)) <==> CheckPair(body) == 97
    ensures ValidUaeIban(WithCheckPair(1, body)) <==> CheckPair(body) == 98
  {
    hide ValidUaeIban, WithCheckPair, CheckPair;
    CheckPairUnique(body, 99);
    CheckPairUnique(body, 0);
    CheckPairUnique(body, 1);
  }

  /** The check pair of a body of seventeen zeros and two digits. */
  lemma {:induction false} ShortBody(body: string)
    requires |body| == 19 && AllDigits(body) && forall k | 0 <= k < 17 :: body[k] == '0'
    ensures CheckPair(body) ==
      98 - ((DigitValue(body[17]) * 10 + DigitValue(body[18])) * 1_000_000 + 101_400) % 97
  {
    var ds := DigitValues(body);
    assert ds == ds[..17] + [ds[17], ds[18]];
    ZerosValue(ds[..17]);
    ValueAppend2(10, ds[..17], ds[17], ds[18]);
    hide Value;
  }

  /** Bodies with two accepted check pairs: 02 and 99, 97 and 00, 98 and 01. */
  lemma {:induction false} AliasAccepted() returns (a: string, b: string, c: string)
    ensures |a| == |b| == |c| == 19 && AllDigits(a) && AllDigits(b) && AllDigits(c)
    ensures ValidUaeIban(WithCheckPair(2, a)) && ValidUaeIban(WithCheckPair(99, a))
    ensures ValidUaeIban(WithCheckPair(97, b)) && ValidUaeIban(WithCheckPair(0, b))
    ensures ValidUaeIban(WithCheckPair(98, c)) && ValidUaeIban(WithCheckPair(1, c))
  {
    hide WithCheckPair, ValidUaeIban, CheckPair;
    a, b, c := "0000000000000000031", "0000000000000000067", "0000000000000000049";
    ShortBody(a);
    ShortBody(b);
    ShortBody(c);
    CheckPairAliases(a);
    CheckPairAliases(b);
    CheckPairAliases(c);
    CheckPairUnique(a, 2);
    CheckPairUnique(b, 97);
    CheckPairUnique(c, 98);
  }

  // The printed forms

  datatype AeIdentifier = EmiratesIdNumber(bare: string) | Iban(bare: string)

  ghost predicate Valid(id: AeIdentifier) {
    match id
    case EmiratesIdNumber(bare) => ValidEmiratesId(bare)
    case Iban(bare) => ValidUaeIban(bare)
  }

  /** The characters in fours, single spaces between. */
  function Chunked(bare: string): string {
    if |bare| <= 4 then bare else bare[..4] + " " + Chunked(bare[4..])
  }

  function Printed(id: AeIdentifier): string
    requires id.EmiratesIdNumber? ==> |id.bare| == EMIRATES_ID_DIGITS
  {
    match id
    case EmiratesIdNumber(bare) => Written(bare, "-", "-", "-")
    case Iban(bare) => Chunked(bare)
  }

  function WithoutSpaces(s: string): string {
    if |s| == 0 then [] else (if s[0] == ' ' then [] else [s[0]]) + WithoutSpaces(s[1..])
  }

  ghost function UaeIban(raw: string): Option<string> {
    var s := Trim(raw);
    var bare := Upper(WithoutSpaces(s));
    if !Contains(s, "  ") && ValidUaeIban(bare) then Some(bare) else None
  }

  /** The first of the two structures that fits, or no identifier. */
  ghost function Classify(raw: string): Option<AeIdentifier> {
    if EmiratesIdSpec(raw).Some? then Some(EmiratesIdNumber(EmiratesIdSpec(raw).value))
    else if UaeIban(raw).Some? then Some(Iban(UaeIban(raw).value))
    else None
  }

  lemma {:induction false} ChunkedReads(bare: string)
    requires forall k | 0 <= k < |bare| :: bare[k] != ' '
    ensures WithoutSpaces(Chunked(bare)) == bare
    ensures |bare| > 0 ==> |Chunked(bare)| > 0 && Chunked(bare)[0] == bare[0]
    ensures |bare| > 0 ==> Chunked(bare)[|Chunked(bare)| - 1] == bare[|bare| - 1]
    ensures forall k | 0 <= k < |Chunked(bare)| - 1 :: Chunked(bare)[k] != ' ' || Chunked(bare)[k + 1] != ' '
  {
    if |bare| <= 4 {
      SpacelessKept(bare);
    } else {
      var rest := Chunked(bare[4..]);
      ChunkedReads(bare[4..]);
      SpacelessKept(bare[..4]);
      WithoutSpacesAppend(bare[..4] + " ", rest);
      WithoutSpacesAppend(bare[..4], " ");
      assert WithoutSpaces(" ") == [];
      assert Chunked(bare) == bare[..4] + " " + rest;
    }
  }

  /** The characters, each followed by one space or by none. */
  ghost function Gapped(written: string, gaps: seq<bool>): string
    requires |gaps| == |written|
  {
    if written == "" then ""
    else [written[0]] + ((if gaps[0] then " " else "") + Gapped(written[1..], gaps[1..]))
  }

  ghost predicate Spaceless(s: string) {
    forall k | 0 <= k < |s| :: s[k] != ' '
  }

  ghost predicate SingleSpaced(s: string) {
    forall k | 0 <= k < |s| - 1 :: s[k] != ' ' || s[k + 1] != ' '
  }

  lemma {:induction false} GapsOf(s: string) returns (gaps: seq<bool>)
    requires SingleSpaced(s) && (s == "" || s[0] != ' ')
    ensures Spaceless(WithoutSpaces(s)) && |gaps| == |WithoutSpaces(s)| && s == Gapped(WithoutSpaces(s), gaps)
    decreases |s|
  {
    hide WithoutSpaces;
    gaps := [];
    if s == "" {
      NoSpaces();
    } else {
      WithoutSpacesStep(s);
      var gap := |s| > 1 && s[1] == ' ';
      var rest := if gap then s[2..] else s[1..];
      if gap {
        WithoutSpacesStep(s[1..]);
        assert s[1..][1..] == rest;
      }
      assert forall k | 0 <= k < |rest| :: rest[k] == s[|s| - |rest| + k];
      var more := GapsOf(rest);
      gaps := [gap] + more;
      var w := WithoutSpaces(s);
      assert w == [s[0]] + WithoutSpaces(rest) && w[1..] == WithoutSpaces(rest) && gaps[1..] == more;
      assert s == [s[0]] + ((if gap then " " else "") + rest);
    }
  }

  lemma {:induction false} GappedReads(written: string, gaps: seq<bool>)
    requires |gaps| == |written| && Spaceless(written)
    ensures WithoutSpaces(Gapped(written, gaps)) == written && SingleSpaced(Gapped(written, gaps))
    ensures written != "" ==> Gapped(written, gaps) != "" && Gapped(written, gaps)[0] == written[0]
    decreases |written|
  {
    hide WithoutSpaces;
    if written == "" {
      NoSpaces();
    } else {
      var rest := Gapped(written[1..], gaps[1..]);
      GappedReads(written[1..], gaps[1..]);
      var tail, s := (if gaps[0] then " " else "") + rest, Gapped(written, gaps);
      WithoutSpacesStep(s);
      assert s[1..] == tail;
      if gaps[0] {
        WithoutSpacesStep(tail);
        assert tail[1..] == rest;
        assert forall k | 0 <= k < |rest| :: s[k + 2] == rest[k];
      } else {
        assert tail == rest;
        assert forall k | 0 <= k < |rest| :: s[k + 1] == rest[k];
      }
    }
  }

  lemma {:induction false} DoubleSpace(s: string)
    ensures Contains(s, "  ") <==> !SingleSpaced(s)
  {
    if Contains(s, "  ") {
      var at :| 0 <= at <= |s| && FoundAt(s, "  ", at);
      assert s[at..at + 2][0] == s[at] && s[at..at + 2][1] == s[at + 1];
    }
    if k :| 0 <= k < |s| - 1 && s[k] == ' ' && s[k + 1] == ' ' {
      assert s[k..k + 2] == "  ";
      assert FoundAt(s, "  ", k);
    }
  }

  /** A text is read as a UAE IBAN exactly when, trimmed, it is the IBAN in any case with single spaces inside. */
  lemma {:induction false} UaeIbanExact(raw: string, bare: string)
    ensures UaeIban(raw) == Some(bare) <==>
      && ValidUaeIban(bare)
      && exists written, gaps :: |gaps| == |written| && Upper(written) == bare && Trim(raw) == Gapped(written, gaps)
  {
    hide WithoutSpaces, Contains, Trim, Gapped, Upper, ValidUaeIban, SingleSpaced;
    var s := Trim(raw);
    DoubleSpace(s);
    TrimmedEnds(raw);
    if UaeIban(raw) == Some(bare) {
      var gaps := GapsOf(s);
    }
    forall written, gaps | |gaps| == |written| && Upper(written) == bare && ValidUaeIban(bare) && s == Gapped(written, gaps)
      ensures UaeIban(raw) == Some(bare)
    {
      ValidSpaceless(written);
      GappedReads(written, gaps);
    }
  }

  lemma TrimmedEnds(raw: string)
    ensures Trim(raw) == "" || Trim(raw)[0] != ' '
  {
    TrimEnds(raw);
    hide Trim;
    assert IsWhitespace(' ');
  }

  lemma ValidSpaceless(written: string)
    requires ValidUaeIban(Upper(written))
    ensures Spaceless(written)
  {
    hide Numeral, Value;
    var bare := Upper(written);
    forall k | 0 <= k < |written|
      ensures written[k] != ' '
    {
      assert bare[k] == UpperChar(written[k]);
      assert k >= 2 ==> bare[2..][k - 2] == bare[k];
    }
  }

  lemma {:induction false} SpacelessKept(s: string)
    requires forall k | 0 <= k < |s| :: s[k] != ' '
    ensures WithoutSpaces(s) == s
  {
    if |s| > 0 {
      SpacelessKept(s[1..]);
    }
  }

  lemma {:induction false} WithoutSpacesAppend(s: string, t: string)
    ensures WithoutSpaces(s + t) == WithoutSpaces(s) + WithoutSpaces(t)
    decreases |s|
  {
    hide WithoutSpaces;
    if |s| == 0 {
      assert s + t == t;
      NoSpaces();
    } else {
      WithoutSpacesAppend(s[1..], t);
      WithoutSpacesStep(s);
      WithoutSpacesStep(s + t);
      assert (s + t)[1..] == s[1..] + t;
    }
  }

  lemma NoSpaces()
    ensures WithoutSpaces("") == ""
  {
  }

  lemma WithoutSpacesStep(s: string)
    requires |s| > 0
    ensures WithoutSpaces(s) == (if s[0] == ' ' then [] else [s[0]]) + WithoutSpaces(s[1..])
  {
  }

  method ReadUaeIban(raw: string) returns (r: Option<string>)
    ensures r == UaeIban(raw)
  {
    hide Numeral, Expanded, Trim, WithoutSpaces;
    var s := Trim(raw);
    if Contains(s, "  ") {
      return None;
    }
    var bare := Upper(WithoutSpaces(s));
    if !UaeShaped(bare) {
      return None;
    }
    ExpandedNumeral(bare);
    var remainder := IbanRemainder(bare);
    return if remainder == Some(1) then Some(bare) else None;
  }

  /** Every valid identifier is read back from its printed form, as itself. */
  lemma PrintedClassifies(id: AeIdentifier)
    requires Valid(id)
    ensures Classify(Printed(id)) == Some(id)
  {
    hide LuhnSum, Numeral, Value, WithoutSpaces, Chunked, Written, ReadGroups, Trim;
    var s := Printed(id);
    match id {
      case EmiratesIdNumber(bare) =>
        WrittenTrimmed(bare);
        EmiratesIdExact(s, bare);
      case Iban(bare) =>
        assert forall k | 2 <= k < |bare| :: IsDigit(bare[k]) by {
          assert forall k | 2 <= k < |bare| :: bare[k] == bare[2..][k - 2];
        }
        ChunkedReads(bare);
        TrimKeeps(s);
        assert !Contains(s, "  ") by {
          forall at | 0 <= at <= |s| - 2
            ensures !FoundAt(s, "  ", at)
          {
            assert s[at..at + 2][0] == s[at] && s[at..at + 2][1] == s[at + 1];
          }
        }
        assert Upper(bare) == bare;
        LetterIsNoEmiratesId(s);
    }
  }

  lemma WrittenTrimmed(bare: string)
    requires ValidEmiratesId(bare)
    ensures Trim(Written(bare, "-", "-", "-")) == Written(bare, "-", "-", "-")
  {
    hide LuhnSum;
    var s := Written(bare, "-", "-", "-");
    assert s[0] == bare[0] && s[|s| - 1] == bare[14];
    TrimKeeps(s);
  }

  lemma LetterIsNoEmiratesId(s: string)
    requires |s| > 0 && s[0] == 'A' && Trim(s) == s
    ensures EmiratesIdSpec(s).None?
  {
    assert ReadGroups(s, 1).None? by {
      assert |s| >= 3 ==> s[0..3][0] == 'A';
    }
    ReadGroupsFails(s, 1, |GROUPS|);
  }

  /** The printed number: hyphens after the third, seventh and fourteenth digits, and nowhere else. */
  lemma {:induction false} EmiratesPrinted(d: string)
    requires |d| == 15
    ensures
      var printed := Printed(EmiratesIdNumber(d));
      |printed| == 18
      && forall k | 0 <= k < 18 ::
           printed[k] == if k == 3 || k == 8 || k == 16 then '-'
                         else d[if k < 3 then k else if k < 8 then k - 1 else if k < 16 then k - 2 else k - 3]
  {
  }

  /** The printed IBAN: a space after every fourth character, and nowhere else. */
  lemma {:induction false} ChunkedAt(bare: string, k: nat)
    ensures |bare| > 0 ==> |Chunked(bare)| == |bare| + (|bare| - 1) / 4
    ensures k < |Chunked(bare)| ==>
      if k % 5 == 4 then Chunked(bare)[k] == ' ' else k - k / 5 < |bare| && Chunked(bare)[k] == bare[k - k / 5]
    decreases |bare|
  {
    if |bare| > 4 {
      ChunkedAt(bare[4..], if k < 5 then 0 else k - 5);
      assert Chunked(bare) == bare[..4] + " " + Chunked(bare[4..]);
    }
  }

  /** What a token is: an Emirates ID number, a UAE IBAN, or neither; never both. */
  lemma {:induction false} ClassifyExact(raw: string, bare: string)
    ensures Classify(raw).None? <==> EmiratesIdSpec(raw).None? && UaeIban(raw).None?
    ensures Classify(raw) == Some(EmiratesIdNumber(bare)) <==> EmiratesIdSpec(raw) == Some(bare)
    ensures Classify(raw) == Some(Iban(bare)) <==> UaeIban(raw) == Some(bare)
  {
    hide EmiratesIdSpec, UaeIban;
    if EmiratesIdSpec(raw).Some? && UaeIban(raw).Some? {
      var d, b := EmiratesIdSpec(raw).value, UaeIban(raw).value;
      EmiratesIdExact(raw, d);
      UaeIbanExact(raw, b);
      EmiratesFirst(raw, d);
      IbanFirst(raw, b);
    }
  }

  lemma {:induction false} EmiratesFirst(raw: string, d: string)
    requires EmiratesIdSpec(raw) == Some(d)
    ensures Trim(raw) != "" && IsDigit(Trim(raw)[0])
  {
    EmiratesIdExact(raw, d);
    hide EmiratesIdSpec, Trim, LuhnOk;
  }

  lemma {:induction false} IbanFirst(raw: string, b: string)
    requires UaeIban(raw) == Some(b)
    ensures Trim(raw) != "" && !IsDigit(Trim(raw)[0])
  {
    UaeIbanExact(raw, b);
    hide UaeIban, Trim, Numeral, Value;
    var written, gaps :| |gaps| == |written| && Upper(written) == b && Trim(raw) == Gapped(written, gaps);
    assert b[0] == UpperChar(written[0]);
  }
}
