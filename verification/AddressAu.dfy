/** The mobile-number register and the network-operator words of Australian addresses. */
module AddressAu {
  import opened Prelude
  import opened Positional
  import opened Text

  /** A block of the register; numbers are written without their trunk `0`. */
  datatype Block = Block(from: nat, to: nat, spare: bool, allocatee: string, holder: string)

  const FIRST_MOBILE: nat := 400_000_000
  const LAST_MOBILE: nat := 499_999_999

  predicate Holds(block: Block, number: nat) {
    block.from <= number <= block.to
  }

  /** Ascending blocks, each beginning where the one before ends, over the whole mobile range. */
  ghost predicate Register(table: seq<Block>) {
    && |table| > 0 && table[0].from == FIRST_MOBILE && table[|table| - 1].to == LAST_MOBILE
    && (forall k | 0 <= k < |table| :: table[k].from <= table[k].to)
    && forall k | 0 <= k < |table| - 1 :: table[k].to + 1 == table[k + 1].from
  }

  // Reading a number

  function AsciiDigits(s: string): (r: string)
    ensures AllDigits(r)
  {
    if s == "" then "" else (if IsDigit(s[0]) then [s[0]] else "") + AsciiDigits(s[1..])
  }

  function TrimZeros(s: string): string {
    if s != "" && s[0] == '0' then TrimZeros(s[1..]) else s
  }

  /** The digits after the international prefix, when there is one. */
  function National(value: string): Option<string> {
    var digits := AsciiDigits(value);
    if "0061" <= digits then Some(digits[4..])
    else if '+' in value then (if "61" <= digits then Some(digits[2..]) else None)
    else Some(digits)
  }

  predicate IsMobile(national: string) {
    |national| == 9 && AllDigits(national) && national[0] == '4'
  }

  /** The mobile number a text writes, if it writes one. */
  function MobileNumber(value: string): Option<nat> {
    match National(value)
    case None => None
    case Some(digits) =>
      var national := TrimZeros(digits);
      if IsMobile(national) then Some(Value(10, DigitValues(national))) else None
  }

  ghost predicate Zeros(s: string) {
    forall k | 0 <= k < |s| :: s[k] == '0'
  }

  /** The ways to write the mobile number `n`, with any zeros `z` before it. */
  ghost predicate Writes(value: string, z: string, n: string) {
    var digits := AsciiDigits(value);
    && Zeros(z) && IsMobile(n)
    && (digits == "0061" + z + n
        || ('+' in value && digits == "61" + z + n)
        || ('+' !in value && digits == z + n))
  }

  lemma {:induction false} TrimZerosSplit(s: string) returns (z: string)
    ensures Zeros(z) && s == z + TrimZeros(s)
  {
    z := "";
    if s != "" && s[0] == '0' {
      var rest := TrimZerosSplit(s[1..]);
      z := ['0'] + rest;
    }
  }

  lemma {:induction false} TrimZerosOf(z: string, n: string)
    requires Zeros(z) && n != "" && n[0] != '0'
    ensures TrimZeros(z + n) == n
    decreases |z|
  {
    if z == "" {
      assert z + n == n;
    } else {
      TrimZerosOf(z[1..], n);
      assert (z + n)[1..] == z[1..] + n;
    }
  }

  lemma {:induction false} WritesRead(value: string, z: string, n: string)
    requires Writes(value, z, n)
    ensures MobileNumber(value) == Some(Value(10, DigitValues(n)))
  {
    hide AsciiDigits, TrimZeros;
    var digits := AsciiDigits(value);
    TrimZerosOf(z, n);
    if digits == "0061" + z + n {
      assert digits[4..] == z + n;
      assert "0061" <= digits;
    } else if '+' in value {
      assert digits[2..] == z + n;
      assert digits[0] == '6';
    } else {
      NoPrefix(z, n);
    }
  }

  lemma NoPrefix(z: string, n: string)
    requires Zeros(z) && IsMobile(n)
    ensures !("0061" <= z + n)
  {
    var s := z + n;
    assert forall k | 0 <= k < |s| :: s[k] == if k < |z| then '0' else n[k - |z|];
    assert s[|z|] == '4';
    assert s[0] != '0' || s[1] == '4' || s[2] != '6';
    assert s[..4] != "0061";
  }

  /** A text is read as a number exactly when it writes that number in one of the three ways. */
  lemma {:induction false} MobileNumberExact(value: string, number: nat)
    ensures MobileNumber(value) == Some(number) <==>
      exists z, n :: Writes(value, z, n) && Value(10, DigitValues(n)) == number
  {
    hide AsciiDigits, TrimZeros, Value;
    forall z, n | Writes(value, z, n)
      ensures MobileNumber(value) == Some(Value(10, DigitValues(n)))
    {
      WritesRead(value, z, n);
    }
    if MobileNumber(value) == Some(number) {
      var digits := AsciiDigits(value);
      var rest := National(value).value;
      var n := TrimZeros(rest);
      var z := TrimZerosSplit(rest);
      if "0061" <= digits {
        assert digits == "0061" + rest == "0061" + z + n;
      } else if '+' in value {
        assert digits == "61" + rest == "61" + z + n;
      }
      assert Writes(value, z, n);
    }
  }

  /** The three spellings of a number are read alike, whatever stands between their digits. */
  lemma {:induction false} SpellingsAgree(n: string, local: string, plus: string, zeros: string)
    requires IsMobile(n)
    requires AsciiDigits(local) == "0" + n && '+' !in local
    requires AsciiDigits(plus) == "61" + n && '+' in plus
    requires AsciiDigits(zeros) == "0061" + n
    ensures MobileNumber(local) == MobileNumber(plus) == MobileNumber(zeros) == Some(Value(10, DigitValues(n)))
  {
    hide AsciiDigits, MobileNumber, Value;
    assert "61" + "" + n == "61" + n && "0061" + "" + n == "0061" + n;
    WritesRead(local, "0", n);
    WritesRead(plus, "", n);
    WritesRead(zeros, "", n);
  }

  lemma {:induction false} DigitsAlone(s: string)
    requires AllDigits(s)
    ensures AsciiDigits(s) == s && '+' !in s
    decreases |s|
  {
    if s != "" {
      DigitsAlone(s[1..]);
      assert s == [s[0]] + s[1..];
    }
  }

  // The digits of a text are kept in order, and all else left out

  lemma {:induction false} AsciiDigitsFirst(c: char, s: string)
    ensures AsciiDigits([c] + s) == (if '0' <= c <= '9' then [c] else "") + AsciiDigits(s)
  {
    assert ([c] + s)[1..] == s;
  }

  lemma {:induction false} AsciiDigitsJoin(s: string, t: string)
    ensures AsciiDigits(s + t) == AsciiDigits(s) + AsciiDigits(t)
    decreases |s|
  {
    if s == "" {
      assert s + t == t && AsciiDigits(s) == "";
    } else {
      hide AsciiDigits, AllDigits;
      AsciiDigitsJoin(s[1..], t);
      AsciiDigitsFirst(s[0], s[1..]);
      AsciiDigitsFirst(s[0], s[1..] + t);
      assert s == [s[0]] + s[1..] && s + t == [s[0]] + (s[1..] + t);
    }
  }

  /** A mobile number is read too without its trunk zero and with a second one, against the documentation. */
  lemma {:induction false} OtherSpellings(n: string)
    requires IsMobile(n)
    ensures MobileNumber(n) == MobileNumber("00" + n) == Some(Value(10, DigitValues(n)))
    ensures !Documented(n) && !Documented("00" + n)
  {
    hide AsciiDigits, MobileNumber, Value;
    DigitsAlone(n);
    DigitsAlone("00" + n);
    assert "" + n == n;
    WritesRead(n, "", n);
    WritesRead("00" + n, "00", n);
    NoPrefix("", n);
    NoPrefix("00", n);
    DocumentedExact(n);
    DocumentedExact("00" + n);
  }

  /** A ten-digit `04` number, or one in a bare international spelling: no other is documented. */
  ghost predicate Documented(value: string) {
    var digits := AsciiDigits(value);
    exists n :: IsMobile(n)
      && ((('+' !in value) && digits == "0" + n) || ('+' in value && digits == "61" + n) || digits == "0061" + n)
  }

  /** How many digits a documented spelling has. */
  function DocumentedLength(value: string): nat {
    if "0061" <= AsciiDigits(value) then 13 else if '+' in value then 11 else 10
  }

  /**
   Every documented text is read, and a text that is read is documented exactly when it has as many
   digits as its prefix calls for: one trunk zero in a local number, none after an international prefix.
   */
  lemma {:induction false} DocumentedExact(value: string)
    ensures Documented(value) <==>
      MobileNumber(value).Some? && |AsciiDigits(value)| == DocumentedLength(value)
  {
    hide AsciiDigits, MobileNumber, Value;
    var digits := AsciiDigits(value);
    if Documented(value) {
      DocumentedRead(value);
    }
    if MobileNumber(value).Some? {
      MobileNumberExact(value, MobileNumber(value).value);
      var z, n :| Writes(value, z, n);
      if |digits| == DocumentedLength(value) {
        WritesDocumented(value, z, n);
      }
    }
  }

  lemma {:induction false} DocumentedRead(value: string)
    requires Documented(value)
    ensures MobileNumber(value).Some? && |AsciiDigits(value)| == DocumentedLength(value)
  {
    hide AsciiDigits, MobileNumber, Value;
    var digits := AsciiDigits(value);
    var n :| IsMobile(n)
      && ((('+' !in value) && digits == "0" + n) || ('+' in value && digits == "61" + n) || digits == "0061" + n);
    if digits == "0061" + n {
      assert "0061" + "" + n == "0061" + n;
      WritesRead(value, "", n);
      assert "0061" <= digits;
    } else if '+' in value {
      assert "61" + "" + n == "61" + n;
      WritesRead(value, "", n);
      assert digits[0] == '6';
    } else {
      WritesRead(value, "0", n);
      NoPrefix("0", n);
    }
  }

  lemma {:induction false} WritesDocumented(value: string, z: string, n: string)
    requires Writes(value, z, n) && |AsciiDigits(value)| == DocumentedLength(value)
    ensures Documented(value)
  {
    hide AsciiDigits;
    var digits := AsciiDigits(value);
    if digits == "0061" + z + n {
      assert "0061" <= digits;
      assert z == "" && digits == "0061" + n;
    } else if '+' in value {
      assert digits[0] == '6';
      assert z == "" && digits == "61" + n;
    } else {
      NoPrefix(z, n);
      assert |z| == 1 && z[0] == '0' && z == "0";
    }
  }

  lemma {:induction false} ValueBound(ds: seq<nat>)
    requires Digits(10, ds)
    ensures Value(10, ds) < Pow(10, |ds|)
  {
    if |ds| > 0 {
      ValueBound(ds[..|ds| - 1]);
    }
  }

  lemma {:induction false} ValueFirst(d: nat, ds: seq<nat>)
    ensures Value(10, [d] + ds) == d * Pow(10, |ds|) + Value(10, ds)
    decreases |ds|
  {
    if |ds| == 0 {
      assert [d] + ds == [d] && [d][..0] == [];
    } else {
      var k := |ds| - 1;
      ValueFirst(d, ds[..k]);
      assert ([d] + ds)[..k + 1] == [d] + ds[..k];
      Distribute(Value(10, ds[..k]), d, Pow(10, k), 10);
    }
  }

  lemma Pow8()
    ensures Pow(10, 8) == 100_000_000
  {
    assert Pow(10, 4) == 10_000;
  }

  /** A mobile number lies in the range the register covers. */
  lemma {:induction false} MobileInRange(national: string)
    requires IsMobile(national)
    ensures FIRST_MOBILE <= Value(10, DigitValues(national)) <= LAST_MOBILE
  {
    hide Value, Pow;
    var ds := DigitValues(national);
    assert ds == [4] + ds[1..];
    ValueFirst(4, ds[1..]);
    ValueBound(ds[1..]);
    Pow8();
  }

  // Looking a number up

  /** The first block that holds `number`. */
  function LinearFind(table: seq<Block>, number: nat): Option<Block> {
    if table == [] then None
    else if Holds(table[0], number) then Some(table[0])
    else LinearFind(table[1..], number)
  }

  lemma {:induction false} RegisterAscends(table: seq<Block>, i: nat, j: nat)
    requires Register(table) && i < j < |table|
    ensures table[i].to < table[j].from
    decreases j
  {
    if i + 1 < j {
      RegisterAscends(table, i, j - 1);
    }
  }

  /** Every mobile number lies in a block of the register, and in one only. */
  lemma {:induction false} RegisterTotal(table: seq<Block>, number: nat)
    requires Register(table) && FIRST_MOBILE <= number <= LAST_MOBILE
    ensures exists k :: 0 <= k < |table| && Holds(table[k], number)
    ensures forall i, j :: 0 <= i < |table| && 0 <= j < |table| && Holds(table[i], number) && Holds(table[j], number) ==> i == j
  {
    var k := 0;
    while table[k].to < number
      invariant 0 <= k < |table| && table[k].from <= number
      decreases |table| - k
    {
      k := k + 1;
    }
    assert Holds(table[k], number);
    forall i: nat, j: nat | i < j < |table|
      ensures table[i].to < table[j].from
    {
      RegisterAscends(table, i, j);
    }
  }

  /** The scan finds the block that holds the number, when only one does. */
  lemma {:induction false} LinearFinds(table: seq<Block>, number: nat, at: nat)
    requires at < |table| && Holds(table[at], number)
    requires forall k | 0 <= k < |table| && Holds(table[k], number) :: k == at
    ensures LinearFind(table, number) == Some(table[at])
    decreases |table|
  {
    if at > 0 {
      assert !Holds(table[0], number);
      LinearFinds(table[1..], number, at - 1);
    }
  }

  /** The index of the first block that ends at or after `number`, by bisection. */
  method PartitionPoint(table: seq<Block>, number: nat) returns (at: nat)
    requires forall i, j | 0 <= i < j < |table| :: table[i].to <= table[j].to
    ensures at <= |table|
    ensures forall k | 0 <= k < at :: table[k].to < number
    ensures forall k | at <= k < |table| :: number <= table[k].to
  {
    var low, high := 0, |table|;
    while low < high
      invariant 0 <= low <= high <= |table|
      invariant forall k | 0 <= k < low :: table[k].to < number
      invariant forall k | high <= k < |table| :: number <= table[k].to
    {
      var mid := (low + high) / 2;
      if table[mid].to < number {
        low := mid + 1;
      } else {
        high := mid;
      }
    }
    at := low;
  }

  /** The block of the register that holds the number `value` writes. */
  method MobileBlock(table: seq<Block>, value: string) returns (r: Option<Block>)
    requires Register(table)
    ensures MobileNumber(value).None? ==> r == None
    ensures MobileNumber(value).Some? ==>
      var number := MobileNumber(value).value;
      && r == LinearFind(table, number)
      && exists k :: && 0 <= k < |table| && r == Some(table[k]) && Holds(table[k], number)
                     && forall j | 0 <= j < |table| && Holds(table[j], number) :: j == k
  {
    hide Value, AsciiDigits, TrimZeros;
    var national := National(value);
    if national.None? {
      return None;
    }
    var trimmed := TrimZeros(national.value);
    if !IsMobile(trimmed) {
      return None;
    }
    var number := Value(10, DigitValues(trimmed));
    MobileInRange(trimmed);
    forall i: nat, j: nat | i < j < |table|
      ensures table[i].to <= table[j].to
    {
      RegisterAscends(table, i, j);
    }
    var at := PartitionPoint(table, number);
    RegisterTotal(table, number);
    if at < |table| && Holds(table[at], number) {
      r := Some(table[at]);
      LinearFinds(table, number, at);
    } else {
      r := None;
      Reached(table, number, at);
    }
  }

  /** The bisection stops at the block that holds the number. */
  lemma {:induction false} Reached(table: seq<Block>, number: nat, at: nat)
    requires Register(table) && FIRST_MOBILE <= number <= LAST_MOBILE && at <= |table|
    requires forall k | 0 <= k < at :: table[k].to < number
    requires forall k | at <= k < |table| :: number <= table[k].to
    ensures at < |table| && Holds(table[at], number)
  {
    if at > 0 {
      assert table[at - 1].to < number;
    }
  }

  // Operator names

  datatype Kind = Consumer | Academic

  datatype Operator = Operator(token: string, name: string, kind: Kind, ambiguous: bool)

  /** `token` stands at `at` with no ASCII letter or digit on either side. */
  predicate StandsAlone(haystack: string, token: string, at: nat) {
    && FoundAt(haystack, token, at)
    && (at == 0 || !IsAlnum(haystack[at - 1]))
    && (at + |token| == |haystack| || !IsAlnum(haystack[at + |token|]))
  }

  /** The text is the token between two others that do not touch it with a letter or digit. */
  ghost predicate HasWord(haystack: string, token: string) {
    exists before, after :: WordBetween(haystack, before, token, after)
  }

  ghost predicate WordBetween(haystack: string, before: string, token: string, after: string) {
    && haystack == before + token + after
    && (before == "" || !IsAlnum(before[|before| - 1])) && (after == "" || !IsAlnum(after[0]))
  }

  lemma {:induction false} HasWordAt(haystack: string, token: string)
    ensures HasWord(haystack, token) <==> exists at: nat :: StandsAlone(haystack, token, at)
  {
    hide IsAlnum;
    if at: nat :| StandsAlone(haystack, token, at) {
      var end := at + |token|;
      assert haystack == haystack[..at] + haystack[at..end] + haystack[end..];
      assert WordBetween(haystack, haystack[..at], token, haystack[end..]);
    }
    if before, after :| WordBetween(haystack, before, token, after) {
      assert haystack[|before|..|before| + |token|] == token;
      assert StandsAlone(haystack, token, |before|);
    }
  }

  method NetworkWordIn(haystack: string, token: string) returns (r: bool)
    requires token != ""
    ensures r <==> HasWord(haystack, token)
  {
    HasWordAt(haystack, token);
    hide HasWord;
    var from := 0;
    while true
      invariant from <= |haystack|
      invariant forall at: nat | at < from :: !StandsAlone(haystack, token, at)
      decreases |haystack| - from
    {
      var at := FindFrom(haystack, token, from);
      if at == -1 {
        return false;
      }
      var end := at + |token|;
      var left := at == 0 || !IsAlnum(haystack[at - 1]);
      var right := end == |haystack| || !IsAlnum(haystack[end]);
      if left && right {
        assert StandsAlone(haystack, token, at);
        return true;
      }
      from := at + 1;
    }
  }

  /** The row of the table may be read from this kind of text, and its token is a word of it. */
  ghost predicate Read(row: Operator, haystack: string, ambiguous: bool) {
    (ambiguous || !row.ambiguous) && HasWord(Lower(haystack), row.token)
  }

  method NetworkOperatorIn(table: seq<Operator>, haystack: string, ambiguous: bool) returns (r: Option<Operator>)
    requires forall k | 0 <= k < |table| :: table[k].token != ""
    ensures r.None? <==> forall k | 0 <= k < |table| :: !Read(table[k], haystack, ambiguous)
    ensures r.Some? ==> exists k :: && 0 <= k < |table| && r == Some(table[k]) && Read(table[k], haystack, ambiguous)
                                    && forall j | 0 <= j < k :: !Read(table[j], haystack, ambiguous)
  {
    var lowered := Lower(haystack);
    for k := 0 to |table|
      invariant forall j | 0 <= j < k :: !Read(table[j], haystack, ambiguous)
    {
      if ambiguous || !table[k].ambiguous {
        var found := NetworkWordIn(lowered, table[k].token);
        if found {
          return Some(table[k]);
        }
      }
    }
    r := None;
  }

  /** A handle names its operator first, ambiguous words included; free text only by a plain word. */
  method NetworkOperatorSplit(table: seq<Operator>, structured: string, descr: string) returns (r: Option<Operator>)
    requires forall k | 0 <= k < |table| :: table[k].token != ""
    ensures r.None? <==> forall k | 0 <= k < |table| :: !Read(table[k], structured, true) && !Read(table[k], descr, false)
    ensures r.Some? && r.value.ambiguous ==> Read(r.value, structured, true)
    ensures (exists k | 0 <= k < |table| :: Read(table[k], structured, true)) ==>
      exists k :: && 0 <= k < |table| && r == Some(table[k]) && Read(table[k], structured, true)
                  && forall j | 0 <= j < k :: !Read(table[j], structured, true)
    ensures r.Some? && (forall k | 0 <= k < |table| :: !Read(table[k], structured, true)) ==>
      exists k :: && 0 <= k < |table| && r == Some(table[k]) && Read(table[k], descr, false)
                  && forall j | 0 <= j < k :: !Read(table[j], descr, false)
  {
    hide HasWord;
    r := NetworkOperatorIn(table, structured, true);
    if r.None? {
      r := NetworkOperatorIn(table, descr, false);
    }
  }
}
