/**
 Base64 (RFC 4648 sections 4 and 5). The reference meaning of an encoding is positional: the
 sextets of a byte string are the base-64 numeral of its base-256 number, shifted left until the
 sextets fill up. Text is the UTF-8 bytes of the source's `&str`.
 */
module Base64 {
  import opened Prelude
  import opened Positional

  datatype Alphabet = Standard | UrlSafe

  /** The symbol of a sextet in the two 64-entry tables of the source. */
  function Symbol(alphabet: Alphabet, v: nat): byte
    requires v < 64
  {
    if v < 26 then 65 + v            // 'A'..'Z'
    else if v < 52 then 97 + v - 26  // 'a'..'z'
    else if v < 62 then 48 + v - 52  // '0'..'9'
    else if v == 62 then (if alphabet.Standard? then 43 else 45)  // '+' or '-'
    else (if alphabet.Standard? then 47 else 95)                  // '/' or '_'
  }

  function DecodeDigit(b: byte): Option<nat> {
    if 65 <= b <= 90 then Some(b - 65)
    else if 97 <= b <= 122 then Some(b - 97 + 26)
    else if 48 <= b <= 57 then Some(b - 48 + 52)
    else if b == 43 then Some(62)
    else if b == 47 then Some(63)
    else None
  }

  const EQUALS: byte := 61

  predicate IsAsciiWhitespace(b: byte) {
    b == 32 || b == 9 || b == 10 || b == 12 || b == 13
  }

  /** `text` without its ASCII whitespace. */
  function Strip(text: bytes): bytes {
    if |text| == 0 then []
    else
      var last := text[|text| - 1];
      Strip(text[..|text| - 1]) + (if IsAsciiWhitespace(last) then [] else [last])
  }

  /** The sextets of the one, two or three bytes that end a byte string. */
  function Group(tail: bytes): (ds: seq<nat>)
    requires 1 <= |tail| <= 3
    ensures Digits(64, ds) && |ds| == |tail| + 1
  {
    var a := tail[0];
    if |tail| == 1 then [a / 4, a % 4 * 16]
    else
      var b := tail[1];
      if |tail| == 2 then [a / 4, a % 4 * 16 + b / 16, b % 16 * 4]
      else
        var c := tail[2];
        [a / 4, a % 4 * 16 + b / 16, b % 16 * 4 + c / 64, c % 64]
  }

  /** Where the last group of `n` bytes starts. */
  function LastGroup(n: nat): (at: nat)
    requires n > 0
    ensures at < n <= at + 3 && at % 3 == 0 && Scale(n) == Scale(n - at)
  {
    n - (if n % 3 == 0 then 3 else n % 3)
  }

  /** The sextets of `bs`, three bytes to four, an incomplete last group to two or three. */
  function Sextets(bs: bytes): seq<nat> {
    if |bs| == 0 then []
    else
      var cut := LastGroup(|bs|);
      Sextets(bs[..cut]) + Group(bs[cut..])
  }

  function Symbols(alphabet: Alphabet, ds: seq<nat>): (text: bytes)
    requires Digits(64, ds)
  {
    seq(|ds|, k requires 0 <= k < |ds| => Symbol(alphabet, ds[k]))
  }

  function Padding(n: nat): bytes {
    if n % 3 == 1 then [EQUALS, EQUALS] else if n % 3 == 2 then [EQUALS] else []
  }

  function Encoded(bs: bytes, alphabet: Alphabet, pad: bool): bytes {
    SextetsShape(bs);
    Symbols(alphabet, Sextets(bs)) + (if pad then Padding(|bs|) else [])
  }

  /** The unused low bits of the last sextet, as a factor. */
  function Scale(n: nat): nat {
    if n % 3 == 1 then 16 else if n % 3 == 2 then 4 else 1
  }

  lemma {:induction false} SextetsShape(bs: bytes)
    ensures Digits(64, Sextets(bs))
    ensures |Sextets(bs)| == |bs| / 3 * 4 + (if |bs| % 3 == 0 then 0 else |bs| % 3 + 1)
  {
    if |bs| > 0 {
      SextetsShape(bs[..LastGroup(|bs|)]);
    }
  }

  lemma GroupValue1(ds: seq<nat>, head: bytes, a: byte)
    requires Value(64, ds) == Value(256, head)
    ensures Value(64, ds + Group([a])) == Value(256, head + [a]) * 16
  {
    ValueAppend(256, head, a);
    ValueAppend2(64, ds, a / 4, a % 4 * 16);
  }

  lemma GroupValue2(ds: seq<nat>, head: bytes, a: byte, b: byte)
    requires Value(64, ds) == Value(256, head)
    ensures Value(64, ds + Group([a, b])) == Value(256, head + [a, b]) * 4
  {
    var p, q := a % 4 * 16 + b / 16, b % 16 * 4;
    ValueAppend2(256, head, a, b);
    ValueAppend2(64, ds, a / 4, p);
    ValueAppend(64, ds + [a / 4, p], q);
    assert ds + Group([a, b]) == ds + [a / 4, p] + [q];
  }

  lemma GroupValue3(ds: seq<nat>, head: bytes, a: byte, b: byte, c: byte)
    requires Value(64, ds) == Value(256, head)
    ensures Value(64, ds + Group([a, b, c])) == Value(256, head + [a, b, c])
  {
    var p, q, r := a % 4 * 16 + b / 16, b % 16 * 4 + c / 64, c % 64;
    ValueAppend2(256, head, a, b);
    ValueAppend(256, head + [a, b], c);
    ValueAppend2(64, ds, a / 4, p);
    ValueAppend2(64, ds + [a / 4, p], q, r);
    assert head + [a, b, c] == head + [a, b] + [c];
    assert ds + Group([a, b, c]) == ds + [a / 4, p] + [q, r];
  }

  lemma GroupValue(ds: seq<nat>, head: bytes, tail: bytes)
    requires 1 <= |tail| <= 3 && Value(64, ds) == Value(256, head)
    ensures Value(64, ds + Group(tail)) == Value(256, head + tail) * Scale(|tail|)
  {
    hide Group, Value;
    if |tail| == 1 {
      GroupValue1(ds, head, tail[0]);
      assert tail == [tail[0]];
    } else if |tail| == 2 {
      GroupValue2(ds, head, tail[0], tail[1]);
      assert tail == [tail[0], tail[1]];
    } else {
      GroupValue3(ds, head, tail[0], tail[1], tail[2]);
      assert tail == [tail[0], tail[1], tail[2]];
    }
  }

  lemma SextetsStep(bs: bytes)
    requires |bs| > 0
    ensures var cut := LastGroup(|bs|);
      && cut < |bs| <= cut + 3 && Scale(cut) == 1 && Scale(|bs|) == Scale(|bs| - cut)
      && Sextets(bs) == Sextets(bs[..cut]) + Group(bs[cut..])
  {
    hide Group, LastGroup;
  }

  lemma NoSextets()
    ensures Value(64, Sextets([])) == 0 == Value(256, [])
  {
  }

  /** The sextets denote the number the bytes denote, shifted by the unused bits. */
  lemma {:induction false} SextetsValue(bs: bytes)
    ensures Value(64, Sextets(bs)) == Value(256, bs) * Scale(|bs|)
    decreases |bs|
  {
    hide Group, Value, LastGroup, Sextets, Scale;
    if |bs| == 0 {
      assert bs == [];
      NoSextets();
    } else {
      SextetsStep(bs);
      var cut := LastGroup(|bs|);
      var head, tail := bs[..cut], bs[cut..];
      SextetsValue(head);
      assert Value(64, Sextets(head)) == Value(256, head);
      GroupValue(Sextets(head), head, tail);
      assert head + tail == bs;
    }
  }

  lemma SymbolsAppend(alphabet: Alphabet, ds: seq<nat>, es: seq<nat>)
    requires Digits(64, ds) && Digits(64, es)
    ensures Digits(64, ds + es)
    ensures Symbols(alphabet, ds + es) == Symbols(alphabet, ds) + Symbols(alphabet, es)
  {
  }

  lemma EncodedGroup(bs: bytes, at: nat, end: nat, alphabet: Alphabet, pad: bool)
    requires at < end <= |bs| && at % 3 == 0 && (end == at + 3 || end == |bs| < at + 3)
    ensures Encoded(bs[..end], alphabet, pad)
         == Encoded(bs[..at], alphabet, pad) + Symbols(alphabet, Group(bs[at..end]))
            + (if pad then Padding(end - at) else [])
  {
    hide Group, Symbols, Symbol;
    assert bs[..end][..at] == bs[..at];
    assert bs[..end][at..] == bs[at..end];
    assert LastGroup(end) == at && Padding(end) == Padding(end - at) && Padding(at) == [];
    assert Sextets(bs[..end]) == Sextets(bs[..at]) + Group(bs[at..end]);
    hide Sextets, LastGroup, Padding;
    SextetsShape(bs[..at]);
    SextetsShape(bs[..end]);
    SymbolsAppend(alphabet, Sextets(bs[..at]), Group(bs[at..end]));
  }

  /** One group's text, pushed symbol by symbol. */
  method EncodeGroup(chunk: bytes, alphabet: Alphabet, pad: bool) returns (text: bytes)
    requires 1 <= |chunk| <= 3
    ensures text == Symbols(alphabet, Group(chunk)) + (if pad then Padding(|chunk|) else [])
  {
    hide Symbol;
    var a := chunk[0];
    var b := if |chunk| > 1 then chunk[1] else 0;
    var c := if |chunk| > 2 then chunk[2] else 0;
    text := [Symbol(alphabet, a / 4)];
    text := text + [Symbol(alphabet, a % 4 * 16 + b / 16)];
    if |chunk| > 1 {
      text := text + [Symbol(alphabet, b % 16 * 4 + c / 64)];
    } else if pad {
      text := text + [EQUALS];
    }
    if |chunk| > 2 {
      text := text + [Symbol(alphabet, c % 64)];
    } else if pad {
      text := text + [EQUALS];
    }
  }

  method Encode(bs: bytes, alphabet: Alphabet, pad: bool) returns (out: bytes)
    ensures out == Encoded(bs, alphabet, pad)
  {
    hide Symbols, Group, Sextets, Padding;
    out := [];
    var at := 0;
    EncodedEmpty(alphabet, pad);
    while at < |bs|
      invariant 0 <= at <= |bs|
      invariant at < |bs| ==> at % 3 == 0
      invariant out == Encoded(bs[..at], alphabet, pad)
    {
      var end := Min(at + 3, |bs|);
      EncodedGroup(bs, at, end, alphabet, pad);
      var text := EncodeGroup(bs[at..end], alphabet, pad);
      out := out + text;
      at := end;
    }
    assert bs[..at] == bs;
  }

  lemma EncodedEmpty(alphabet: Alphabet, pad: bool)
    ensures Encoded([], alphabet, pad) == []
  {
  }

  /** The first `digits` bytes of `s` are symbols of the standard alphabet and the rest are padding. */
  ghost predicate Shaped(s: bytes, digits: nat) {
    && digits <= |s| <= digits + 2
    && (forall k | 0 <= k < digits :: DecodeDigit(s[k]).Some?)
    && (forall k | digits <= k < |s| :: s[k] == EQUALS)
  }

  /** The numeral `digits` symbols of `s` write. */
  ghost function DigitValues(s: bytes, digits: nat): (ds: seq<nat>)
    requires Shaped(s, digits)
    ensures Digits(64, ds)
  {
    seq(digits, k requires 0 <= k < digits => DecodeDigit(s[k]).value)
  }

  /** RFC 4648 section 3.2: padding, when present, fills the last group of four. */
  predicate PaddingFits(digits: nat, padding: nat) {
    || (digits % 4 == 0 && padding == 0)
    || (digits % 4 == 2 && padding in {0, 2})
    || (digits % 4 == 3 && padding in {0, 1})
  }

  /** The bits pending after `n` sextets. */
  function Pending(n: nat): nat {
    if n % 4 == 0 then 0 else if n % 4 == 1 then 6 else if n % 4 == 2 then 4 else 2
  }

  /** `2` to the power of a pending bit count. */
  function Unit(pending: nat): (unit: nat)
    ensures unit > 0
  {
    if pending == 0 then 1 else if pending == 2 then 4 else if pending == 4 then 16 else 64
  }

  /** `s` is the encoding of `b`, padded or not. */
  ghost predicate Encodes(s: bytes, b: bytes) {
    s == Encoded(b, Standard, true) || s == Encoded(b, Standard, false)
  }

  lemma StripAppend(text: bytes, k: nat)
    requires k < |text|
    ensures Strip(text[..k + 1])
         == Strip(text[..k]) + (if IsAsciiWhitespace(text[k]) then [] else [text[k]])
  {
    assert text[..k + 1][..k] == text[..k];
  }

  lemma {:induction false} StripPrefix(text: bytes, k: nat)
    requires k <= |text|
    ensures Strip(text[..k]) <= Strip(text)
    decreases |text| - k
  {
    if k == |text| {
      assert text[..k] == text;
    } else {
      StripAppend(text, k);
      StripPrefix(text, k + 1);
    }
  }

  lemma SymbolDecodes(v: nat)
    requires v < 64
    ensures DecodeDigit(Symbol(Standard, v)) == Some(v)
    ensures Symbol(Standard, v) != EQUALS && !IsAsciiWhitespace(Symbol(Standard, v))
  {
  }

  lemma DigitEncodes(b: byte)
    requires DecodeDigit(b).Some?
    ensures DecodeDigit(b).value < 64 && Symbol(Standard, DecodeDigit(b).value) == b
    ensures b != EQUALS
  {
  }

  /** Every encoding is digits then fitting padding, and its digits are the sextets. */
  lemma EncodesShape(s: bytes, b: bytes)
    requires Encodes(s, b)
    ensures var n := |Sextets(b)|;
      Shaped(s, n) && DigitValues(s, n) == Sextets(b) && PaddingFits(n, |s| - n)
  {
    hide Symbol, DecodeDigit, Sextets;
    SextetsShape(b);
    var ds := Sextets(b);
    assert s[..|ds|] == Symbols(Standard, ds);
    forall k | 0 <= k < |ds|
      ensures DecodeDigit(s[k]) == Some(ds[k])
    {
      SymbolDecodes(ds[k]);
      assert s[k] == s[..|ds|][k];
    }
    assert s[|ds|..] == [] || s[|ds|..] == Padding(|b|);
    assert forall k | |ds| <= k < |s| :: s[k] == s[|ds|..][k - |ds|];
    assert DigitValues(s, |ds|) == ds;
  }

  /** Text has one reading as digits then padding. */
  lemma ShapeUnique(s: bytes, n: nat, m: nat)
    requires Shaped(s, n) && Shaped(s, m)
    ensures n == m
  {
    if n < m {
      DigitEncodes(s[n]);
    } else if m < n {
      DigitEncodes(s[m]);
    }
  }

  lemma ShapedPrefix(p: bytes, s: bytes, n: nat)
    requires p <= s && Shaped(s, n)
    ensures exists m :: Shaped(p, m)
  {
    assert forall k | 0 <= k < |p| :: p[k] == s[k];
    assert Shaped(p, Min(n, |p|));
  }

  /** Bytes that hold all but the pending bits of canonical digits are the one byte string they encode. */
  lemma {:induction false} CanonicalDecodes(s: bytes, n: nat, out: bytes, b: bytes)
    requires Shaped(s, n) && PaddingFits(n, |s| - n)
    requires |out| == n / 4 * 3 + (if n % 4 == 0 then 0 else n % 4 - 1)
    requires Value(64, DigitValues(s, n)) == Value(256, out) * Unit(Pending(n))
    ensures Encodes(s, b) <==> out == b
  {
    hide Value, Symbol, DecodeDigit, Group;
    SextetsValue(out);
    SextetsShape(out);
    assert |Sextets(out)| == n && Scale(|out|) == Unit(Pending(n));
    ValueInjective(64, Sextets(out), DigitValues(s, n));
    EncodesItself(s, n, out);
    if Encodes(s, b) {
      EncodesShape(s, b);
      ShapeUnique(s, n, |Sextets(b)|);
      SextetsInjective(out, b);
    }
  }

  lemma EncodesItself(s: bytes, n: nat, b: bytes)
    requires Shaped(s, n) && PaddingFits(n, |s| - n)
    requires DigitValues(s, n) == Sextets(b)
    ensures Encodes(s, b)
  {
    hide Symbol, DecodeDigit, Sextets;
    SextetsShape(b);
    forall k | 0 <= k < n
      ensures Symbol(Standard, Sextets(b)[k]) == s[k]
    {
      DigitEncodes(s[k]);
    }
    var text, rest := s[..n], s[n..];
    assert text == Symbols(Standard, Sextets(b));
    assert s == text + rest;
    assert rest == [] || rest == Padding(|b|);
    hide Symbols, Padding;
  }

  /** Two byte strings with one sextet string are equal. */
  lemma SextetsInjective(b: bytes, c: bytes)
    requires Sextets(b) == Sextets(c)
    ensures b == c
  {
    hide Value, Group;
    SextetsShape(b);
    SextetsShape(c);
    SextetsValue(b);
    SextetsValue(c);
    assert |b| == |c|;
    ValueInjective(256, b, c);
  }

  const U32: nat := 0x1_0000_0000

  /** The wrapped `u32` accumulator after `accumulator << 6 | v`, `v` filling the six cleared bits. */
  function Shifted(accumulator: nat, v: nat): nat {
    accumulator * 64 % U32 + v
  }

  /** The accumulator that wraps stays the unbounded one reduced to 32 bits. */
  lemma ShiftedWraps(big: nat, v: nat)
    requires v < 64
    ensures Shifted(big % U32, v) == (big * 64 + v) % U32
  {
    var low := big % U32;
    var kept := low % 0x400_0000;
    assert big == U32 * (big / U32) + low;
    assert low * 64 == U32 * (low / 0x400_0000) + kept * 64;
    EuclideanModulus(big * 64 + v, 64 * (big / U32) + low / 0x400_0000, U32, kept * 64 + v);
    EuclideanModulus(low * 64, low / 0x400_0000, U32, kept * 64);
  }

  /** Bits the accumulator has shifted out never reach an output byte or the canonicity check. */
  lemma StaleBitsUnseen(big: nat, pending: nat)
    requires pending in {0, 2, 4, 6}
    ensures big % U32 / Unit(pending) % 256 == big / Unit(pending) % 256
    ensures big % U32 % Unit(pending) == big % Unit(pending)
  {
    var t := big / U32;
    if pending == 0 {
      SameLowBits(big, t, 1, 0x100_0000);
    } else if pending == 2 {
      SameLowBits(big, t, 4, 0x40_0000);
    } else if pending == 4 {
      SameLowBits(big, t, 16, 0x10_0000);
    } else {
      SameLowBits(big, t, 64, 0x4_0000);
    }
  }

  lemma SameLowBits(big: nat, t: nat, unit: nat, rest: nat)
    requires unit > 0 && unit * 256 * rest == U32 && t == big / U32
    ensures big % U32 / unit % 256 == big / unit % 256
    ensures big % U32 % unit == big % unit
  {
    hide Value;
    var a := big % U32;
    var high := a / unit;
    assert big == U32 * t + a;
    assert U32 * t == (256 * rest * t) * unit;
    assert a == high * unit + a % unit;
    EuclideanModulus(big, 256 * rest * t + high, unit, a % unit) by {
      assert (256 * rest * t + high) * unit == (256 * rest * t) * unit + high * unit;
    }
    EuclideanModulus(256 * rest * t + high, rest * t + high / 256, 256, high % 256) by {
      assert 256 * rest * t == 256 * (rest * t);
    }
  }

  /**
   One sextet: the unbounded number splits into the bytes already output, one more byte when
   eight bits are there, and the bits still pending.
   */
  lemma SextetStep(q: nat, low: nat, unit: nat, v: nat, next: nat, big: nat)
    requires low < unit && v < 64 && (unit, next) in {(4, 1), (16, 4), (64, 16)}
    requires big == (q * unit + low) * 64 + v
    ensures big == (q * 256 + big / next % 256) * next + big % next
  {
    var tail := low * 64 + v;
    var out := tail / next;
    if unit == 4 {
      EuclideanModulus(big, q * 256 + tail, 1, 0);
    } else if unit == 16 {
      EuclideanModulus(big, q * 256 + tail / 4, 4, tail % 4);
    } else {
      EuclideanModulus(big, q * 256 + tail / 16, 16, tail % 16);
    }
    EuclideanModulus(q * 256 + out, q, 256, out);
  }

  /** One more symbol of well-formed text, and the two ways it can break it. */
  lemma {:induction false} ShapedStep(s: bytes, byte: byte, digits: nat)
    requires Shaped(s, digits)
    ensures digits <= |s| <= digits + 2
    ensures byte == EQUALS && |s| < digits + 2 ==> Shaped(s + [byte], digits)
    ensures byte != EQUALS && |s| == digits && DecodeDigit(byte).Some? ==> Shaped(s + [byte], digits + 1)
    ensures byte == EQUALS && |s| == digits + 2 ==> Malformed(s + [byte], digits)
    ensures byte != EQUALS && (|s| > digits || DecodeDigit(byte).None?) ==> Malformed(s + [byte], digits)
  {
    hide DecodeDigit;
    assert (s + [byte])[..|s|] == s;
  }

  lemma NothingShaped()
    ensures Strip([]) == [] && Shaped([], 0)
  {
  }

  /** The first pass: how many digits and how much padding the text holds, when it is well formed. */
  method Validate(text: bytes) returns (counts: Option<(nat, nat)>)
    ensures counts.Some? ==>
      var (digits, padding) := counts.value;
      Shaped(Strip(text), digits) && |Strip(text)| == digits + padding && PaddingFits(digits, padding)
    ensures counts.None? ==> forall b :: !Encodes(Strip(text), b)
  {
    hide DecodeDigit, Encodes, Shaped, Malformed, Strip, PaddingFits, IsAsciiWhitespace;
    var digits, padding := 0, 0;
    var at := 0;
    NothingShaped();
    assert text[..at] == [];
    while at < |text|
      invariant 0 <= at <= |text|
      invariant |Strip(text[..at])| == digits + padding
      invariant Shaped(Strip(text[..at]), digits)
    {
      var byte := text[at];
      StripAppend(text, at);
      ghost var before := Strip(text[..at]);
      ShapedStep(before, byte, digits);
      assert before + [] == before;
      at := at + 1;
      if !IsAsciiWhitespace(byte) {
        if byte == EQUALS {
          padding := padding + 1;
          if padding > 2 {
            MalformedPrefix(text, at, digits);
            return None;
          }
        } else {
          if padding != 0 || DecodeDigit(byte).None? {
            MalformedPrefix(text, at, digits);
            return None;
          }
          digits := digits + 1;
        }
      }
    }
    assert text[..at] == text;
    if PaddingFits(digits, padding) {
      return Some((digits, padding));
    }
    WrongPadding(Strip(text), digits);
    return None;
  }

  /** Text whose padding does not fit its digits encodes nothing. */
  lemma {:induction false} WrongPadding(s: bytes, digits: nat)
    requires Shaped(s, digits) && !PaddingFits(digits, |s| - digits)
    ensures forall b :: !Encodes(s, b)
  {
    hide Encodes, Sextets;
    forall b
      ensures !Encodes(s, b)
    {
      if Encodes(s, b) {
        EncodesShape(s, b);
        hide PaddingFits;
        ShapeUnique(s, digits, |Sextets(b)|);
      }
    }
  }

  /** A byte that breaks the shape of a prefix breaks every encoding. */
  lemma MalformedPrefix(text: bytes, at: nat, digits: nat)
    requires 0 < at <= |text|
    requires Malformed(Strip(text[..at]), digits)
    ensures forall b :: !Encodes(Strip(text), b)
  {
    var s := Strip(text[..at]);
    StripPrefix(text, at);
    forall b | Encodes(Strip(text), b)
      ensures false
    {
      EncodesShape(Strip(text), b);
      ShapedPrefix(s, Strip(text), |Sextets(b)|);
      var m :| Shaped(s, m);
      MalformedUnshaped(s, digits, m);
    }
  }

  /** `s` is digits and padding up to its last byte, which fits neither. */
  ghost predicate Malformed(s: bytes, digits: nat) {
    && |s| > 0
    && Shaped(s[..|s| - 1], digits)
    && var last := s[|s| - 1];
       if last == EQUALS then |s| > digits + 2 else |s| - 1 > digits || DecodeDigit(last).None?
  }

  lemma MalformedUnshaped(s: bytes, digits: nat, m: nat)
    requires Malformed(s, digits)
    ensures !Shaped(s, m)
  {
    if Shaped(s, m) {
      var init, k := s[..|s| - 1], Min(m, |s| - 1);
      assert Shaped(init, k);
      ShapeUnique(init, digits, k);
    }
  }

  /** The number of whole bytes `n` sextets hold, as the decoder reserves it up front. */
  function Capacity(n: nat): nat {
    n / 4 * 3 + (if n % 4 == 2 then 1 else 0) + 2 * (if n % 4 == 3 then 1 else 0)
  }

  /**
   What the second pass keeps after `k` of the digits `ds`: the output and the pending low bits of
   the accumulator together are the number read, whatever the wrapped accumulator has lost.
   */
  ghost predicate Reading(ds: seq<nat>, k: nat, out: bytes, accumulator: nat, pending: nat) {
    && k <= |ds| && pending == Pending(k) && 8 * |out| + pending == 6 * k
    && var big := Value(64, ds[..k]);
       && accumulator == big % U32
       && big == Value(256, out) * Unit(pending) + big % Unit(pending)
  }

  lemma ReadingStart(ds: seq<nat>)
    ensures Reading(ds, 0, [], 0, 0)
  {
  }

  /** One digit, when no byte completes. */
  lemma ReadingFirst(ds: seq<nat>, k: nat, out: bytes, accumulator: nat)
    requires Digits(64, ds) && k < |ds|
    requires Reading(ds, k, out, accumulator, 0)
    ensures Reading(ds, k + 1, out, Shifted(accumulator, ds[k]), 6)
  {
    hide Value, Shifted, U32;
    PendingStep(k);
    var big, v := Value(64, ds[..k]), ds[k];
    assert ds[..k + 1] == ds[..k] + [v];
    ValueAppend(64, ds[..k], v);
    ShiftedWraps(big, v);
    EuclideanModulus(big * 64 + v, Value(256, out), 64, v);
  }

  /** One digit, when a byte completes. */
  lemma ReadingByte(ds: seq<nat>, k: nat, out: bytes, accumulator: nat, pending: nat)
    requires Digits(64, ds) && k < |ds| && pending > 0
    requires Reading(ds, k, out, accumulator, pending)
    ensures var shifted, left := Shifted(accumulator, ds[k]), pending - 2;
      Reading(ds, k + 1, out + [shifted / Unit(left) % 256], shifted, left)
  {
    hide Value, Shifted, Unit, Pending, U32;
    PendingStep(k);
    var big, v, left := Value(64, ds[..k]), ds[k], pending - 2;
    ValueAppend(64, ds[..k], v);
    assert ds[..k + 1] == ds[..k] + [v];
    ByteStep(big, Value(256, out), pending, v);
    ValueAppend(256, out, (big * 64 + v) / Unit(left) % 256);
  }

  lemma PendingStep(k: nat)
    ensures Pending(k) in {0, 2, 4, 6}
    ensures Pending(k + 1) == if Pending(k) == 0 then 6 else Pending(k) - 2
  {
  }

  lemma ByteStep(big: nat, q: nat, pending: nat, v: nat)
    requires v < 64 && pending in {2, 4, 6} && big == q * Unit(pending) + big % Unit(pending)
    ensures Unit(pending - 2) > 0
    ensures var big', next, shifted := big * 64 + v, Unit(pending - 2), Shifted(big % U32, v);
      && shifted == big' % U32
      && shifted / next % 256 == big' / next % 256
      && big' == (q * 256 + big' / next % 256) * next + big' % next
  {
    hide Shifted;
    var unit, next := Unit(pending), Unit(pending - 2);
    ShiftedWraps(big, v);
    StaleBitsUnseen(big * 64 + v, pending - 2);
    assert (unit, next) in {(4, 1), (16, 4), (64, 16)} && big % unit < unit;
    hide Unit;
    SextetStep(q, big % unit, unit, v, next, big * 64 + v);
  }

  /** What the finished reading decides. */
  lemma ReadingDone(s: bytes, n: nat, out: bytes, accumulator: nat, b: bytes)
    requires Shaped(s, n) && PaddingFits(n, |s| - n)
    requires Reading(DigitValues(s, n), n, out, accumulator, Pending(n))
    ensures Encodes(s, b) <==> accumulator % Unit(Pending(n)) == 0 && out == b
  {
    hide Value, Sextets, Symbol, DecodeDigit;
    var ds, unit := DigitValues(s, n), Unit(Pending(n));
    var big := Value(64, ds);
    assert ds[..n] == ds;
    StaleBitsUnseen(big, Pending(n));
    if accumulator % unit == 0 {
      CanonicalDecodes(s, n, out, b);
    } else if Encodes(s, b) {
      EncodesShape(s, b);
      ShapeUnique(s, n, |Sextets(b)|);
      SextetsShape(b);
      SextetsValue(b);
      EuclideanModulus(big, Value(256, b), unit, 0);
    }
  }

  lemma NextByte(text: bytes, at: nat)
    requires at < |text| ==> !IsAsciiWhitespace(text[at])
    requires at <= |text|
    ensures at < |text| ==> |Strip(text[..at])| < |Strip(text)| && Strip(text)[|Strip(text[..at])|] == text[at]
  {
    if at < |text| {
      StripAppend(text, at);
      StripPrefix(text, at + 1);
    }
  }

  lemma DigitsNotPadding(s: bytes, n: nat)
    requires Shaped(s, n)
    ensures forall j | 0 <= j < n :: s[j] != EQUALS
  {
  }

  /** The second pass: the digits of well-formed text, read into whole bytes and pending bits. */
  method ReadDigits(text: bytes, ghost n: nat) returns (out: bytes, accumulator: nat, pending: nat)
    requires Shaped(Strip(text), n)
    ensures Reading(DigitValues(Strip(text), n), n, out, accumulator, pending)
    ensures pending == Pending(n)
  {
    hide Reading, DecodeDigit, Shifted, Unit, U32;
    ghost var s := Strip(text);
    ghost var ds := DigitValues(s, n);
    out, accumulator, pending := [], 0, 0;
    var at := 0;
    ghost var k := 0;
    ReadingStart(ds);
    while at < |text| && text[at] != EQUALS
      invariant 0 <= at <= |text| && k <= n
      invariant Strip(text[..at]) == s[..k]
      invariant Reading(ds, k, out, accumulator, pending)
      invariant pending == Pending(k)
    {
      var byte := text[at];
      StripAppend(text, at);
      StripPrefix(text, at + 1);
      at := at + 1;
      if !IsAsciiWhitespace(byte) {
        assert s[k] == byte;
        var value := DecodeDigit(byte).value;
        assert ds[k] == value;
        PendingStep(k);
        ghost var pending0, accumulator0, out0 := pending, accumulator, out;
        accumulator := Shifted(accumulator, value);
        pending := pending + 6;
        if pending >= 8 {
          pending := pending - 8;
          out := out + [accumulator / Unit(pending) % 256];
          ReadingByte(ds, k, out0, accumulator0, pending0);
        } else {
          ReadingFirst(ds, k, out0, accumulator0);
        }
        k := k + 1;
      }
    }
    if at == |text| {
      assert text[..at] == text;
    } else {
      NextByte(text, at);
      DigitsNotPadding(s, n);
    }
  }

  /** The text decodes to `b` exactly when it is an encoding of `b`, padded or not, spread over white space. */
  method DecodeStandard(text: bytes) returns (r: Option<bytes>)
    ensures forall b :: r == Some(b) <==> Encodes(Strip(text), b)
  {
    hide Encodes, Reading, DecodeDigit, Sextets, Encoded, Value;
    var counts := Validate(text);
    if counts.None? {
      return None;
    }
    ghost var s := Strip(text);
    ghost var n := counts.value.0;
    var out, accumulator, pending := ReadDigits(text, n);
    ReadingLength(DigitValues(s, n), out, accumulator);
    assert |out| == Capacity(n);
    forall b ensures Encodes(s, b) <==> accumulator % Unit(pending) == 0 && out == b {
      ReadingDone(s, n, out, accumulator, b);
    }
    if pending != 0 && accumulator % Unit(pending) != 0 {
      return None;
    }
    return Some(out);
  }

  lemma ReadingLength(ds: seq<nat>, out: bytes, accumulator: nat)
    requires |ds| % 4 != 1 && Reading(ds, |ds|, out, accumulator, Pending(|ds|))
    ensures |out| == Capacity(|ds|)
  {
  }

  lemma {:induction false} StripNothing(text: bytes)
    requires forall k | 0 <= k < |text| :: !IsAsciiWhitespace(text[k])
    ensures Strip(text) == text
  {
    if |text| > 0 {
      StripNothing(text[..|text| - 1]);
    }
  }

  /**
   Decoding inverts encoding: what the encoder writes, padded or not, decodes to the bytes encoded
   and to no others.
   */
  lemma RoundTrip(b: bytes, pad: bool, c: bytes)
    ensures Encodes(Strip(Encoded(b, Standard, pad)), c) <==> b == c
  {
    hide Symbol, DecodeDigit;
    var s := Encoded(b, Standard, pad);
    SextetsShape(b);
    forall k | 0 <= k < |s|
      ensures !IsAsciiWhitespace(s[k])
    {
      if k < |Sextets(b)| {
        SymbolDecodes(Sextets(b)[k]);
      }
    }
    StripNothing(s);
    if Encodes(s, c) {
      EncodesShape(s, b);
      EncodesShape(s, c);
      ShapeUnique(s, |Sextets(b)|, |Sextets(c)|);
      SextetsInjective(b, c);
    }
  }

  /** No two byte strings share an encoding in either alphabet, padded or not. */
  lemma EncodedInjective(b: bytes, c: bytes, alphabet: Alphabet, pad: bool)
    requires Encoded(b, alphabet, pad) == Encoded(c, alphabet, pad)
    ensures b == c
  {
    hide Symbol, Group, Sextets;
    SextetsShape(b);
    SextetsShape(c);
    var s, xs, ys := Encoded(b, alphabet, pad), Sextets(b), Sextets(c);
    if |xs| < |ys| {
      assert s[|xs|] == Symbol(alphabet, ys[|xs|]) == EQUALS;
      SymbolInjective(alphabet, ys[|xs|], ys[|xs|]);
    } else if |ys| < |xs| {
      assert s[|ys|] == Symbol(alphabet, xs[|ys|]) == EQUALS;
      SymbolInjective(alphabet, xs[|ys|], xs[|ys|]);
    } else {
      forall k | 0 <= k < |xs|
        ensures xs[k] == ys[k]
      {
        assert s[k] == Symbol(alphabet, xs[k]) == Symbol(alphabet, ys[k]);
        SymbolInjective(alphabet, xs[k], ys[k]);
      }
      assert xs == ys;
      SextetsInjective(b, c);
    }
  }

  lemma SymbolInjective(alphabet: Alphabet, v: nat, w: nat)
    requires v < 64 && w < 64 && Symbol(alphabet, v) == Symbol(alphabet, w)
    ensures v == w && Symbol(alphabet, v) != EQUALS
  {
  }

  // The encoding by its definition

  ghost function Capitals(): string {
    "ABCDEFGHIJKLMNOPQRSTUVWXYZ"
  }

  ghost function Minuscules(): string {
    "abcdefghijklmnopqrstuvwxyz"
  }

  ghost function Figures(): string {
    "0123456789"
  }

  /** The alphabets of sections 4 and 5 of RFC 4648. */
  ghost function Letters(alphabet: Alphabet): string {
    Capitals() + Minuscules() + Figures() + (if alphabet.Standard? then "+/" else "-_")
  }

  lemma CapitalsExact(v: nat)
    requires v < 26
    ensures |Capitals()| == 26 && Capitals()[v] as int == 65 + v
  {
  }

  lemma MinusculesExact(v: nat)
    requires v < 26
    ensures |Minuscules()| == 26 && Minuscules()[v] as int == 97 + v
  {
  }

  lemma FiguresExact(v: nat)
    requires v < 10
    ensures |Figures()| == 10 && Figures()[v] as int == 48 + v
  {
  }

  lemma LettersExact(alphabet: Alphabet, v: nat)
    requires v < 64
    ensures |Letters(alphabet)| == 64 && Symbol(alphabet, v) == Letters(alphabet)[v] as int
  {
    hide Capitals, Minuscules, Figures;
    CapitalsExact(if v < 26 then v else 0);
    MinusculesExact(if 26 <= v < 52 then v - 26 else 0);
    FiguresExact(if 52 <= v < 62 then v - 52 else 0);
  }

  /** How many symbols carry the bits of `n` bytes. */
  ghost function SymbolCount(n: nat): nat {
    (8 * n + 5) / 6
  }

  /** The bits the symbols of `n` bytes have to spare. */
  ghost function Spare(n: nat): nat {
    6 * SymbolCount(n) - 8 * n
  }

  /** `n` shifted up by `bits`. */
  ghost function ShiftedUp(n: nat, bits: nat): nat {
    if bits == 0 then n else 2 * ShiftedUp(n, bits - 1)
  }

  /** The equals signs that fill `n` symbols to a multiple of four. */
  ghost function Filling(n: nat, pad: bool): (equals: nat)
    ensures equals <= 3 && (pad ==> (n + equals) % 4 == 0) && (!pad ==> equals == 0)
  {
    if pad then (4 - n % 4) % 4 else 0
  }

  /**
   What an encoding is: the digits in base 64 of the bytes' big-endian number, shifted up by the bits left over,
   in the alphabet's letters, and filled with equals signs.
   */
  ghost predicate IsEncoding(text: bytes, bs: bytes, alphabet: Alphabet, pad: bool) {
    var n := SymbolCount(|bs|);
    && |text| == n + Filling(n, pad)
    && (forall k | n <= k < |text| :: text[k] == 61)
    && exists ds: seq<nat> ::
         && |ds| == n && Digits(64, ds)
         && Value(64, ds) == ShiftedUp(Value(256, bs), Spare(|bs|))
         && forall k | 0 <= k < n :: text[k] == Letter(alphabet, ds[k])
  }

  ghost function Letter(alphabet: Alphabet, v: nat): (c: int)
    requires v < 64
  {
    LettersExact(alphabet, v);
    Letters(alphabet)[v] as int
  }

  lemma CountThirds(q: nat, r: nat)
    requires r < 3
    ensures SymbolCount(3 * q + r) == q * 4 + (if r == 0 then 0 else r + 1)
    ensures Spare(3 * q + r) == if r == 0 then 0 else if r == 1 then 4 else 2
  {
  }

  lemma ShiftedScale(v: nat, n: nat)
    ensures ShiftedUp(v, Spare(n)) == v * Scale(n)
    ensures SymbolCount(n) == n / 3 * 4 + (if n % 3 == 0 then 0 else n % 3 + 1)
    ensures forall pad :: Filling(SymbolCount(n), pad) == if pad then |Padding(n)| else 0
  {
    hide SymbolCount, Spare;
    var q, r := n / 3, n % 3;
    assert n == 3 * q + r;
    CountThirds(q, r);
    assert ShiftedUp(v, 0) == v && ShiftedUp(v, 1) == 2 * v && ShiftedUp(v, 2) == 4 * v;
    assert ShiftedUp(v, 3) == 8 * v && ShiftedUp(v, 4) == 16 * v;
  }

  /** The encoder writes the encoding of section 4 or 5 of RFC 4648, and it alone. */
  lemma {:induction false} EncodedExact(text: bytes, bs: bytes, alphabet: Alphabet, pad: bool)
    ensures text == Encoded(bs, alphabet, pad) <==> IsEncoding(text, bs, alphabet, pad)
  {
    hide *;
    EncodedIs(bs, alphabet, pad);
    if IsEncoding(text, bs, alphabet, pad) {
      EncodingUnique(text, Encoded(bs, alphabet, pad), bs, alphabet, pad);
    }
  }

  lemma {:induction false} EncodedIs(bs: bytes, alphabet: Alphabet, pad: bool)
    ensures IsEncoding(Encoded(bs, alphabet, pad), bs, alphabet, pad)
  {
    hide Sextets, Value, Letters, Symbol, ShiftedUp, Scale, SymbolCount, Filling, Spare;
    var ds, text := Sextets(bs), Encoded(bs, alphabet, pad);
    SextetsShape(bs);
    SextetsValue(bs);
    ShiftedScale(Value(256, bs), |bs|);
    forall k | 0 <= k < |ds|
      ensures text[k] == Letter(alphabet, ds[k])
    {
      LettersExact(alphabet, ds[k]);
    }
  }

  lemma {:induction false} EncodingUnique(text: bytes, other: bytes, bs: bytes, alphabet: Alphabet, pad: bool)
    requires IsEncoding(text, bs, alphabet, pad) && IsEncoding(other, bs, alphabet, pad)
    ensures text == other
  {
    hide Value, Letter, ShiftedUp, SymbolCount, Filling, Spare;
    var n := SymbolCount(|bs|);
    var ds: seq<nat> :| |ds| == n && Digits(64, ds)
      && Value(64, ds) == ShiftedUp(Value(256, bs), Spare(|bs|))
      && forall k | 0 <= k < n :: text[k] == Letter(alphabet, ds[k]);
    var es: seq<nat> :| |es| == n && Digits(64, es)
      && Value(64, es) == ShiftedUp(Value(256, bs), Spare(|bs|))
      && forall k | 0 <= k < n :: other[k] == Letter(alphabet, es[k]);
    ValueInjective(64, ds, es);
  }

  /** White space, and it alone, may stand anywhere in a text or be left out. */
  lemma {:induction false} StripExact(before: bytes, b: byte, after: bytes)
    ensures Strip(before + [b] + after) == Strip(before + after) <==> b == 32 || b == 9 || b == 10 || b == 12 || b == 13
  {
    hide IsAsciiWhitespace, Strip;
    StripJoin(before + [b], after);
    StripJoin(before, [b]);
    StripJoin(before, after);
    StripOne(b);
    var p, q := Strip(before), Strip(after);
    assert p + [] == p;
    if Strip([b]) == [b] {
      assert |p + [b] + q| == |p + q| + 1;
    }
  }

  lemma StripOne(b: byte)
    ensures Strip([b]) == if b == 32 || b == 9 || b == 10 || b == 12 || b == 13 then [] else [b]
  {
    assert [b][..0] == [];
    assert Strip([]) == [];
  }

  lemma {:induction false} StripJoin(text: bytes, more: bytes)
    ensures Strip(text + more) == Strip(text) + Strip(more)
    decreases |more|
  {
    hide IsAsciiWhitespace;
    if more == [] {
      assert text + more == text && Strip(more) == [];
    } else {
      var n := |more| - 1;
      StripJoin(text, more[..n]);
      assert (text + more)[..|text| + n] == text + more[..n];
    }
  }
}
