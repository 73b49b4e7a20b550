/** UTF-8 by its definition (section 3 of RFC 3629), and what the readers take it for. */
module Utf8 {
  import opened Prelude
  import opened ZipDirectory
  import opened BreachRecord

  /** The bytes of one scalar value. */
  ghost function ScalarBytes(c: char): (bs: bytes)
    ensures 1 <= |bs| <= 4
  {
    var n := c as int;
    if n < 0x80 then [n]
    else if n < 0x800 then [0xC0 + n / 0x40, 0x80 + n % 0x40]
    else if n < 0x1_0000 then [0xE0 + n / 0x1000, 0x80 + n / 0x40 % 0x40, 0x80 + n % 0x40]
    else [0xF0 + n / 0x4_0000, 0x80 + n / 0x1000 % 0x40, 0x80 + n / 0x40 % 0x40, 0x80 + n % 0x40]
  }

  ghost function StringBytes(s: string): bytes {
    if s == "" then [] else ScalarBytes(s[0]) + StringBytes(s[1..])
  }

  /** A text is as long as its bytes are many. */
  lemma {:induction false} ByteLengthExact(s: string)
    ensures ByteLength(s) == |StringBytes(s)|
  {
    if s != "" {
      ByteLengthExact(s[1..]);
    }
  }

  /** The scalar value at the start of `bs` is found whole, whatever follows. */
  lemma {:induction false} ScalarWidth(c: char, rest: bytes)
    ensures Utf8Width(ScalarBytes(c) + rest) == |ScalarBytes(c)|
  {
    var n, bs := c as int, ScalarBytes(c) + rest;
    assert forall k | 0 <= k < |ScalarBytes(c)| :: bs[k] == ScalarBytes(c)[k];
    if n < 0x80 {
    } else if n < 0x800 {
      assert 2 <= n / 0x40 < 0x20;
    } else if n < 0x1_0000 {
      ThreeBytes(n);
    } else {
      FourBytes(n);
    }
  }

  lemma ThreeBytes(n: nat)
    requires 0x800 <= n < 0x1_0000 && !(0xD800 <= n < 0xE000)
    ensures 0 <= n / 0x1000 < 0x10 && (n / 0x1000 == 0 ==> n / 0x40 % 0x40 >= 0x20)
    ensures n / 0x1000 == 0xD ==> n / 0x40 % 0x40 < 0x20
    ensures n == n / 0x1000 * 0x1000 + n / 0x40 % 0x40 * 0x40 + n % 0x40
  {
    var high := n / 0x40;
    assert n == high * 0x40 + n % 0x40 && high == high / 0x40 * 0x40 + high % 0x40;
    assert high / 0x40 == n / 0x1000;
  }

  lemma FourBytes(n: nat)
    requires 0x1_0000 <= n < 0x11_0000
    ensures 0 <= n / 0x4_0000 <= 4 && (n / 0x4_0000 == 0 ==> n / 0x1000 % 0x40 >= 0x10)
    ensures n / 0x4_0000 == 4 ==> n / 0x1000 % 0x40 < 0x10
    ensures n == n / 0x4_0000 * 0x4_0000 + n / 0x1000 % 0x40 * 0x1000 + n / 0x40 % 0x40 * 0x40 + n % 0x40
  {
    var high, higher := n / 0x40, n / 0x1000;
    assert n == high * 0x40 + n % 0x40 && high == higher * 0x40 + high % 0x40;
    assert higher == higher / 0x40 * 0x40 + higher % 0x40;
    assert higher / 0x40 == n / 0x4_0000;
  }

  /** What the reader takes for a sequence is the bytes of a scalar value. */
  lemma {:induction false} WidthScalar(bs: bytes) returns (c: char)
    requires Utf8Width(bs) > 0
    ensures ScalarBytes(c) == bs[..Utf8Width(bs)]
  {
    var width := Utf8Width(bs);
    if width == 1 {
      c := bs[0] as char;
    } else if width == 2 {
      c := Two(bs[0], bs[1]);
    } else if width == 3 {
      c := Three(bs[0], bs[1], bs[2]);
    } else {
      c := Four(bs[0], bs[1], bs[2], bs[3]);
    }
  }

  lemma Two(a: byte, b: byte) returns (c: char)
    requires 0xC2 <= a <= 0xDF && 0x80 <= b <= 0xBF
    ensures ScalarBytes(c) == [a, b]
  {
    var n: int := (a - 0xC0) * 0x40 + (b - 0x80);
    assert n / 0x40 == a - 0xC0 && n % 0x40 == b - 0x80;
    c := n as char;
  }

  lemma Three(a: byte, b: byte, d: byte) returns (c: char)
    requires 0xE0 <= a <= 0xEF && 0x80 <= b <= 0xBF && 0x80 <= d <= 0xBF
    requires a == 0xE0 ==> b >= 0xA0
    requires a == 0xED ==> b <= 0x9F
    ensures ScalarBytes(c) == [a, b, d]
  {
    var n: int := (a - 0xE0) * 0x1000 + (b - 0x80) * 0x40 + (d - 0x80);
    assert n / 0x40 == (a - 0xE0) * 0x40 + (b - 0x80) && n % 0x40 == d - 0x80;
    assert n / 0x1000 == a - 0xE0 && n / 0x40 % 0x40 == b - 0x80;
    c := n as char;
  }

  lemma Four(a: byte, b: byte, d: byte, e: byte) returns (c: char)
    requires 0xF0 <= a <= 0xF4 && 0x80 <= b <= 0xBF && 0x80 <= d <= 0xBF && 0x80 <= e <= 0xBF
    requires a == 0xF0 ==> b >= 0x90
    requires a == 0xF4 ==> b <= 0x8F
    ensures ScalarBytes(c) == [a, b, d, e]
  {
    var n: int := (a - 0xF0) * 0x4_0000 + (b - 0x80) * 0x1000 + (d - 0x80) * 0x40 + (e - 0x80);
    assert n / 0x40 == (a - 0xF0) * 0x1000 + (b - 0x80) * 0x40 + (d - 0x80) && n % 0x40 == e - 0x80;
    assert n / 0x1000 == (a - 0xF0) * 0x40 + (b - 0x80) && n / 0x40 % 0x40 == d - 0x80;
    assert n / 0x4_0000 == a - 0xF0 && n / 0x1000 % 0x40 == b - 0x80;
    c := n as char;
  }

  lemma {:induction false} StringValid(s: string)
    ensures ValidUtf8(StringBytes(s))
  {
    hide Utf8Width, ScalarBytes;
    if s != "" {
      StringValid(s[1..]);
      ScalarWidth(s[0], StringBytes(s[1..]));
      var bs := StringBytes(s);
      assert bs[|ScalarBytes(s[0])|..] == StringBytes(s[1..]);
    }
  }

  lemma {:induction false} ValidString(bs: bytes) returns (s: string)
    requires ValidUtf8(bs)
    ensures bs == StringBytes(s)
    decreases |bs|
  {
    hide Utf8Width, ScalarBytes;
    s := "";
    if bs != [] {
      var width := Utf8Width(bs);
      var c := WidthScalar(bs);
      var rest := ValidString(bs[width..]);
      s := [c] + rest;
      assert s[1..] == rest && bs == bs[..width] + bs[width..];
    }
  }

  /** A name is accepted exactly when it is the bytes of some text. */
  lemma {:induction false} Utf8Exact(bs: bytes)
    ensures ValidUtf8(bs) <==> exists s :: bs == StringBytes(s)
  {
    hide ValidUtf8, StringBytes;
    if ValidUtf8(bs) {
      var s := ValidString(bs);
    }
    if s :| bs == StringBytes(s) {
      StringValid(s);
    }
  }
}
