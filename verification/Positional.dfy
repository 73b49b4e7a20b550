/** Positional numerals: the reference meaning of digit and byte strings. */
module Positional {

  function Pow(base: nat, exponent: nat): nat {
    if exponent == 0 then 1 else base * Pow(base, exponent - 1)
  }

  ghost predicate Digits(base: nat, ds: seq<nat>) {
    forall k | 0 <= k < |ds| :: ds[k] < base
  }

  /** The number a most-significant-first digit string denotes. */
  function Value(base: nat, ds: seq<nat>): nat {
    if |ds| == 0 then 0 else Value(base, ds[..|ds| - 1]) * base + ds[|ds| - 1]
  }

  lemma ValueAppend(base: nat, ds: seq<nat>, d: nat)
    ensures Value(base, ds + [d]) == Value(base, ds) * base + d
  {
    assert (ds + [d])[..|ds|] == ds;
  }

  lemma ValueAppend2(base: nat, ds: seq<nat>, a: nat, b: nat)
    ensures Value(base, ds + [a, b]) == (Value(base, ds) * base + a) * base + b
  {
    ValueAppend(base, ds, a);
    ValueAppend(base, ds + [a], b);
    assert ds + [a, b] == ds + [a] + [b];
  }

  /** Two numerals of one length denote one number only when they are the same numeral. */
  lemma {:induction false} ValueInjective(base: nat, xs: seq<nat>, ys: seq<nat>)
    requires Digits(base, xs) && Digits(base, ys)
    requires |xs| == |ys| && Value(base, xs) == Value(base, ys)
    ensures xs == ys
  {
    if |xs| == 0 {
    } else {
      var n := |xs| - 1;
      EuclideanUnique(base, Value(base, xs[..n]), xs[n], Value(base, ys[..n]), ys[n]);
      ValueInjective(base, xs[..n], ys[..n]);
      assert xs == xs[..n] + [xs[n]] && ys == ys[..n] + [ys[n]];
    }
  }

  lemma EuclideanUnique(base: nat, q: nat, r: nat, q': nat, r': nat)
    requires r < base && r' < base
    requires q * base + r == q' * base + r'
    ensures q == q' && r == r'
  {
    assert (q - q') * base == r' - r;
    if q > q' {
      MulAtLeast(q - q', base);
    } else if q < q' {
      assert (q' - q) * base == r - r';
      MulAtLeast(q' - q, base);
    }
  }

  lemma MulAtLeast(a: nat, b: nat)
    requires a >= 1
    ensures a * b >= b
  {
    assert a * b == (a - 1) * b + b;
  }

  /** Replacing one digit moves the number by the difference times the digit's place. */
  lemma {:induction false} ValueUpdate(base: nat, ds: seq<nat>, k: nat, d: nat)
    requires k < |ds|
    ensures Value(base, ds[k := d]) == Value(base, ds) + (d - ds[k]) * Pow(base, |ds| - 1 - k)
  {
    var n := |ds| - 1;
    if k == n {
      assert ds[k := d][..n] == ds[..n];
    } else {
      ValueUpdate(base, ds[..n], k, d);
      assert ds[k := d][..n] == ds[..n][k := d];
      Distribute(Value(base, ds[..n]), d - ds[k], Pow(base, n - 1 - k), base);
    }
  }

  lemma Distribute(v: int, step: int, place: int, base: int)
    ensures (v + step * place) * base == v * base + step * (base * place)
  {
  }

  lemma EuclideanModulus(n: nat, q: nat, m: nat, r: nat)
    requires r < m && n == q * m + r
    ensures n / m == q && n % m == r
  {
    assert n == n / m * m + n % m;
    EuclideanUnique(m, q, r, n / m, n % m);
  }
}
