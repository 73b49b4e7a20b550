/** Little-endian fields at fixed offsets: how the archive reader takes bytes out of a file. */
module ZipFields {
  import opened Prelude
  import opened Positional

  /** The number a least-significant-first byte string denotes. */
  function LeValue(bs: bytes): nat {
    if |bs| == 0 then 0 else bs[0] + 256 * LeValue(bs[1..])
  }

  /** `n` in `width` bytes, least significant first. */
  function LeBytes(n: nat, width: nat): (bs: bytes)
    ensures |bs| == width
  {
    if width == 0 then [] else [n % 256] + LeBytes(n / 256, width - 1)
  }

  lemma {:induction false} LeRoundTrip(n: nat, width: nat)
    requires n < Pow(256, width)
    ensures LeValue(LeBytes(n, width)) == n
  {
    if width > 0 {
      assert Pow(256, width) == 256 * Pow(256, width - 1);
      LeRoundTrip(n / 256, width - 1);
      assert LeBytes(n, width)[1..] == LeBytes(n / 256, width - 1);
    }
  }

  lemma {:induction false} LeBytesOfValue(bs: bytes)
    ensures LeValue(bs) < Pow(256, |bs|)
    ensures LeBytes(LeValue(bs), |bs|) == bs
  {
    if |bs| > 0 {
      LeBytesOfValue(bs[1..]);
      assert (bs[0] + 256 * LeValue(bs[1..])) / 256 == LeValue(bs[1..]);
    }
  }

  /** The least significant byte stands first. */
  lemma {:induction false} LeBytesAt(n: nat, width: nat, k: nat)
    requires k < width
    ensures Pow(256, k) > 0 && LeBytes(n, width)[k] == n / Pow(256, k) % 256
  {
    if k > 0 {
      LeBytesAt(n / 256, width - 1, k - 1);
      DivideTwice(n, Pow(256, k - 1));
    }
  }

  lemma DivideTwice(n: nat, p: nat)
    requires p > 0
    ensures n / 256 / p == n / (256 * p)
  {
    var q, r := n / 256 / p, n / 256 % p;
    assert n / 256 == q * p + r && n == 256 * (n / 256) + n % 256;
    var rest := 256 * r + n % 256;
    assert n == q * (256 * p) + rest;
    assert rest < 256 * p;
    EuclideanModulus(n, q, 256 * p, rest);
  }

  lemma Widths()
    ensures Pow(256, 2) == 0x1_0000 && Pow(256, 4) == 0x1_0000_0000
    ensures Pow(256, 8) == 0x1_0000_0000_0000_0000
  {
  }

  /** `checked_range`: `size` bytes from `at`, when they are there. */
  function CheckedRange(data: Slice, at: usize, size: usize): (r: Option<bytes>)
    ensures r.Some? <==> at + size <= |data|
    ensures r.Some? ==> r.value == data[at..at + size]
  {
    var end :- CheckedAdd(at, size);
    if end <= |data| then Some(data[at..end]) else None
  }

  function Le(data: Slice, at: usize, width: usize): (r: Option<nat>)
    ensures r.Some? <==> at + width <= |data|
    ensures r.Some? ==> r.value < Pow(256, width)
  {
    var field :- CheckedRange(data, at, width);
    LeBytesOfValue(field);
    Some(LeValue(field))
  }

  function Le16(data: Slice, at: usize): (r: Option<nat>)
    ensures r.Some? <==> at + 2 <= |data|
    ensures r.Some? ==> r.value < 0x1_0000
  {
    Widths();
    Le(data, at, 2)
  }

  function Le32(data: Slice, at: usize): (r: Option<nat>)
    ensures r.Some? <==> at + 4 <= |data|
    ensures r.Some? ==> r.value < 0x1_0000_0000
  {
    Widths();
    Le(data, at, 4)
  }

  function Le64(data: Slice, at: usize): (r: Option<usize>)
    ensures r.Some? <==> at + 8 <= |data|
  {
    Widths();
    Le(data, at, 8)
  }

  /** `piece` stands in `data` at `at`. */
  ghost predicate Holds(data: bytes, at: nat, piece: bytes) {
    at + |piece| <= |data| && data[at..at + |piece|] == piece
  }

  lemma HoldsJoin(data: bytes, at: nat, p: bytes, q: bytes)
    ensures Holds(data, at, p + q) <==> Holds(data, at, p) && Holds(data, at + |p|, q)
  {
    if Holds(data, at, p + q) {
      assert data[at..at + |p + q|][..|p|] == data[at..at + |p|];
      assert data[at..at + |p + q|][|p|..] == data[at + |p|..at + |p| + |q|];
      assert (p + q)[..|p|] == p && (p + q)[|p|..] == q;
    }
    if Holds(data, at, p) && Holds(data, at + |p|, q) {
      assert data[at..at + |p + q|] == data[at..at + |p|] + data[at + |p|..at + |p| + |q|];
    }
  }

  /** A field written at `at` is read back. */
  lemma HoldsField(data: Slice, at: usize, n: nat, width: usize)
    requires Holds(data, at, LeBytes(n, width)) && n < Pow(256, width)
    ensures Le(data, at, width) == Some(n)
  {
    LeRoundTrip(n, width);
    assert data[at..at + width] == LeBytes(n, width);
    hide LeBytes, LeValue, Pow;
  }

  /** A field read at `at` is written there. */
  lemma FieldHolds(data: Slice, at: usize, width: usize)
    requires Le(data, at, width).Some?
    ensures Holds(data, at, LeBytes(Le(data, at, width).value, width))
  {
    LeBytesOfValue(data[at..at + width]);
  }

  /** `n` is written at `at` in `width` bytes. */
  ghost predicate Field(data: bytes, at: nat, n: nat, width: nat) {
    n < Pow(256, width) && Holds(data, at, LeBytes(n, width))
  }

  /** A field is read as a number exactly when that number is written there. */
  lemma {:induction false} FieldExact(data: Slice, at: usize, n: nat, width: usize)
    ensures Le(data, at, width) == Some(n) <==> Field(data, at, n, width)
  {
    hide Le, Holds, LeBytes, Pow;
    if Field(data, at, n, width) {
      HoldsField(data, at, n, width);
    }
    if Le(data, at, width).Some? {
      FieldHolds(data, at, width);
    }
  }

  /** A range is read as `piece` exactly when `piece` stands there. */
  lemma {:induction false} RangeExact(data: Slice, at: usize, piece: bytes)
    requires |piece| <= USIZE_MAX
    ensures CheckedRange(data, at, |piece|) == Some(piece) <==> Holds(data, at, piece)
  {
  }
}
