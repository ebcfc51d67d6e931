/** Bytes, little-endian scalars and the bit-width arithmetic of flexbuffers. */
module Scalars {
  import opened Chunks

  type byte = b: int | 0 <= b < 256

  // BIT_WIDTH_8, BIT_WIDTH_16, BIT_WIDTH_32 and BIT_WIDTH_64.
  type BitWidth = w: int | 0 <= w <= 3

  const TWO64: int := 0x1_0000_0000_0000_0000

  /** 1 << w */
  function Bytes(w: BitWidth): (n: nat)
    ensures n in {1, 2, 4, 8}
  {
    if w == 0 then 1 else if w == 1 then 2 else if w == 2 then 4 else 8
  }

  predicate ValidWidth(n: int) {
    n == 1 || n == 2 || n == 4 || n == 8
  }

  function Pow256(n: nat): (p: nat)
    ensures p >= 1
  {
    if n == 0 then 1 else 256 * Pow256(n - 1)
  }

  lemma {:induction false} Pow256Values()
    ensures Pow256(1) == 0x100
    ensures Pow256(2) == 0x1_0000
    ensures Pow256(4) == 0x1_0000_0000
    ensures Pow256(8) == TWO64
  {
    assert Pow256(3) == 0x100_0000;
    assert Pow256(5) == 0x100_0000_0000 && Pow256(6) == 0x1_0000_0000_0000;
  }

  function Max(a: int, b: int): int {
    if a >= b then a else b
  }

  // ------------------------------------------------------------ byte order

  /** The n low-order bytes of x in two's complement, least significant first. */
  function ToLE(x: int, n: nat): (s: seq<byte>)
    ensures |s| == n
    decreases n
  {
    if n == 0 then [] else [x % 256] + ToLE(x / 256, n - 1)
  }

  function FromLE(s: seq<byte>): nat {
    if s == [] then 0 else s[0] + 256 * FromLE(s[1..])
  }

  lemma {:induction false} ModUnique(x: int, d: int, q: int, r: int)
    requires 0 <= r < d && x == d * q + r
    ensures x % d == r
  {
    var k := q - x / d;
    assert d * k == x % d - r by {
      assert d * k == d * q - d * (x / d);
      assert x == d * (x / d) + x % d;
    }
    if k > 0 {
      MulAtLeast(d, k);
    } else if k < 0 {
      MulAtLeast(d, -k);
    }
  }

  lemma {:induction false} MulAtLeast(d: int, k: int)
    requires d > 0 && k > 0
    ensures d * k >= d
  {
  }

  lemma {:induction false} FromToLE(x: int, n: nat)
    ensures FromLE(ToLE(x, n)) == x % Pow256(n)
    decreases n
  {
    if n > 0 {
      FromToLE(x / 256, n - 1);
      assert ToLE(x, n)[1..] == ToLE(x / 256, n - 1);
      ModDigit(x, Pow256(n - 1));
    }
  }

  lemma {:induction false} ModDigit(x: int, p: int)
    requires p > 0
    ensures x % (256 * p) == 256 * ((x / 256) % p) + x % 256
  {
    var q, r := x / 256, x % 256;
    var a, b := q / p, q % p;
    assert q == p * a + b;
    assert 256 * (p * a) == (256 * p) * a;
    ModUnique(x, 256 * p, a, 256 * b + r);
  }

  /** Reading u as a two's complement number of n bytes. */
  function Signed(u: nat, n: nat): int {
    if 2 * u < Pow256(n) then u else u - Pow256(n)
  }

  predicate FitsSigned(x: int, n: nat) {
    0 - Pow256(n) <= 2 * x < Pow256(n)
  }

  predicate IsInt64(x: int) {
    FitsSigned(x, 8)
  }

  lemma {:induction false} SignedRoundTrip(x: int, n: nat)
    requires FitsSigned(x, n)
    ensures Signed(FromLE(ToLE(x, n)), n) == x
  {
    FromToLE(x, n);
    var p := Pow256(n);
    if x >= 0 {
      ModUnique(x, p, 0, x);
    } else {
      ModUnique(x, p, -1, x + p);
    }
  }

  lemma {:induction false} UnsignedRoundTrip(x: nat, n: nat)
    requires x < Pow256(n)
    ensures FromLE(ToLE(x, n)) == x
  {
    FromToLE(x, n);
    ModUnique(x, Pow256(n), 0, x);
  }

  // ------------------------------------------------------------ bit widths

  /** Least width whose unsigned range holds u. */
  function WidthU(u: nat): (w: BitWidth)
    ensures u < TWO64 ==> u < Pow256(Bytes(w))
    ensures w > 0 ==> Pow256(Bytes(w - 1)) <= u
  {
    Pow256Values();
    if u < 0x100 then 0 else if u < 0x1_0000 then 1 else if u < 0x1_0000_0000 then 2 else 3
  }

  lemma {:induction false} WidthUAtMost(u: nat, w: BitWidth)
    ensures WidthU(u) <= w <==> w == 3 || u < Pow256(Bytes(w))
  {
    Pow256Values();
  }

  /** The source doubles the 64-bit pattern of i and complements it when i is negative. */
  function WidthI(i: int): (w: BitWidth)
    requires IsInt64(i)
    ensures FitsSigned(i, Bytes(w))
    ensures w > 0 ==> !FitsSigned(i, Bytes(w - 1))
  {
    Pow256Values();
    var u := (2 * i) % TWO64;
    if i >= 0 then
      WidthU(u)
    else
      ModUnique(2 * i, TWO64, -1, 2 * i + TWO64);
      WidthU(TWO64 - 1 - u)
  }

  lemma {:induction false} FitsWider(i: int, a: BitWidth, b: BitWidth)
    requires a <= b && FitsSigned(i, Bytes(a))
    ensures FitsSigned(i, Bytes(b))
  {
    Pow256Values();
  }

  lemma {:induction false} PowWider(a: BitWidth, b: BitWidth)
    requires a <= b
    ensures Pow256(Bytes(a)) <= Pow256(Bytes(b))
  {
    Pow256Values();
  }

  /** Bytes needed to bring a buffer of size n to a multiple of w: (-n) & (w - 1). */
  function Padding(n: nat, w: nat): (p: nat)
    requires ValidWidth(w)
    ensures p < w && (n + p) % w == 0
  {
    (TWO64 - n) % w
  }

  /** i << w, the size of i scalars of width w, written so that it stays linear. */
  function Times(i: nat, w: BitWidth): nat
  {
    if w == 0 then i else if w == 1 then 2 * i else if w == 2 then 4 * i else 8 * i
  }

  lemma {:induction false} SliceOfSlice<T>(s: seq<T>, a: nat, b: nat, t: seq<T>, lo: nat, hi: nat)
    requires a <= b <= |s| && s[a..b] == t && lo <= hi <= |t|
    ensures s[a + lo..a + hi] == t[lo..hi]
  {
    var u, v := s[a + lo..a + hi], t[lo..hi];
    forall i | 0 <= i < hi - lo
      ensures u[i] == v[i]
    {
      assert s[a..b][lo + i] == s[a + lo + i];
    }
  }

  // ------------------------------------------- runs of equally wide scalars

  lemma {:induction false} TimesIsProduct(i: nat, w: BitWidth)
    ensures Times(i, w) == i * Bytes(w)
  {
  }

  lemma {:induction false} FlatLength(cs: seq<seq<byte>>, w: BitWidth)
    requires Shaped(cs, Bytes(w))
    ensures |Flat(cs)| == Times(|cs|, w)
  {
    FlatSize(cs, Bytes(w));
    TimesIsProduct(|cs|, w);
  }

  /** Chunk j sits j chunk widths after the start. */
  lemma {:induction false} FlatChunk(cs: seq<seq<byte>>, w: BitWidth, j: nat)
    requires Shaped(cs, Bytes(w)) && j < |cs|
    ensures |Flat(cs)| == Times(|cs|, w)
    ensures Flat(cs)[Times(j, w)..Times(j, w) + Bytes(w)] == cs[j]
  {
    FlatLength(cs, w);
    FlatAt(cs, Bytes(w), j);
    TimesIsProduct(j, w);
  }
}
