/** Fixed-width words, little-endian byte strings and powers of two: the arithmetic
    that every driver below shares. */
module Words {

  const TWO8: int := 0x100
  const TWO16: int := 0x1_0000
  const TWO32: int := 0x1_0000_0000
  const TWO64: int := 0x1_0000_0000_0000_0000

  type u8 = x: int | 0 <= x < 0x100
  type u16 = x: int | 0 <= x < 0x1_0000
  type u32 = x: int | 0 <= x < 0x1_0000_0000
  type u64 = x: int | 0 <= x < 0x1_0000_0000_0000_0000

  /** UINT64 addition, subtraction and multiplication all reduce modulo 2^64. */
  function Wrap64(x: int): (r: u64)
    ensures 0 <= x < TWO64 ==> r == x
    ensures TWO64 <= x < 2 * TWO64 ==> r == x - TWO64
    ensures -TWO64 <= x < 0 ==> r == x + TWO64
  {
    x % TWO64
  }

  // ----- little-endian byte strings

  function Pow256(n: nat): nat {
    if n == 0 then 1 else 256 * Pow256(n - 1)
  }

  /** The low n bytes of v, least significant first. */
  function ToLe(v: nat, n: nat): (s: seq<u8>)
    ensures |s| == n
  {
    if n == 0 then [] else [v % 256] + ToLe(v / 256, n - 1)
  }

  function FromLe(s: seq<u8>): nat {
    if s == [] then 0 else s[0] + 256 * FromLe(s[1..])
  }

  lemma {:induction false} LeRoundTrip(v: nat, n: nat)
    requires v < Pow256(n)
    ensures FromLe(ToLe(v, n)) == v
  {
    if n > 0 {
      LeRoundTrip(v / 256, n - 1);
      assert ToLe(v, n)[1..] == ToLe(v / 256, n - 1);
    }
  }

  /** Byte i of a stored number is its digit i to the base 256. */
  lemma {:induction false} LeDigit(v: nat, n: nat, i: nat)
    requires i < n
    ensures Pow256(i) > 0 && ToLe(v, n)[i] == v / Pow256(i) % 256
    decreases n
  {
    if i > 0 {
      LeDigit(v / 256, n - 1, i - 1);
      assert ToLe(v, n)[i] == ToLe(v / 256, n - 1)[i - 1];
      QuotientOfQuotient(v, 256, Pow256(i - 1));
    }
  }

  lemma QuotientOfQuotient(v: nat, a: nat, b: nat)
    requires a > 0 && b > 0
    ensures a * b > 0 && v / a / b == v / (a * b)
  {
    var x, r := v / a, v % a;
    var q, s := x / b, x % b;
    TwoDigits(v, a, b, x, r, q, s);
    UniqueQuotient(v, q, s * a + r, a * b);
  }

  lemma TwoDigits(v: nat, a: nat, b: nat, x: nat, r: nat, q: nat, s: nat)
    requires v == x * a + r && r < a && x == q * b + s && s < b
    ensures 0 <= s * a && v == q * (a * b) + (s * a + r) && s * a + r < a * b
  {
    assert x * a == q * b * a + s * a == q * (a * b) + s * a;
    assert (s + 1) * a == s * a + a;
    Grows(s + 1, b, a);
  }

  lemma Grows(x: nat, y: nat, a: nat)
    requires x <= y
    ensures x * a <= y * a == a * y
  {
  }

  lemma UniqueQuotient(v: nat, q: nat, r: nat, m: nat)
    requires m > 0 && v == q * m + r && r < m
    ensures v / m == q && v % m == r
  {
    var d := v / m - q;
    assert v == v / m * m + v % m;
    assert d * m == r - v % m;
    NoMultipleBetween(d, m);
  }

  lemma NoMultipleBetween(d: int, m: int)
    requires -m < d * m < m
    ensures d == 0
  {
  }

  lemma Pow256Values()
    ensures Pow256(1) == TWO8
    ensures Pow256(2) == TWO16
    ensures Pow256(3) == 0x100_0000
    ensures Pow256(4) == TWO32
    ensures Pow256(8) == TWO64
  {
    assert Pow256(2) == 256 * Pow256(1);
    assert Pow256(3) == 256 * Pow256(2);
    assert Pow256(4) == 256 * Pow256(3);
    assert Pow256(5) == 256 * Pow256(4);
    assert Pow256(6) == 256 * Pow256(5);
    assert Pow256(7) == 256 * Pow256(6);
    assert Pow256(8) == 256 * Pow256(7);
  }

  /** The n-byte little-endian number found at offset off of s. */
  function LeAt(s: seq<u8>, off: nat, n: nat): nat
    requires off + n <= |s|
  {
    FromLe(s[off..off + n])
  }

  lemma FromLeBound(s: seq<u8>)
    ensures FromLe(s) < Pow256(|s|)
  {
    if s != [] {
      FromLeBound(s[1..]);
    }
  }

  // ----- powers of two

  function Pow2(k: nat): (p: nat)
    ensures p >= 1
  {
    if k == 0 then 1 else 2 * Pow2(k - 1)
  }

  /** Index of the highest set bit, -1 for zero. */
  function HighBitSet64(x: nat): (r: int)
    ensures r >= -1
    ensures r == -1 <==> x == 0
  {
    if x == 0 then -1 else 1 + HighBitSet64(x / 2)
  }

  /** 1 << HighBitSet64(x), and zero for zero. */
  function GetPowerOfTwo64(x: nat): nat {
    if x == 0 then 0 else Pow2(HighBitSet64(x))
  }

  lemma {:induction false} HighBitBounds(x: nat)
    requires x > 0
    ensures Pow2(HighBitSet64(x)) <= x < 2 * Pow2(HighBitSet64(x))
  {
    if x > 1 {
      HighBitBounds(x / 2);
    }
  }

  lemma {:induction false} Pow2Strict(i: nat, j: nat)
    requires i < j
    ensures 2 * Pow2(i) <= Pow2(j)
    decreases j
  {
    if i < j - 1 {
      Pow2Strict(i, j - 1);
    }
  }

  lemma PowersApart(i: nat, j: nat)
    ensures i < j ==> 2 * Pow2(i) <= Pow2(j)
    ensures j < i ==> 2 * Pow2(j) <= Pow2(i)
  {
    if i < j { Pow2Strict(i, j); }
    if j < i { Pow2Strict(j, i); }
  }

  /** The test "a == GetPowerOfTwo64(a + 1) - 1" passes exactly for the masks 2^k - 1, and
      for those HighBitSet64(a) + 1 is the exponent k. */
  lemma MaskTestIsExact(a: nat)
    ensures a == GetPowerOfTwo64(a + 1) - 1 <==> exists k: nat :: a + 1 == Pow2(k)
    ensures forall k: nat :: a + 1 == Pow2(k) ==> HighBitSet64(a) + 1 == k
  {
    HighBitBounds(a + 1);
    forall k: nat | a + 1 == Pow2(k)
      ensures HighBitSet64(a + 1) == k == HighBitSet64(a) + 1
    {
      PowersApart(HighBitSet64(a + 1), k);
      if a > 0 {
        HighBitBounds(a);
        PowersApart(HighBitSet64(a) + 1, k);
      }
    }
  }

  lemma Pow2Values()
    ensures Pow2(15) == 0x8000 && Pow2(16) == 0x1_0000
    ensures Pow2(31) == 0x8000_0000 && Pow2(32) == TWO32
  {
    assert Pow2(8) == 256;
    assert Pow2(16) == 256 * Pow2(8);
    assert Pow2(24) == 256 * Pow2(16);
    assert Pow2(32) == 256 * Pow2(24);
  }
}
