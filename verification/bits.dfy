/** Bit-level view of a byte buffer and the integer helpers the stream's arithmetic relies on.

    Bits are numbered least-significant first: stream bit `i` is bit `i % 8` of byte `i / 8`. */
module Bits {

  /** Number of bits in one storage quantum (the stream's `QuantType` is an 8-bit byte). */
  const BITS_PER_QUANT: nat := 8

  /** Bit `j` (0 = least significant) of one byte. */
  predicate BitOf(b: bv8, j: nat)
    requires j < 8
  {
    (b >> j) & 1 == 1
  }

  /** Bit `i` of a byte buffer, packed LSB-first. */
  predicate Bit(data: seq<bv8>, i: nat)
    requires i < 8 * |data|
  {
    BitOf(data[i / 8], i % 8)
  }

  /** `a / b` rounded up, as the stream's `divideAndRoundUp` helper computes it. */
  function DivRoundUp(a: nat, b: nat): (r: nat)
    requires b > 0
    ensures r * b >= a
    ensures r > 0 ==> (r - 1) * b < a
  {
    (a + b - 1) / b
  }

  /** The least multiple of 8 that is at least `n`. */
  function RoundUp8(n: nat): (r: nat)
    ensures r % 8 == 0
    ensures n <= r < n + 8
  {
    DivRoundUp(n, 8) * 8
  }

  function Pow2(k: nat): (r: nat)
    ensures r > 0
  {
    if k == 0 then 1 else 2 * Pow2(k - 1)
  }

  // ---------------------------------------------------------------------------
  // Facts about single bytes.

  /** Two bytes agreeing on all eight bits are equal. */
  lemma BitsDetermineByte(a: bv8, b: bv8)
    requires forall j | 0 <= j < 8 :: BitOf(a, j) == BitOf(b, j)
    ensures a == b
  {
    assert BitOf(a, 0) == BitOf(b, 0);
    assert BitOf(a, 1) == BitOf(b, 1);
    assert BitOf(a, 2) == BitOf(b, 2);
    assert BitOf(a, 3) == BitOf(b, 3);
    assert BitOf(a, 4) == BitOf(b, 4);
    assert BitOf(a, 5) == BitOf(b, 5);
    assert BitOf(a, 6) == BitOf(b, 6);
    assert BitOf(a, 7) == BitOf(b, 7);
  }

  lemma BitOfOr(a: bv8, b: bv8, j: nat)
    requires j < 8
    ensures BitOf(a | b, j) == (BitOf(a, j) || BitOf(b, j))
  {
    assert (a | b) >> j == (a >> j) | (b >> j);
  }

  lemma BitOfShl(a: bv8, k: nat, j: nat)
    requires k < 8 && j < 8
    ensures BitOf(a << k, j) == (j >= k && BitOf(a, j - k))
  {
    if j >= k {
      assert ((a << k) >> j) & 1 == (a >> (j - k)) & 1;
    } else {
      assert ((a << k) >> j) & 1 == 0;
    }
  }

  lemma BitOfShr(a: bv8, k: nat, j: nat)
    requires k <= 8 && j < 8
    ensures BitOf(a >> k, j) == (j + k < 8 && BitOf(a, j + k))
  {
    if j + k < 8 {
      assert (a >> k) >> j == a >> (j + k);
    } else {
      assert (a >> k) >> j == 0;
    }
  }

  lemma BitOfSet(a: bv8, m: nat, j: nat)
    requires m < 8 && j < 8
    ensures BitOf(a | (1 << m), j) == (j == m || BitOf(a, j))
  {
    assert (a | (1 << m)) >> j == (a >> j) | ((1 << m) >> j);
    assert (((1 as bv8) << m) >> j) & 1 == if j == m then 1 else 0;
  }

  lemma BitOfClear(a: bv8, m: nat, j: nat)
    requires m < 8 && j < 8
    ensures BitOf(a & !(1 << m), j) == (j != m && BitOf(a, j))
  {
    BitOfAnd(a, !(1 << m), j);
    BitOfNot(1 << m, j);
    BitOfOne(m, j);
  }

  lemma BitOfAnd(a: bv8, b: bv8, j: nat)
    requires j < 8
    ensures BitOf(a & b, j) == (BitOf(a, j) && BitOf(b, j))
  {
    assert ((a & b) >> j) & 1 == ((a >> j) & 1) & ((b >> j) & 1);
  }

  lemma BitOfNot(a: bv8, j: nat)
    requires j < 8
    ensures BitOf(!a, j) == !BitOf(a, j)
  {
    assert ((!a) >> j) & 1 == ((a >> j) & 1) ^ 1;
  }

  /** `1 << m` has exactly bit `m` set. */
  lemma BitOfOne(m: nat, j: nat)
    requires m < 8 && j < 8
    ensures BitOf(1 << m, j) == (j == m)
  {
    if j >= m {
      assert ((1 as bv8) << m) >> j == (1 as bv8) >> (j - m);
    } else {
      assert (((1 as bv8) << m) >> j) & 1 == 0;
    }
  }

  lemma BitOfZero(j: nat)
    requires j < 8
    ensures !BitOf(0, j)
  {
  }

  /** Bit `8 * q + b` of a buffer is bit `b` of byte `q`. */
  lemma BitAt(data: seq<bv8>, q: nat, b: nat)
    requires q < |data| && b < 8
    ensures Bit(data, 8 * q + b) == BitOf(data[q], b)
  {
    assert (8 * q + b) / 8 == q;
    assert (8 * q + b) % 8 == b;
  }

  /** Bit `p` of a byte-aligned slice is bit `8 * q + p` of the whole buffer. */
  lemma BitOfSlice(data: seq<bv8>, q: nat, k: nat, p: nat)
    requires q + k <= |data| && p < 8 * k
    ensures Bit(data[q..q + k], p) == Bit(data, 8 * q + p)
  {
    assert (8 * q + p) / 8 == q + p / 8 && (8 * q + p) % 8 == p % 8;
  }

  /** Two buffers of the same length agreeing on every bit are equal. */
  lemma BitsDetermineBuffer(a: seq<bv8>, b: seq<bv8>)
    requires |a| == |b|
    requires forall p | 0 <= p < 8 * |a| :: Bit(a, p) == Bit(b, p)
    ensures a == b
  {
    forall i | 0 <= i < |a|
      ensures a[i] == b[i]
    {
      forall j | 0 <= j < 8
        ensures BitOf(a[i], j) == BitOf(b[i], j)
      {
        BitAt(a, i, j);
        BitAt(b, i, j);
      }
      BitsDetermineByte(a[i], b[i]);
    }
  }

  // ---------------------------------------------------------------------------
  // 32-bit integer arithmetic, for the places where the stream's unsigned and
  // signed 32-bit wrap-around is modelled explicitly.

  const UINT32_MODULUS: nat := 0x1_0000_0000
  const INT32_MIN: int := -0x8000_0000
  const INT32_MAX: int := 0x7FFF_FFFF

  /** The value of `x` stored in a `uint32_t` (wraps modulo 2^32). */
  function U32(x: int): (r: nat)
    ensures r < UINT32_MODULUS
    ensures 0 <= x < UINT32_MODULUS ==> r == x
  {
    x % UINT32_MODULUS
  }

  /** Bitwise AND of two naturals, as `&` computes it on unsigned integers. */
  function BitAnd(a: nat, b: nat): nat
  {
    if a == 0 || b == 0 then 0
    else 2 * BitAnd(a / 2, b / 2) + (if a % 2 == 1 && b % 2 == 1 then 1 else 0)
  }

  /** Masking never yields more than the mask. */
  lemma {:induction false} BitAndBound(a: nat, b: nat)
    ensures BitAnd(a, b) <= b
  {
    if a != 0 && b != 0 {
      BitAndBound(a / 2, b / 2);
    }
  }

  /** Masking with `2^k - 1` keeps exactly the remainder modulo `2^k`. */
  lemma {:induction false} BitAndLowMask(x: nat, k: nat)
    ensures BitAnd(x, Pow2(k) - 1) == x % Pow2(k)
  {
    if k > 0 && x != 0 {
      var half := Pow2(k - 1);
      var mask := Pow2(k) - 1;
      assert Pow2(k) == 2 * half;
      assert mask / 2 == half - 1 && mask % 2 == 1;
      assert x % 2 == 1 ==> BitAnd(x, mask) == 2 * BitAnd(x / 2, half - 1) + 1;
      assert x % 2 == 0 ==> BitAnd(x, mask) == 2 * BitAnd(x / 2, half - 1);
      calc {
        BitAnd(x, mask);
        2 * BitAnd(x / 2, half - 1) + x % 2;
        { BitAndLowMask(x / 2, k - 1); }
        2 * ((x / 2) % half) + x % 2;
        { ModOfDouble(x, half); }
        x % (2 * half);
      }
    } else if k == 0 {
      assert Pow2(k) == 1;
    } else {
      assert x % Pow2(k) == 0;
    }
  }

  lemma ModOfDouble(x: nat, d: nat)
    requires d > 0
    ensures x % (2 * d) == 2 * ((x / 2) % d) + x % 2
  {
    var a := x / 2;
    var q := a / d;
    var r := 2 * (a % d) + x % 2;
    assert a == d * q + a % d;
    assert x == 2 * a + x % 2;
    assert x == (2 * d) * q + r by {
      assert 2 * (d * q) == (2 * d) * q;
    }
    ModUnique(x, 2 * d, q, r);
  }

  /** Euclidean division has a unique quotient and remainder. */
  lemma ModUnique(x: nat, d: nat, q: nat, r: nat)
    requires d > 0 && r < d && x == d * q + r
    ensures x % d == r && x / d == q
  {
    var q' := x / d;
    var r' := x % d;
    assert d * q' + r' == d * q + r;
    if q' < q {
      MulAtLeast(d, q - q');
      assert false;
    } else if q' > q {
      MulAtLeast(d, q' - q);
      assert false;
    }
  }

  lemma {:induction false} MulAtLeast(d: nat, t: nat)
    requires t >= 1
    ensures d * t >= d
  {
    if t > 1 {
      MulAtLeast(d, t - 1);
      assert d * t == d * (t - 1) + d;
    }
  }

  lemma Pow2Of32()
    ensures Pow2(32) == UINT32_MODULUS
  {
    assert Pow2(2) == 4;
    assert Pow2(4) == 16;
    Pow2Add(4, 4);
    Pow2Add(8, 8);
    Pow2Add(16, 16);
  }

  lemma {:induction false} Pow2Add(a: nat, b: nat)
    ensures Pow2(a + b) == Pow2(a) * Pow2(b)
  {
    if b > 0 {
      Pow2Add(a, b - 1);
      assert Pow2(a + b) == 2 * Pow2(a + b - 1);
    }
  }

  lemma {:induction false} Pow2Monotone(j: nat, k: nat)
    requires j <= k
    ensures Pow2(j) <= Pow2(k)
  {
    if j < k {
      Pow2Monotone(j, k - 1);
    }
  }

  /** `2^k` divides `2^n` for `k <= n`. */
  lemma {:induction false} Pow2Divides(k: nat, n: nat)
    requires k <= n
    ensures Pow2(n) % Pow2(k) == 0
    ensures Pow2(k) * (Pow2(n) / Pow2(k)) == Pow2(n)
  {
    if k < n {
      Pow2Divides(k, n - 1);
      var q := Pow2(n - 1) / Pow2(k);
      assert Pow2(n) == Pow2(k) * (2 * q);
      ModUnique(Pow2(n), Pow2(k), 2 * q, 0);
    } else {
      ModUnique(Pow2(n), Pow2(k), 1, 0);
    }
  }

}
