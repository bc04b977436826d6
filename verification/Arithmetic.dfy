/**
 Powers of two, alignment, and the bit-counting helpers that the allocator, the untyped generator
 and the loader share.
 */
module Arithmetic {

  function Pow2(n: nat): (r: nat)
    ensures r >= 1
  {
    if n == 0 then 1 else 2 * Pow2(n - 1)
  }

  /** The low `bits` bits are zero. */
  predicate Aligned(value: int, bits: nat)
    decreases bits
  {
    bits == 0 || (value % 2 == 0 && Aligned(value / 2, bits - 1))
  }

  /** This is `is_aligned`: the value is a multiple of `2^bits`. */
  lemma {:induction false} AlignedIsMultiple(a: int, n: nat)
    ensures Aligned(a, n) <==> a % Pow2(n) == 0
    decreases n
  {
    if n > 0 {
      var p := Pow2(n - 1);
      AlignedIsMultiple(a / 2, n - 1);
      DoubleMod(a, p);
    }
  }

  lemma {:induction false} DoubleMod(a: int, p: int)
    requires p > 0
    ensures a % (2 * p) == 0 <==> a % 2 == 0 && (a / 2) % p == 0
  {
    if a % (2 * p) == 0 {
      var k := a / (2 * p);
      MulAssoc2(k, p);
      assert a == 2 * (k * p);
      DivModUnique(a / 2, p, k, 0);
    }
    if a % 2 == 0 && (a / 2) % p == 0 {
      var k := (a / 2) / p;
      MulAssoc2(k, p);
      DivModUnique(a, 2 * p, k, 0);
    }
  }

  lemma {:induction false} MulAssoc2(k: int, p: int)
    ensures k * (2 * p) == 2 * (k * p)
  {
  }

  lemma {:induction false} MulAtLeast(k: int, m: int)
    requires k >= 1 && m > 0
    ensures k * m >= m
    decreases k
  {
    if k > 1 {
      MulAtLeast(k - 1, m);
      MulDiff(k, 1, m);
    }
  }

  lemma {:induction false} DivModUnique(a: int, m: int, q: int, r: int)
    requires m > 0 && 0 <= r < m && a == q * m + r
    ensures a / m == q && a % m == r
  {
    MulDiff(q, a / m, m);
    if q > a / m {
      MulAtLeast(q - a / m, m);
    } else if q < a / m {
      MulDiff(a / m, q, m);
      MulAtLeast(a / m - q, m);
    }
  }

  lemma {:induction false} MulDiff(i: int, j: int, m: int)
    ensures (i - j) * m == i * m - j * m
  {
  }

  lemma {:induction false} AlignedAdd(a: int, b: int, n: nat)
    requires Aligned(a, n) && Aligned(b, n)
    ensures Aligned(a + b, n) && Aligned(a - b, n)
    decreases n
  {
    if n > 0 {
      AlignedAdd(a / 2, b / 2, n - 1);
      assert (a + b) / 2 == a / 2 + b / 2 && (a - b) / 2 == a / 2 - b / 2;
    }
  }

  lemma {:induction false} AlignedWeaken(a: int, m: nat, n: nat)
    requires m <= n && Aligned(a, n)
    ensures Aligned(a, m)
    decreases m
  {
    if m > 0 { AlignedWeaken(a / 2, m - 1, n - 1); }
  }

  lemma {:induction false} AlignedDown(a: int, n: nat)
    requires n > 0 && Aligned(a, n)
    ensures Aligned(a, n - 1)
  {
    AlignedWeaken(a, n - 1, n);
  }

  lemma {:induction false} Pow2Aligned(m: nat, n: nat)
    requires m <= n
    ensures Aligned(Pow2(n), m)
    decreases m
  {
    if m > 0 {
      Pow2Aligned(m - 1, n - 1);
      assert Pow2(n) == 2 * Pow2(n - 1);
    }
  }

  lemma {:induction false} Pow2Monotone(m: nat, n: nat)
    requires m <= n
    ensures Pow2(m) <= Pow2(n)
    ensures m < n ==> 2 * Pow2(m) <= Pow2(n)
    decreases n
  {
    if m < n { Pow2Monotone(m, n - 1); }
  }

  lemma {:induction false} ZeroAligned(n: nat)
    ensures Aligned(0, n)
  {
    if n > 0 { ZeroAligned(n - 1); }
  }

  /** Two distinct multiples of `2^n` are at least `2^n` apart. */
  lemma {:induction false} AlignedGap(a: int, b: int, n: nat)
    requires Aligned(a, n) && Aligned(b, n) && a < b
    ensures a + Pow2(n) <= b
    decreases n
  {
    if n > 0 { AlignedGap(a / 2, b / 2, n - 1); }
  }

  /** Two aligned power-of-two blocks are nested or disjoint. */
  lemma {:induction false} BlocksNestOrAvoid(a: int, m: nat, b: int, n: nat)
    requires Aligned(a, m) && Aligned(b, n) && m <= n
    ensures a + Pow2(m) <= b || b + Pow2(n) <= a || (b <= a && a + Pow2(m) <= b + Pow2(n))
  {
    AlignedWeaken(b, m, n);
    Pow2Aligned(m, n);
    AlignedAdd(b, Pow2(n), m);
    if a < b { AlignedGap(a, b, m); }
    if a < b + Pow2(n) { AlignedGap(a, b + Pow2(n), m); }
  }

  /** The number of trailing zero bits. */
  function TrailingZeros(x: int): (r: nat)
    requires x > 0
    decreases x
  {
    if x % 2 == 1 then 0 else 1 + TrailingZeros(x / 2)
  }

  /** It is the exponent of the largest power of two that divides `x`. */
  lemma {:induction false} TrailingZerosExact(x: int, k: nat)
    requires x > 0
    ensures Aligned(x, k) <==> k <= TrailingZeros(x)
    decreases x
  {
    if k > 0 && x % 2 == 0 { TrailingZerosExact(x / 2, k - 1); }
  }

  lemma {:induction false} TrailingZerosBound(x: int)
    requires x > 0
    ensures Pow2(TrailingZeros(x)) <= x
    decreases x
  {
    if x % 2 == 0 { TrailingZerosBound(x / 2); }
  }

  lemma {:induction false} TrailingZerosPow2(n: nat)
    ensures TrailingZeros(Pow2(n)) == n
  {
    if n > 0 { TrailingZerosPow2(n - 1); }
  }

  /** The value of `x & -x`: the lowest set bit kept, everything else cleared. */
  function LowestSetBit(x: int): (r: int)
    requires x > 0
    ensures r > 0
    decreases x
  {
    if x % 2 == 1 then 1 else 2 * LowestSetBit(x / 2)
  }

  lemma {:induction false} LowestSetBitIsPow2(x: int)
    requires x > 0
    ensures LowestSetBit(x) == Pow2(TrailingZeros(x))
    decreases x
  {
    if x % 2 == 0 { LowestSetBitIsPow2(x / 2); }
  }

  /** `ctz`: shift the isolated low bit out, counting. */
  method CountTrailingZeros(x: int) returns (bits: nat)
    requires x > 0
    ensures bits == TrailingZeros(x)
  {
    var low := LowestSetBit(x);
    var count: int := -1;
    LowestSetBitIsPow2(x);
    ghost var n := TrailingZeros(x);
    while low != 0
      invariant -1 <= count <= n
      invariant low == if count == n then 0 else Pow2(n - count - 1)
      decreases n - count
    {
      low := low / 2;
      count := count + 1;
    }
    bits := count;
  }

  /** `x.bit_length() - 1` for positive `x`. */
  function FloorLog2(x: int): (r: nat)
    requires x > 0
    decreases x
  {
    if x == 1 then 0 else 1 + FloorLog2(x / 2)
  }

  lemma {:induction false} FloorLog2Exact(x: int)
    requires x > 0
    ensures Pow2(FloorLog2(x)) <= x < 2 * Pow2(FloorLog2(x))
    decreases x
  {
    if x > 1 { FloorLog2Exact(x / 2); }
  }

  function Min(a: int, b: int): int { if a <= b then a else b }
}
