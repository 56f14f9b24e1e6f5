/**
 * The kernel's 17.14 fixed-point arithmetic.
 *
 * A real number r is stored in a 32-bit signed integer as r * FIXED_POINT_FACTOR.
 * C's `int` arithmetic is 32 bits wide and its `/` truncates toward zero; both are
 * written out here, since Dafny integers are unbounded and Dafny's `/` is Euclidean.
 * The explicit `(int32_t)` narrowing of the 64-bit products and quotients, and the
 * plain 32-bit additions and products, are modelled as two's-complement wrap-around
 * (Wrap32); every identity below states the range in which no wrap-around happens,
 * except SubIntUndoesAddInt, which holds for all inputs under wrap-around.  C leaves
 * signed overflow undefined, so beyond the no-overflow range that lemma describes the
 * two's-complement reading, not the program.
 */
module FixedPoint {

  const FIXED_POINT_FACTOR: int := 16384
  const INT32_MIN: int := -0x8000_0000
  const INT32_MAX: int := 0x7fff_ffff
  const INT64_MIN: int := -0x8000_0000_0000_0000
  const INT64_MAX: int := 0x7fff_ffff_ffff_ffff
  const TWO_TO_32: int := 0x1_0000_0000

  predicate IsInt32(v: int) { INT32_MIN <= v <= INT32_MAX }
  predicate IsInt64(v: int) { INT64_MIN <= v <= INT64_MAX }

  /** A C `int` / `int32_t`. */
  type Int32 = v: int | -0x8000_0000 <= v <= 0x7fff_ffff

  /** A fixed-point number: a 32-bit integer holding the real value times FIXED_POINT_FACTOR. */
  type Fixed = Int32

  function Abs(v: int): nat { if v < 0 then -v else v }

  // ---------------------------------------------------------------------------
  // C integer semantics
  // ---------------------------------------------------------------------------

  /** Two's-complement narrowing to 32 bits, as an `(int32_t)` cast does. */
  function Wrap32(v: int): (r: Int32)
    ensures IsInt32(v) ==> r == v
    ensures (v - r) % TWO_TO_32 == 0
  {
    (v - INT32_MIN) % TWO_TO_32 + INT32_MIN
  }

  /** Facts about Euclidean division of a natural number by a positive divisor. */
  lemma DivFacts(n: nat, d: int)
    requires d > 0
    ensures 0 <= (n / d) * d <= n < (n / d) * d + d
    ensures n / d >= 0
  {
  }

  /** Negating one factor of a product negates the product. */
  lemma NegateFactor(p: int, b: int)
    ensures (-p) * b == -(p * b) && p * (-b) == -(p * b)
  {
  }

  /** The product of the truncated quotient and the divisor, by sign. */
  lemma SignedProduct(a: int, b: int, p: int)
    requires b != 0
    ensures (if (a < 0) == (b < 0) then p else -p) * b == (if a < 0 then -(p * Abs(b)) else p * Abs(b))
  {
    NegateFactor(p, Abs(b));
    if b < 0 {
      assert Abs(b) == -b;
      NegateFactor(p, -b);
      NegateFactor(-p, -b);
    }
  }

  /** C's integer division: the quotient truncated toward zero. */
  function TruncDiv(a: int, b: int): (q: int)
    requires b != 0
    ensures 0 <= q * b <= a || a <= q * b <= 0
    ensures Abs(a - q * b) < Abs(b)
  {
    var p := Abs(a) / Abs(b);
    DivFacts(Abs(a), Abs(b));
    SignedProduct(a, b, p);
    if (a < 0) == (b < 0) then p else -p
  }

  /** Products of naturals grow with their factors. */
  lemma MulMonotone(a: nat, b: nat, c: nat, d: nat)
    requires a <= c && b <= d
    ensures a * b <= c * d
  {
    assert c * d - a * b == (c - a) * d + a * (d - b);
  }

  /** The absolute value of a product is the product of the absolute values. */
  lemma AbsMul(k: int, b: int)
    ensures Abs(k * b) == Abs(k) * Abs(b)
  {
    if k < 0 && b < 0 {
      assert k * b == (-k) * (-b);
    } else if k < 0 {
      assert k * b == -((-k) * b);
    } else if b < 0 {
      assert k * b == -(k * (-b));
    }
  }

  /** A non-zero multiple of b is at least as large as b in absolute value. */
  lemma NonZeroMultiple(k: int, b: int)
    requires k != 0
    ensures Abs(k * b) >= Abs(b)
  {
    AbsMul(k, b);
    MulMonotone(1, Abs(b), Abs(k), Abs(b));
  }

  /** The only integer k with |k * b| < |b| is 0. */
  lemma ZeroMultiple(k: int, b: int)
    requires b != 0 && Abs(k * b) < Abs(b)
    ensures k == 0
  {
    if k != 0 {
      NonZeroMultiple(k, b);
    }
  }

  /** The two conditions in TruncDiv's contract determine the quotient. */
  lemma {:induction false} TruncDivUnique(a: int, b: int, q: int)
    requires b != 0
    requires 0 <= q * b <= a || a <= q * b <= 0
    requires Abs(a - q * b) < Abs(b)
    ensures q == TruncDiv(a, b)
  {
    var p := TruncDiv(a, b);
    assert (q - p) * b == q * b - p * b;
    ZeroMultiple(q - p, b);
  }

  /** Truncating division is odd in its dividend. */
  lemma TruncDivNegate(a: int, b: int)
    requires b != 0
    ensures TruncDiv(-a, b) == -TruncDiv(a, b)
  {
    var q := TruncDiv(a, b);
    NegateFactor(q, b);
    assert -a - (-q) * b == -(a - q * b);
    TruncDivUnique(-a, b, -q);
  }

  /** Dividing an exact multiple gives the multiplier back. */
  lemma TruncDivExact(k: int, b: int)
    requires b != 0
    ensures TruncDiv(k * b, b) == k
  {
    TruncDivUnique(k * b, b, k);
  }

  /** Two values congruent modulo 2^32 narrow to the same 32-bit value. */
  lemma Wrap32Congruent(u: int, v: int)
    requires (u - v) % TWO_TO_32 == 0
    ensures Wrap32(u) == Wrap32(v)
  {
    var k := (u - v) / TWO_TO_32;
    assert u - v == k * TWO_TO_32;
    var a, b := Wrap32(u), Wrap32(v);
    assert (a - b) % TWO_TO_32 == 0 by {
      var m := (u - a) / TWO_TO_32;
      var n := (v - b) / TWO_TO_32;
      assert a - b == (k - m + n) * TWO_TO_32;
    }
    assert -TWO_TO_32 < a - b < TWO_TO_32;
  }

  // ---------------------------------------------------------------------------
  // The conversion and arithmetic macros
  // ---------------------------------------------------------------------------

  /** convert_int_to_fixed_point: n scaled by the factor. */
  function IntToFixed(n: Int32): (x: Fixed)
    ensures IsInt32(n * FIXED_POINT_FACTOR) ==> x == n * FIXED_POINT_FACTOR
  {
    Wrap32(n * FIXED_POINT_FACTOR)
  }

  /** convert_fixed_point_to_int_round_towards_zero: the integer part of x, truncated toward zero. */
  function FixedToIntTruncate(x: Fixed): (n: Int32)
    ensures 0 <= n * FIXED_POINT_FACTOR <= x || x <= n * FIXED_POINT_FACTOR <= 0
    ensures Abs(x - n * FIXED_POINT_FACTOR) < FIXED_POINT_FACTOR
  {
    TruncDiv(x, FIXED_POINT_FACTOR)
  }

  /** True when adding (x >= 0) or subtracting (x < 0) half a unit cannot leave the 32-bit range. */
  predicate RoundingFits(x: int)
  {
    if x >= 0 then x + FIXED_POINT_FACTOR / 2 <= INT32_MAX else INT32_MIN <= x - FIXED_POINT_FACTOR / 2
  }

  /**
   * convert_fixed_point_to_int_round_to_nearest: x / FIXED_POINT_FACTOR rounded to the
   * nearest integer, halves rounded away from zero.
   */
  function FixedToIntNearest(x: Fixed): (n: Int32)
    ensures RoundingFits(x) && x >= 0 ==>
      x - FIXED_POINT_FACTOR / 2 < n * FIXED_POINT_FACTOR <= x + FIXED_POINT_FACTOR / 2
    ensures RoundingFits(x) && x < 0 ==>
      x - FIXED_POINT_FACTOR / 2 <= n * FIXED_POINT_FACTOR < x + FIXED_POINT_FACTOR / 2
  {
    if x >= 0 then TruncDiv(Wrap32(x + FIXED_POINT_FACTOR / 2), FIXED_POINT_FACTOR)
    else TruncDiv(Wrap32(x - FIXED_POINT_FACTOR / 2), FIXED_POINT_FACTOR)
  }

  /** add_fixed_point_numbers */
  function AddFixed(x: Fixed, y: Fixed): (r: Fixed)
    ensures IsInt32(x + y) ==> r == x + y
  {
    Wrap32(x + y)
  }

  /** subtract_fixed_point_numbers */
  function SubFixed(x: Fixed, y: Fixed): (r: Fixed)
    ensures IsInt32(x - y) ==> r == x - y
  {
    Wrap32(x - y)
  }

  /** add_int_to_fixed_point_number: x plus n units. */
  function AddInt(x: Fixed, n: Int32): (r: Fixed)
    ensures IsInt32(n * FIXED_POINT_FACTOR) && IsInt32(x + n * FIXED_POINT_FACTOR) ==>
      r == x + n * FIXED_POINT_FACTOR
  {
    Wrap32(x + IntToFixed(n))
  }

  /** subtract_int_from_fixed_point_number: x minus n units. */
  function SubInt(x: Fixed, n: Int32): (r: Fixed)
    ensures IsInt32(n * FIXED_POINT_FACTOR) && IsInt32(x - n * FIXED_POINT_FACTOR) ==>
      r == x - n * FIXED_POINT_FACTOR
  {
    Wrap32(x - IntToFixed(n))
  }

  /**
   * multiply_fixed_point_numbers: the 64-bit product of x and y scaled back by the factor,
   * truncated toward zero and narrowed to 32 bits.  When the narrowing keeps the value,
   * r * FIXED_POINT_FACTOR approximates x * y from the side of zero within one factor.
   */
  function MulFixed(x: Fixed, y: Fixed): (r: Fixed)
    ensures IsInt32(TruncDiv(x * y, FIXED_POINT_FACTOR)) ==>
      (0 <= r * FIXED_POINT_FACTOR <= x * y || x * y <= r * FIXED_POINT_FACTOR <= 0) &&
      Abs(x * y - r * FIXED_POINT_FACTOR) < FIXED_POINT_FACTOR
  {
    Wrap32(TruncDiv(x * y, FIXED_POINT_FACTOR))
  }

  /**
   * divide_fixed_point_numbers: x scaled up by the factor in 64 bits, divided by y, truncated
   * toward zero and narrowed to 32 bits.  When the narrowing keeps the value, r * y
   * approximates x * FIXED_POINT_FACTOR from the side of zero within |y|.
   */
  function DivFixed(x: Fixed, y: Fixed): (r: Fixed)
    requires y != 0
    ensures IsInt32(TruncDiv(x * FIXED_POINT_FACTOR, y)) ==>
      (0 <= r * y <= x * FIXED_POINT_FACTOR || x * FIXED_POINT_FACTOR <= r * y <= 0) &&
      Abs(x * FIXED_POINT_FACTOR - r * y) < Abs(y)
  {
    Wrap32(TruncDiv(x * FIXED_POINT_FACTOR, y))
  }

  /** multiply_fixed_point_number_by_int: a plain product, with no rescaling. */
  function MulInt(x: Fixed, n: Int32): (r: Fixed)
    ensures IsInt32(x * n) ==> r == x * n
  {
    Wrap32(x * n)
  }

  /**
   * divide_fixed_point_number_by_int: a plain truncating quotient, with no rescaling.
   * C leaves division by zero and INT32_MIN / -1 undefined, so callers avoid both.
   */
  function DivInt(x: Fixed, n: Int32): (r: Fixed)
    requires n != 0 && !(x == INT32_MIN && n == -1)
    ensures 0 <= r * n <= x || x <= r * n <= 0
    ensures Abs(x - r * n) < Abs(n)
  {
    var q := TruncDiv(x, n);
    QuotientFits(x, n, q);
    q
  }

  /** A truncating quotient of 32-bit operands fits, except for INT32_MIN / -1. */
  lemma QuotientFits(a: Int32, b: Int32, q: int)
    requires b != 0 && !(a == INT32_MIN && b == -1)
    requires 0 <= q * b <= a || a <= q * b <= 0
    ensures IsInt32(q)
  {
    AbsMul(q, b);
    if Abs(b) >= 2 {
      MulMonotone(Abs(q), 2, Abs(q), Abs(b));
    } else if b == 1 {
      assert q * b == q;
    } else {
      assert q * b == -q;
    }
  }

  // ---------------------------------------------------------------------------
  // Properties of the macros
  // ---------------------------------------------------------------------------

  /** The 64-bit intermediates of MulFixed and DivFixed never overflow. */
  lemma WideIntermediatesFit(x: Fixed, y: Fixed)
    ensures IsInt64(x * y)
    ensures IsInt64(x * FIXED_POINT_FACTOR)
  {
    AbsMul(x, y);
    MulMonotone(Abs(x), Abs(y), 0x8000_0000, 0x8000_0000);
    assert Abs(x * y) <= 0x4000_0000_0000_0000;
  }

  /** Converting an integer and truncating back gives the integer, whenever its image fits. */
  lemma IntToFixedRoundTrip(n: Int32)
    requires IsInt32(n * FIXED_POINT_FACTOR)
    ensures FixedToIntTruncate(IntToFixed(n)) == n
  {
    TruncDivExact(n, FIXED_POINT_FACTOR);
  }

  /** Converting an integer and rounding back also gives the integer, whenever its image fits. */
  lemma IntToFixedRoundTripNearest(n: Int32)
    requires IsInt32(n * FIXED_POINT_FACTOR) && RoundingFits(n * FIXED_POINT_FACTOR)
    ensures FixedToIntNearest(IntToFixed(n)) == n
  {
    var x := n * FIXED_POINT_FACTOR;
    var h := FIXED_POINT_FACTOR / 2;
    if x >= 0 {
      TruncDivUnique(x + h, FIXED_POINT_FACTOR, n);
    } else {
      TruncDivUnique(x - h, FIXED_POINT_FACTOR, n);
    }
  }

  /** Truncation is odd: it commutes with negation. */
  lemma TruncateOdd(x: Fixed)
    requires x != INT32_MIN
    ensures FixedToIntTruncate(-x) == -FixedToIntTruncate(x)
  {
    TruncDivNegate(x, FIXED_POINT_FACTOR);
  }

  /** Round-to-nearest is odd-symmetric whenever neither rounding step wraps around. */
  lemma NearestOdd(x: Fixed)
    requires x != INT32_MIN && RoundingFits(x) && RoundingFits(-x)
    ensures FixedToIntNearest(-x) == -FixedToIntNearest(x)
  {
    var h := FIXED_POINT_FACTOR / 2;
    if x > 0 {
      TruncDivNegate(x + h, FIXED_POINT_FACTOR);
    } else if x < 0 {
      TruncDivNegate(-x + h, FIXED_POINT_FACTOR);
    }
  }

  /** Round-to-nearest lands within half a unit of x whenever it does not wrap around. */
  lemma NearestWithinHalfUnit(x: Fixed)
    requires RoundingFits(x)
    ensures 2 * Abs(x - FixedToIntNearest(x) * FIXED_POINT_FACTOR) <= FIXED_POINT_FACTOR
  {
  }

  /**
   * Adding n units and subtracting n units gives x back.  Where n * FIXED_POINT_FACTOR
   * and the sum fit 32 bits this is what C computes; beyond that range it holds only
   * for the two's-complement reading of the overflow, which C leaves undefined.
   */
  lemma SubIntUndoesAddInt(x: Fixed, n: Int32)
    ensures SubInt(AddInt(x, n), n) == x
  {
    var w: int := IntToFixed(n);
    var s: int := AddInt(x, n);
    assert (x + w - s) % TWO_TO_32 == 0;
    Wrap32Congruent(s - w, x);
  }

  /** Adding n units is adding the fixed-point image of n. */
  lemma AddIntIsAddFixed(x: Fixed, n: Int32)
    ensures AddInt(x, n) == AddFixed(x, IntToFixed(n))
    ensures SubInt(x, n) == SubFixed(x, IntToFixed(n))
  {
  }

  /** Multiplying by one unit leaves every fixed-point number unchanged. */
  lemma MulByOne(x: Fixed)
    ensures MulFixed(x, IntToFixed(1)) == x
  {
    TruncDivExact(x, FIXED_POINT_FACTOR);
  }

  /** Dividing by one unit leaves every fixed-point number unchanged. */
  lemma DivByOne(x: Fixed)
    ensures DivFixed(x, IntToFixed(1)) == x
  {
    TruncDivExact(x, FIXED_POINT_FACTOR);
  }

  /** Fixed-point multiplication is commutative. */
  lemma MulCommutes(x: Fixed, y: Fixed)
    ensures MulFixed(x, y) == MulFixed(y, x)
  {
    assert x * y == y * x;
  }
}
