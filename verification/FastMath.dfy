/** The integer helpers of src/fast_math.h and src/fast_math.c that the allocators use. */
module FastMath {

  /** The size of a pointer, to which sizes are aligned. */
  const ALIGN_SIZE := 8

  /** FAST_MATH_ALIGNMENT: the least multiple of the pointer size that is not below `x`. */
  function Alignment(x: nat): (r: nat)
    ensures r % ALIGN_SIZE == 0 && x <= r < x + ALIGN_SIZE
  {
    if x % ALIGN_SIZE != 0 then x + (ALIGN_SIZE - x % ALIGN_SIZE) else x
  }

  function Pow2(n: nat): (r: nat)
    ensures r >= 1
  {
    if n == 0 then 1 else 2 * Pow2(n - 1)
  }

  lemma {:induction false} Pow2Monotone(a: nat, b: nat)
    requires a <= b
    ensures Pow2(a) <= Pow2(b)
    decreases b - a
  {
    if a < b { Pow2Monotone(a, b - 1); }
  }

  /** Bitwise conjunction, bit by bit. */
  function And(x: nat, y: nat): nat
  {
    if x == 0 || y == 0 then 0 else 2 * And(x / 2, y / 2) + (x % 2) * (y % 2)
  }

  predicate IsPow2(x: nat)
  {
    x == 1 || (x > 1 && x % 2 == 0 && IsPow2(x / 2))
  }

  lemma {:induction false} AndSame(x: nat)
    ensures And(x, x) == x
  {
    if x > 0 { AndSame(x / 2); }
  }

  /** The test x & (x - 1) tells the powers of two. */
  lemma {:induction false} AndPredecessor(x: nat)
    requires x > 0
    ensures And(x, x - 1) == 0 <==> IsPow2(x)
  {
    if x > 1 {
      if x % 2 == 0 {
        assert (x - 1) / 2 == x / 2 - 1;
        AndPredecessor(x / 2);
      } else {
        assert (x - 1) / 2 == x / 2;
        AndSame(x / 2);
      }
    }
  }

  /** The exponent of the greatest power of two that is not above `x`. */
  function Log2Down(x: nat): (i: nat)
    ensures x > 0 ==> Pow2(i) <= x < Pow2(i + 1)
  {
    if x <= 1 then 0 else Log2Down(x / 2) + 1
  }

  lemma {:induction false} IsPow2Exact(x: nat)
    requires x > 0
    ensures IsPow2(x) <==> x == Pow2(Log2Down(x))
  {
    if x > 1 {
      IsPow2Exact(x / 2);
    }
  }

  /** The exponent of the least power of two that is not below `x`. */
  function Log2Up(x: nat): (i: nat)
    ensures x > 0 ==> x <= Pow2(i) && (i > 0 ==> Pow2(i - 1) < x)
  {
    if x == 0 || IsPow2(x) then
      (if x > 0 then IsPow2Exact(x); PowPred(Log2Down(x)); Log2Down(x) else 0)
    else
      IsPow2Exact(x);
      Log2Down(x) + 1
  }

  lemma PowPred(i: nat)
    ensures i > 0 ==> Pow2(i - 1) < Pow2(i)
  {
  }

  /** fast_math_fastlog2, rounded up or down. */
  method FastLog2(x: nat, up: bool) returns (i: nat)
    ensures i == if up then Log2Up(x) else Log2Down(x)
  {
    i := 0;
    if x > 0 { AndPredecessor(x); }
    if up && x > 0 && And(x, x - 1) != 0 {
      i := 1;
    }
    var y := x;
    while y > 1
      invariant i + Log2Down(y) == if up then Log2Up(x) else Log2Down(x)
      invariant y >= 1 || x == 0 == y
    {
      i := i + 1;
      y := y / 2;
    }
  }

  lemma MulLe(a: nat, i: nat, j: nat)
    requires i <= j
    ensures i * a <= j * a && a * i <= a * j
  {
  }

  /** Division rounding up. */
  function UpDiv(x: nat, d: nat): nat
    requires d > 0
  {
    x / d + if x % d != 0 then 1 else 0
  }

  lemma UpDivBounds(x: nat, d: nat)
    requires d > 0
    ensures x <= UpDiv(x, d) * d
    ensures UpDiv(x, d) > 0 ==> (UpDiv(x, d) - 1) * d < x
    ensures x > 0 ==> UpDiv(x, d) > 0
  {
    DivMod(x, d);
    var q := UpDiv(x, d);
    if q > 0 {
      assert (q - 1) * d == q * d - d;
    }
  }

  lemma DivMod(x: nat, d: nat)
    requires d > 0
    ensures x == (x / d) * d + x % d && 0 <= x % d < d
    ensures (x / d) * d <= x < (x / d + 1) * d
  {
    assert (x / d + 1) * d == (x / d) * d + d;
  }

  /** The quotient, one more when there is a remainder. */
  method DivideUp(x: nat, d: nat) returns (q: nat)
    requires d > 0
    ensures q == UpDiv(x, d)
    ensures x <= q * d && (q > 0 ==> (q - 1) * d < x)
  {
    UpDivBounds(x, d);
    q := x / d;
    if x % d != 0 {
      q := q + 1;
    }
  }
}
