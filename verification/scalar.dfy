/** Scalar helpers of the renderer (src/Math.hpp), over unbounded `real`s and `int`s.
    `uint` arguments are modelled as `nat`s already reduced modulo 2^32 (`U32`). */
module Scalar {

  /** numeric_limits<Real>::max(); `Real` is taken to be a 32-bit float. Only its role as a
      very large positive bound matters to the model. */
  const MaxReal: real := 340282346638528859811704183484516925440.0

  /** Value of pi used by the source (to the precision of its literal). */
  const Pi: real := 3.14159265358979323846

  const UintModulus: int := 0x1_0000_0000

  /** The C++ conversion of an `int` to a 32-bit `uint`: reduction modulo 2^32. */
  function U32(i: int): (r: nat)
    ensures r < UintModulus
    ensures (r - i) % UintModulus == 0
  {
    i % UintModulus
  }

  // ---------------------------------------------------------------- min / max

  function Min(a: real, b: real): (r: real)
    ensures r <= a && r <= b
    ensures r == a || r == b
  {
    if a < b then a else b
  }

  function Max(a: real, b: real): (r: real)
    ensures a <= r && b <= r
    ensures r == a || r == b
  {
    if a > b then a else b
  }

  function MinInt(a: int, b: int): (r: int)
    ensures r <= a && r <= b
    ensures r == a || r == b
  {
    if a < b then a else b
  }

  function MaxInt(a: int, b: int): (r: int)
    ensures a <= r && b <= r
    ensures r == a || r == b
  {
    if a > b then a else b
  }

  /** `min(a, b) <= max(a, b)` for every pair, and together they return both arguments. */
  lemma MinMaxOrder(a: real, b: real)
    ensures Min(a, b) <= Max(a, b)
    ensures {Min(a, b), Max(a, b)} == {a, b}
  {
  }

  // ---------------------------------------------------------------- clamp

  /** `clamp(a, lower, upper) = min(upper, max(lower, a))`. When the bounds are crossed
      (`lower > upper`) the upper bound wins. */
  function Clamp(a: real, lower: real, upper: real): (r: real)
    ensures lower <= upper ==> lower <= r <= upper
    ensures lower <= upper ==> (r == a <==> lower <= a <= upper)
    ensures a < lower && lower <= upper ==> r == lower
    ensures upper < a ==> r == upper
    ensures upper < lower ==> r == upper
  {
    Min(upper, Max(lower, a))
  }

  function ClampInt(a: int, lower: int, upper: int): (r: int)
    ensures lower <= upper ==> lower <= r <= upper
    ensures lower <= upper ==> (r == a <==> lower <= a <= upper)
    ensures a < lower && lower <= upper ==> r == lower
    ensures upper < a ==> r == upper
    ensures upper < lower ==> r == upper
  {
    MinInt(upper, MaxInt(lower, a))
  }

  /** The `uint` overload: the same rule on values that are already unsigned, so a negative
      argument has wrapped to a huge value before it is clamped. */
  function ClampUint(a: nat, lower: nat, upper: nat): (r: nat)
    ensures lower <= upper ==> lower <= r <= upper
    ensures upper < a ==> r == upper
  {
    MinInt(upper, MaxInt(lower, a))
  }

  /** Clamping -3 into [1, 2] gives 2 as a `uint` (it wrapped to 2^32 - 3) but 1 as an `int`. */
  lemma ClampWrappedNegative()
    ensures ClampUint(U32(-3), 1, 2) == 2
    ensures ClampInt(-3, 1, 2) == 1
  {
    assert U32(-3) == UintModulus - 3;
  }

  // ---------------------------------------------------------------- abs / closeEnough

  function Abs(a: real): (r: real)
    ensures 0.0 <= r
    ensures r == a || r == -a
  {
    if a < 0.0 then -a else a
  }

  lemma AbsNegate(a: real)
    ensures Abs(-a) == Abs(a)
  {
  }

  /** `closeEnough(a, b, e)`: the distance between a and b is strictly below e. */
  function CloseEnough(a: real, b: real, epsilon: real): (r: bool)
    ensures r <==> (a - epsilon < b && b < a + epsilon)
  {
    Abs(a - b) < epsilon
  }

  lemma CloseEnoughSymmetric(a: real, b: real, epsilon: real)
    ensures CloseEnough(a, b, epsilon) == CloseEnough(b, a, epsilon)
    ensures !CloseEnough(a, a, 0.0)
  {
  }

  // ---------------------------------------------------------------- truncation

  /** The C++ conversion `int(x)` of a real: truncation toward zero. */
  function Trunc(x: real): (r: int)
    ensures 0.0 <= x ==> r as real <= x < r as real + 1.0
    ensures x < 0.0 ==> r as real - 1.0 < x <= r as real
  {
    if x >= 0.0 then x.Floor else -((-x).Floor)
  }

  // ---------------------------------------------------------------- integer division

  /** A multiple of a positive n strictly between -n and n is zero. */
  lemma MultipleBelow(k: int, n: int)
    requires 0 < n && -n < k * n < n
    ensures k == 0
  {
  }

  /** Quotient and remainder of `q * n + r` by n, for `0 <= r < n`. */
  lemma DivModUnique(n: nat, q: int, r: int)
    requires 0 < n && 0 <= r < n
    ensures (q * n + r) / n == q && (q * n + r) % n == r
  {
    var a := q * n + r;
    assert a == (a / n) * n + a % n;
    assert (q - a / n) * n == a % n - r;
    MultipleBelow(q - a / n, n);
  }

  /** Row-major indices of a w x h grid: below w * h exactly when the row is below h. */
  lemma RowMajorBound(i: nat, w: nat, h: nat)
    requires 0 < w
    ensures i < w * h <==> i / w < h
  {
    assert i == (i / w) * w + i % w;
    if i / w < h {
      assert (i / w + 1) * w <= h * w;
    }
  }

  // ---------------------------------------------------------------- transcendentals

  /** The math library's square root, left uninterpreted; `SqrtLaw` is all the model knows. */
  const Sqrt: real -> real
  /** tan, sin and cos of the math library, uninterpreted. */
  const Tan: real -> real
  const Sin: real -> real
  const Cos: real -> real
  /** acos of the math library, uninterpreted. */
  const Acos: real -> real

  /** The square-root law: non-negative, and squaring gives back a non-negative argument. */
  ghost predicate SqrtLaw() {
    forall x: real :: 0.0 <= x ==> 0.0 <= Sqrt(x) && Sqrt(x) * Sqrt(x) == x
  }

  /** sin^2 + cos^2 = 1, the only trigonometric fact any contract here relies on. */
  ghost predicate PythagoreanLaw() {
    forall a: real :: Sin(a) * Sin(a) + Cos(a) * Cos(a) == 1.0
  }

  lemma ZeroProduct(a: real, b: real)
    requires a * b == 0.0
    ensures a == 0.0 || b == 0.0
  {
  }

  lemma SquareNonNegative(a: real)
    ensures 0.0 <= a * a
  {
    if a < 0.0 {
      assert a * a == (-a) * (-a);
    }
  }

  /** The product of two positive numbers is positive; `b` is a second name for the same
      factor when squaring, which keeps the solver from rewriting the square. */
  lemma PositiveProduct(a: real, b: real, p: real)
    requires 0.0 < a && 0.0 < b && p == a * b
    ensures 0.0 < p
  {
  }

  /** Squaring is strictly increasing on the non-negative reals. */
  lemma SquareMonotone(x: real, y: real)
    requires 0.0 <= x < y
    ensures x * x < y * y
  {
    assert y * y - x * x == (y - x) * (y + x);
    PositiveProduct(y - x, y + x, (y - x) * (y + x));
  }

  /** A sum of squares is never negative, and zero only when every term is. */
  lemma SumOfSquares3(a: real, b: real, c: real)
    ensures 0.0 <= a * a + b * b + c * c
    ensures a * a + b * b + c * c == 0.0 <==> a == 0.0 && b == 0.0 && c == 0.0
  {
    SquareNonNegative(a);
    SquareNonNegative(b);
    SquareNonNegative(c);
    if a * a + b * b + c * c == 0.0 {
      ZeroProduct(a, a);
      ZeroProduct(b, b);
      ZeroProduct(c, c);
    }
  }

  lemma SumOfSquares4(a: real, b: real, c: real, d: real)
    ensures 0.0 <= a * a + b * b + c * c + d * d
    ensures a * a + b * b + c * c + d * d == 0.0 <==> a == 0.0 && b == 0.0 && c == 0.0 && d == 0.0
  {
    SquareNonNegative(a);
    SumOfSquares3(b, c, d);
    if a * a + b * b + c * c + d * d == 0.0 {
      ZeroProduct(a, a);
    }
  }

  /** The square root of a square is the absolute value. */
  lemma SqrtOfSquare(a: real)
    requires SqrtLaw()
    ensures Sqrt(a * a) == Abs(a)
  {
    var s := Sqrt(a * a);
    var b := Abs(a);
    assert b * b == a * a;
    assert (s - b) * (s + b) == s * s - b * b;
    ZeroProduct(s - b, s + b);
  }

  /** The square root is zero exactly at zero. */
  lemma SqrtZero(x: real)
    requires SqrtLaw()
    requires 0.0 <= x
    ensures 0.0 <= Sqrt(x)
    ensures Sqrt(x) == 0.0 <==> x == 0.0
  {
    if x == 0.0 {
      ZeroProduct(Sqrt(x), Sqrt(x));
    }
  }

  lemma SqrtOne()
    requires SqrtLaw()
    ensures Sqrt(1.0) == 1.0
  {
    SqrtOfSquare(1.0);
  }
}
