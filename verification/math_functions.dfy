/**
 Scalar helpers of the math library (src/core/math/math_functions.hpp),
 modelled over `real`. Rounding, NaN and infinity are not modelled.
 */
module MathFunctions {

  /** math::pi, as an exact real literal. */
  const Pi: real := 3.14159265358979323846

  /**
   `std::sqrt` is a library routine the model cannot see, so every operation
   that calls it receives it as a parameter. This predicate is what the
   callers rely on: a non-negative square root on non-negative arguments.
   */
  ghost predicate IsSqrt(sqrt: real -> real) {
    forall x: real {:trigger sqrt(x)} :: 0.0 <= x ==> 0.0 <= sqrt(x) && sqrt(x) * sqrt(x) == x
  }

  /** A product is zero only when one of its factors is. */
  lemma ProductZero(a: real, b: real)
    requires a * b == 0.0
    ensures a == 0.0 || b == 0.0
  {
    if a != 0.0 {
      assert b == (a * b) / a;
    }
  }

  /** Two non-negative numbers with the same square are equal. */
  lemma SquareInjective(s: real, t: real)
    requires 0.0 <= s && 0.0 <= t
    requires s * s == t * t
    ensures s == t
  {
    assert (s - t) * (s + t) == s * s - t * t;
    ProductZero(s - t, s + t);
  }

  /** The square root is unique: a square root routine maps a*a to |a|. */
  lemma SqrtOfSquare(sqrt: real -> real, a: real)
    requires IsSqrt(sqrt)
    ensures sqrt(a * a) == Abs(a)
  {
    assert 0.0 <= a * a;
    assert Abs(a) * Abs(a) == a * a;
    SquareInjective(sqrt(a * a), Abs(a));
  }

  /** A square root of zero is zero. */
  lemma SqrtZero(sqrt: real -> real)
    requires IsSqrt(sqrt)
    ensures sqrt(0.0) == 0.0
  {
    SqrtOfSquare(sqrt, 0.0);
  }

  /** A square root of one is one. */
  lemma SqrtOne(sqrt: real -> real)
    requires IsSqrt(sqrt)
    ensures sqrt(1.0) == 1.0
  {
    SqrtOfSquare(sqrt, 1.0);
  }

  /** A square root of a positive number is positive. */
  lemma SqrtPositive(sqrt: real -> real, x: real)
    requires IsSqrt(sqrt)
    requires 0.0 < x
    ensures 0.0 < sqrt(x)
  {
    var s := sqrt(x);
    assert s * s == x;
    if s == 0.0 {
      assert false;
    }
  }

  /** math::min: the smaller argument, the first one only when strictly smaller. */
  function Min(a: real, b: real): (r: real)
    ensures r <= a && r <= b
    ensures r == a || r == b
  {
    if a < b then a else b
  }

  /** math::max: the larger argument, the first one only when strictly larger. */
  function Max(a: real, b: real): (r: real)
    ensures a <= r && b <= r
    ensures r == a || r == b
  {
    if a > b then a else b
  }

  /** math::sign: -1, 0 or 1 according to the sign of the argument. */
  function Sign(a: real): (r: real)
    ensures r == -1.0 || r == 0.0 || r == 1.0
    ensures r == 0.0 <==> a == 0.0
    ensures 0.0 < a ==> r == 1.0
    ensures a < 0.0 ==> r == -1.0
  {
    if a > 0.0 then 1.0 else if a < 0.0 then -1.0 else 0.0
  }

  /** sign(a) * a is the magnitude of a, so never negative. */
  lemma SignTimesValue(a: real)
    ensures 0.0 <= Sign(a) * a
    ensures Sign(a) * a == Abs(a)
  {
  }

  /** math::sqr: the square, never negative. */
  function Sqr(a: real): (r: real)
    ensures 0.0 <= r
    ensures r == Abs(a) * Abs(a)
  {
    a * a
  }

  /** math::abs (std::abs): the magnitude of the argument. */
  function Abs(a: real): (r: real)
    ensures 0.0 <= r
    ensures r == a || r == -a
    ensures a <= r && -a <= r
  {
    if a < 0.0 then -a else a
  }

  /** math::deg2rad; rad2deg undoes it exactly over the reals. */
  function Deg2Rad(a: real): (r: real)
    ensures Rad2Deg(r) == a
  {
    a * Pi / 180.0
  }

  /** math::rad2deg; deg2rad undoes it exactly over the reals. */
  function Rad2Deg(a: real): (r: real)
    ensures r * Pi == a * 180.0
  {
    a * 180.0 / Pi
  }

  /** math::floor (std::floor): the greatest integer not above the argument. */
  function Floor(a: real): (r: real)
    ensures r <= a < r + 1.0
    ensures r == r.Floor as real
  {
    a.Floor as real
  }

  /** math::frac: the fractional part, in [0, 1). */
  function Frac(a: real): (r: real)
    ensures 0.0 <= r < 1.0
    ensures a - r == (a - r).Floor as real
  {
    a - Floor(a)
  }

  /** math::round: floor(a + 0.5), an integer within one half of the argument. */
  function Round(a: real): (r: real)
    ensures a - 0.5 < r <= a + 0.5
    ensures r == r.Floor as real
  {
    Floor(a + 0.5)
  }

  /**
   math::clamp(val, min, max): `min` when `val` is below it, else `max` when
   `val` is above that, else `val`. With an empty range (min > max) the
   result is `min` below `min` and `max` everywhere else.
   */
  function Clamp(val: real, lo: real, hi: real): (r: real)
    ensures lo <= hi ==> lo <= r <= hi
    ensures lo <= val <= hi ==> r == val
    ensures val < lo ==> r == lo
    ensures lo <= val ==> r == Min(val, hi)
  {
    if val < lo then lo else if val > hi then hi else val
  }

  /** Clamping twice to the same non-empty range is clamping once. */
  lemma ClampIdempotent(val: real, lo: real, hi: real)
    requires lo <= hi
    ensures Clamp(Clamp(val, lo, hi), lo, hi) == Clamp(val, lo, hi)
  {
  }
}
