/** Binary floating point, as far as the proofs need it: every operation is a real operation
    followed by a rounding `fl`, and what is proved holds for any rounding with IEEE 754
    double precision's error bound. */
module Doubles {
  /** A double: a real number, or an infinity or NaN. */
  datatype F64 = Finite(r: real) | NotFinite

  type Rounding = real -> F64

  const EXACT_INTEGERS: int := 9007199254740992

  function Abs(x: real): real {
    if x < 0.0 then -x else x
  }

  function AbsInt(x: int): int {
    if x < 0 then -x else x
  }

  predicate InRange(x: real) {
    Abs(x) <= 1000000000000000000000000000000.0
  }

  /** The relative error of one rounding is at most 2 to the power -53; the second term
      allows for results below the normal range. */
  ghost predicate RoundsTo(x: real, y: F64) {
    y.Finite? && Abs(y.r - x) <= 0.00000000000000011102230246251565404236316680908203125 * Abs(x)
      + 0.000000000000000000000000000001
  }

  ghost predicate IsDouble(fl: Rounding) {
    && (forall x | InRange(x) :: RoundsTo(x, fl(x)))
    && (forall n: int | AbsInt(n) <= EXACT_INTEGERS :: fl(n as real) == Finite(n as real))
  }

  /** Exact arithmetic is one such rounding, so the bounds can be met. */
  lemma ExactArithmeticQualifies()
    ensures IsDouble((x: real) => Finite(x))
  {
  }

  // ---------------------------------------------------------------- operations on doubles

  /** The exact product, named so that the linear bounds below can leave it folded. */
  function Product(a: real, b: real): real {
    a * b
  }

  function Times(fl: Rounding, a: F64, b: F64): F64 {
    if a.Finite? && b.Finite? then fl(Product(a.r, b.r)) else NotFinite
  }

  function Over(fl: Rounding, a: F64, b: real): F64
    requires b != 0.0
  {
    if a.Finite? then fl(a.r / b) else NotFinite
  }

  function Plus(fl: Rounding, a: F64, b: F64): F64 {
    if a.Finite? && b.Finite? then fl(a.r + b.r) else NotFinite
  }

  function Min(a: F64, b: F64): F64 {
    if a.Finite? && b.Finite? then (if b.r < a.r then b else a) else if a.Finite? then a else b
  }

  /** f64::round: to the nearest integer, halves away from zero. Always exact. */
  function Round(x: real): int {
    if x >= 0.0 then (x + 0.5).Floor else -((-x + 0.5).Floor)
  }

  lemma {:induction false} RoundIsNearest(x: real, k: int)
    ensures Abs(x - Round(x) as real) <= 0.5
    ensures Abs(x - Round(x) as real) <= Abs(x - k as real)
    ensures Abs(x - k as real) < 0.5 ==> Round(x) == k
  {
    var r := Round(x);
    assert r < k ==> r as real + 1.0 <= k as real;
    assert k < r ==> k as real + 1.0 <= r as real;
  }

  /** Half way between two integers it goes to the one further from zero. */
  lemma HalvesGoAwayFromZero(k: nat)
    ensures Round(k as real + 0.5) == k + 1 && Round(-(k as real) - 0.5) == -(k + 1)
  {
    assert (k as real + 1.0).Floor == k + 1;
  }

  // ---------------------------------------------------------------- error bounds

  /** Two roundings in a row: a little over twice the error of one. */
  lemma TwoRoundingsUp(fl: Rounding, x: real, y: F64, s: real)
    requires IsDouble(fl) && 1.0 <= s <= 1000000000000.0
    requires Abs(Product(x, s)) <= 400000000000000.0 && RoundsTo(x, y)
    ensures var z := fl(Product(y.r, s)); var exact := Product(x, s);
            z.Finite? && Abs(z.r - exact) <= 0.00000000000000022315 * Abs(exact) + 0.00000000000000001
  {
    hide Product;
    ScaledError(x, y.r, s);
    SecondRounding(fl, Product(x, s), Product(y.r, s));
  }

  lemma SecondRounding(fl: Rounding, x: real, y: real)
    requires IsDouble(fl) && Abs(x) <= 400000000000000.0
        && Abs(y - x) <= 0.00000000000000011102230246251565404236316680908203125 * Abs(x) + 0.000000000000000001
    ensures fl(y).Finite? && Abs(fl(y).r - x) <= 0.00000000000000022315 * Abs(x) + 0.00000000000000001
  {
  }

  lemma ScaledError(x: real, y: real, s: real)
    requires 1.0 <= s <= 1000000000000.0
    requires Abs(y - x) <= 0.00000000000000011102230246251565404236316680908203125 * Abs(x) + 0.000000000000000000000000000001
    ensures Abs(Product(y, s) - Product(x,
        s)) <= 0.00000000000000011102230246251565404236316680908203125 * Abs(Product(x, s)) + 0.000000000000000001
  {
    hide Product;
    var bound := 0.00000000000000011102230246251565404236316680908203125 * Abs(x) + 0.000000000000000000000000000001;
    AbsOfProduct(y - x, s);
    AbsOfProduct(x, s);
    ProductDifference(y, x, s);
    ProductOrder(Abs(y - x), bound, s);
    assert Product(bound, s) == 0.00000000000000011102230246251565404236316680908203125 * Product(Abs(x), s)
      + 0.000000000000000000000000000001 * s by { ProductOfBound(Abs(x), s); }
  }

  lemma ProductOfBound(a: real, s: real)
    ensures Product(0.00000000000000011102230246251565404236316680908203125 * a + 0.000000000000000000000000000001,
        s) == 0.00000000000000011102230246251565404236316680908203125 * Product(a, s)
        + 0.000000000000000000000000000001 * s
  {
  }

  lemma ProductDifference(y: real, x: real, s: real)
    ensures Product(y - x, s) == Product(y, s) - Product(x, s)
  {
  }

  lemma AbsOfProduct(x: real, s: real)
    requires s > 0.0
    ensures Abs(Product(x, s)) == Product(Abs(x), s)
  {
  }

  lemma ProductOrder(x: real, y: real, s: real)
    requires x <= y && s > 0.0
    ensures Product(x, s) <= Product(y, s)
  {
  }

  lemma QuotientRounding(fl: Rounding, n: int, s: real)
    requires IsDouble(fl) && s >= 1.0 && AbsInt(n) <= 4000000000000
    ensures fl(n as real) == Finite(n as real)
    ensures RoundsTo(n as real / s, fl(n as real / s))
    ensures Product(n as real / s, s) == n as real
  {
  }

  lemma SmallerBeforeScaling(x: real, s: real)
    requires s >= 1.0
    ensures Abs(x) <= Abs(Product(x, s))
  {
  }

  lemma SmallDifference(fl: Rounding, d: real)
    requires IsDouble(fl) && InRange(d)
    ensures RoundsTo(d, fl(d))
  {
  }
}
