/** Custom-rule thresholds: a decimal the caller supplies becomes the integer the metric is
    stored in, through binary floating point. Every operation is a real operation followed
    by a rounding `fl`; the proofs hold for any rounding with IEEE 754 double precision's
    error bound. */
module Thresholds {
  import opened Doubles
  import opened Prelude

  // ---------------------------------------------------------------- the code

  datatype Metric = Metric(scale: real, step: string)

  function MetricScale(metric: string): (m: Option<Metric>)
    ensures m.Some? ==> 1.0 <= m.value.scale <= 1000000000000.0
  {
    match metric
    case "kp" => Some(Metric(100.0, "0.01"))
    case "solar_wind_speed" => Some(Metric(10.0, "0.1 km/s"))
    case "xray_flux" => Some(Metric(1000000000000.0, "0.000000000001 W/m2"))
    case "dst" => Some(Metric(1.0, "1 nT"))
    case "imf_bz" => Some(Metric(100.0, "0.01 nT"))
    case _ => None
  }

  datatype ThresholdError = UnknownMetric | ValueNotFinite | OutOfRange | TooPrecise(step: string)

  function Tolerance(fl: Rounding, nearest: int): F64 {
    Min(Plus(fl, fl(0.000001), Times(fl, Finite(AbsInt(nearest) as real), fl(0.000000000001))), fl(0.001))
  }

  /** The second half of the conversion: accept a scaled value that is an integer up to
      representation error, and refuse anything carrying more precision. */
  function Settle(fl: Rounding, step: string, scaled: real): Result<int, ThresholdError> {
    var nearest := Round(scaled);
    var tolerance := Tolerance(fl, nearest);
    var off := fl(scaled - nearest as real);
    if off.Finite? && tolerance.Finite? && Abs(off.r) > tolerance.r then Err(TooPrecise(step)) else Ok(nearest)
  }

  function ScaleThreshold(fl: Rounding, metric: string, value: F64): Result<int, ThresholdError> {
    match MetricScale(metric)
    case None => Err(UnknownMetric)
    case Some(m) =>
      if value.NotFinite? then Err(ValueNotFinite)
      else
        var scaled := fl(Product(value.r, m.scale));
        if scaled.NotFinite? || Abs(scaled.r) >= 9000000000000000000.0 then Err(OutOfRange)
        else Settle(fl, m.step, scaled.r)
  }

  function UnscaleThreshold(fl: Rounding, metric: string, scaled: int): F64 {
    match MetricScale(metric)
    case Some(m) => Over(fl, fl(scaled as real), m.scale)
    case None => fl(scaled as real)
  }

  datatype Operator = Gt | Lt | Gte | Lte | Unknown

  /** The rule's test, on the stored integers. */
  function Triggered(op: Operator, reading: int, threshold: int): bool {
    match op
    case Gt => reading > threshold
    case Lt => reading < threshold
    case Gte => reading >= threshold
    case Lte => reading <= threshold
    case Unknown => false
  }

  // ---------------------------------------------------------------- error bounds

  lemma ToleranceBounds(fl: Rounding, n: int)
    requires IsDouble(fl) && AbsInt(n) <= 9000000000000000000
    ensures var t := Tolerance(fl, n); t.Finite? && 0.0 < t.r <= 0.0010001
    ensures AbsInt(n) <= 4000000000000 ==>
        Tolerance(fl, n).r > 0.0000009 && Tolerance(fl, n).r >= 0.000000000000000224 * AbsInt(n) as real
  {
    hide Product;
    var a := AbsInt(n) as real;
    var c, base, cap := fl(0.000000000001), fl(0.000001), fl(0.001);
    SmallDifference(fl, 0.000000000001);
    SmallDifference(fl, 0.000001);
    SmallDifference(fl, 0.001);
    ProductBounds(a, c.r);
    ToleranceSum(fl, a, Product(a, c.r), base.r);
  }

  lemma ToleranceSum(fl: Rounding, a: real, x: real, base: real)
    requires IsDouble(fl) && RoundsTo(0.000001, Finite(base))
    requires 0.0 <= a <= 9000000000000000000.0 && 0.0000000000009 * a <= x <= 0.0000000000011 * a
    ensures fl(x).Finite? && fl(base + fl(x).r).Finite?
    ensures fl(base + fl(x).r).r >= 0.0000009 + 0.0000000000008 * a
  {
  }

  lemma ProductBounds(a: real, c: real)
    requires a >= 0.0 && 0.0000000000009 <= c <= 0.0000000000011
    ensures 0.0000000000009 * a <= Product(a, c) <= 0.0000000000011 * a
  {
  }

  lemma SettlesOnNearest(fl: Rounding, step: string, p: real)
    ensures Settle(fl, step, p) in {Ok(Round(p)), Err(TooPrecise(step))}
  {
  }

  /** Within representation error of an integer: accepted as that integer. */
  lemma {:induction false} NearIntegerSettles(fl: Rounding, step: string, p: real, n: int)
    requires IsDouble(fl) && AbsInt(n) <= 4000000000000
    requires Abs(p - n as real) <= 0.00000000000000022315 * AbsInt(n) as real + 0.00000000000000001
    ensures Settle(fl, step, p) == Ok(n)
  {
    hide Round, Tolerance, IsDouble;
    RoundIsNearest(p, n);
    ToleranceBounds(fl, n);
    assert InRange(p - n as real);
    SmallDifference(fl, p - n as real);
  }

  /** A hundredth away from every integer: refused. */
  lemma FarFromIntegersIsRefused(fl: Rounding, step: string, p: real)
    requires IsDouble(fl) && Abs(p) <= 9000000000000000.0 && Abs(p - Round(p) as real) >= 0.01
    ensures Settle(fl, step, p) == Err(TooPrecise(step))
  {
  }

  // ---------------------------------------------------------------- what it guarantees

  /** The exact value of a decimal in the metric's stored units. */
  function InStoredUnits(metric: string, v: real): real
    requires MetricScale(metric).Some?
  {
    Product(v, MetricScale(metric).value.scale)
  }

  /** The metrics, and the stored unit of each: five of what the caller writes is this many
      units. Any other name has no unit and no threshold at all. */
  lemma UnitsOfEachMetric(fl: Rounding)
    requires IsDouble(fl)
    ensures ScaleThreshold(fl, "kp", Finite(5.0)) == Ok(500)
    ensures ScaleThreshold(fl, "solar_wind_speed", Finite(5.0)) == Ok(50)
    ensures ScaleThreshold(fl, "xray_flux", Finite(0.5)) == Ok(500000000000)
    ensures ScaleThreshold(fl, "dst", Finite(5.0)) == Ok(5)
    ensures ScaleThreshold(fl, "imf_bz", Finite(-5.0)) == Ok(-500)
  {
    hide Settle, IsDouble, Round;
    WholeUnits(fl, "kp", 5.0, 500);
    WholeUnits(fl, "solar_wind_speed", 5.0, 50);
    WholeUnits(fl, "xray_flux", 0.5, 500000000000);
    WholeUnits(fl, "dst", 5.0, 5);
    WholeUnits(fl, "imf_bz", -5.0, -500);
  }

  lemma WholeUnits(fl: Rounding, metric: string, v: real, k: int)
    requires IsDouble(fl) && MetricScale(metric).Some? && InStoredUnits(metric, v) == k as real
        && AbsInt(k) <= 4000000000000
    ensures ScaleThreshold(fl, metric, Finite(v)) == Ok(k)
  {
    hide Settle, MetricScale, Round, Product;
    assert fl(k as real) == Finite(k as real);
    NearIntegerSettles(fl, MetricScale(metric).value.step, k as real, k);
  }

  const METRICS: set<string> := {"kp", "solar_wind_speed", "xray_flux", "dst", "imf_bz"}

  /** Which error a threshold gets: an unknown metric first, then a value that is no number,
      then one of nine times ten to the eighteenth units or more, to the error of one
      rounding; only what passes these can be too precise, and then the metric's own step is named. */
  lemma {:induction false} RefusedExactlyWhen(fl: Rounding, metric: string, value: F64)
    requires IsDouble(fl)
    ensures var r := ScaleThreshold(fl, metric, value);
            && (r == Err(UnknownMetric) <==> metric !in METRICS)
            && (r == Err(ValueNotFinite) <==> metric in METRICS && value.NotFinite?)
            && (metric in METRICS && value.Finite? && InRange(InStoredUnits(metric, value.r)) ==>
                 && (Abs(InStoredUnits(metric, value.r)) >= 9000000000000002000.0 ==> r == Err(OutOfRange))
                 && (Abs(InStoredUnits(metric, value.r)) <= 8999999999999998000.0 ==> r != Err(OutOfRange)))
  {
    hide Settle, Product, IsDouble, Round;
    if metric in METRICS && value.Finite? {
      var x := InStoredUnits(metric, value.r);
      if fl(x).Finite? { SettlesOnNearest(fl, MetricScale(metric).value.step, fl(x).r); }
      if InRange(x) { SmallDifference(fl, x); }
    }
  }

  /** A stored threshold survives being shown and sent back. */
  lemma {:induction false} RoundTrip(fl: Rounding, metric: string, n: int)
    requires IsDouble(fl) && MetricScale(metric).Some? && AbsInt(n) <= 4000000000000
    ensures ScaleThreshold(fl, metric, UnscaleThreshold(fl, metric, n)) == Ok(n)
  {
    hide Settle, MetricScale, IsDouble, Round, Product;
    var m := MetricScale(metric).value;
    var q := n as real / m.scale;
    QuotientRounding(fl, n, m.scale);
    TwoRoundingsUp(fl, q, fl(q), m.scale);
    NearIntegerSettles(fl, m.step, fl(Product(fl(q).r, m.scale)).r, n);
  }

  /** A decimal on the metric's grid is stored as exactly the integer it denotes, and each
      operator then decides as it would on the exact values. */
  lemma {:induction false} GridDecimalsAreExact(fl: Rounding, metric: string, v: real, k: int, reading: int,
      op: Operator)
    requires IsDouble(fl) && MetricScale(metric).Some? && InStoredUnits(metric, v) == k as real
        && AbsInt(k) <= 4000000000000
    ensures ScaleThreshold(fl, metric, fl(v)) == Ok(k)
    ensures var exact := reading as real / MetricScale(metric).value.scale;
            Triggered(op, reading, k) <==>
              (op == Gt && exact > v) || (op == Lt && exact < v)
              || (op == Gte && exact >= v) || (op == Lte && exact <= v)
  {
    hide Settle, MetricScale, IsDouble, Round, Product;
    var m := MetricScale(metric).value;
    SmallerBeforeScaling(v, m.scale);
    SmallDifference(fl, v);
    TwoRoundingsUp(fl, v, fl(v), m.scale);
    NearIntegerSettles(fl, m.step, fl(Product(fl(v).r, m.scale)).r, k);
    ExactOrder(reading, k, m.scale, v);
  }

  lemma ExactOrder(reading: int, k: int, s: real, v: real)
    requires s >= 1.0 && Product(v, s) == k as real
    ensures reading > k <==> reading as real / s > v
    ensures reading < k <==> reading as real / s < v
  {
  }

  /** A decimal a tenth of a stored unit or more off the grid is refused, never rounded. */
  lemma {:induction false} ExtraPrecisionIsRefused(fl: Rounding, metric: string, v: real)
    requires IsDouble(fl) && MetricScale(metric).Some?
    requires Abs(InStoredUnits(metric, v)) <= 400000000000000.0
    requires Abs(InStoredUnits(metric, v) - Round(InStoredUnits(metric, v)) as real) >= 0.1
    ensures ScaleThreshold(fl, metric, fl(v)) == Err(TooPrecise(MetricScale(metric).value.step))
  {
    hide Settle, MetricScale, IsDouble, Round, Product;
    var m := MetricScale(metric).value;
    var x := Product(v, m.scale);
    SmallerBeforeScaling(v, m.scale);
    SmallDifference(fl, v);
    TwoRoundingsUp(fl, v, fl(v), m.scale);
    var p := fl(Product(fl(v).r, m.scale)).r;
    RoundIsNearest(x, Round(p));
    FarFromIntegersIsRefused(fl, m.step, p);
  }

  /** Whatever is accepted is the nearest grid point, less than a tenth of a unit away. */
  lemma {:induction false} AcceptedThresholdsDoNotMove(fl: Rounding, metric: string, v: real, n: int)
    requires IsDouble(fl) && MetricScale(metric).Some? && Abs(InStoredUnits(metric, v)) <= 400000000000000.0
    requires ScaleThreshold(fl, metric, fl(v)) == Ok(n)
    ensures n == Round(InStoredUnits(metric, v))
    ensures Abs(InStoredUnits(metric, v) - n as real) < 0.1
  {
    hide Settle, MetricScale, IsDouble, Round, Product;
    var m := MetricScale(metric).value;
    var x := Product(v, m.scale);
    if Abs(x - Round(x) as real) >= 0.1 { ExtraPrecisionIsRefused(fl, metric, v); }
    SmallerBeforeScaling(v, m.scale);
    SmallDifference(fl, v);
    TwoRoundingsUp(fl, v, fl(v), m.scale);
    var p := fl(Product(fl(v).r, m.scale)).r;
    SettlesOnNearest(fl, m.step, p);
    RoundIsNearest(p, Round(x));
  }
}
