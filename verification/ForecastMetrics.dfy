/** Scoring forecasts against the three-hourly Kp series: the pairing of a target time with
    an observation, and the figures published for each horizon. */
module ForecastMetrics {
  import opened Collections
  import opened Doubles
  import opened Prelude
  import ForecastStore

  const WINDOW_SECS: int := 5400
  const STORM_E2: int := 500
  const MIN_PAIRS: nat := 30
  const HORIZONS: seq<int> := ForecastStore.HORIZONS

  datatype Observation = Observation(time: int, kpE2: int)
  datatype Forecast = Forecast(horizon: int, ts: int, kpE2: int, modelSha: Option<string>)

  // ---------------------------------------------------------------- pairing

  predicate InWindow(o: Observation, ts: int) {
    AbsInt(o.time - ts) < WINDOW_SECS
  }

  /** An answer the database may give to "the observation closest to `ts` in the window";
      equally close observations leave it free to choose. */
  predicate IsPaired(obs: set<Observation>, ts: int, actual: Option<int>) {
    match actual
    case None => forall o | o in obs :: !InWindow(o, ts)
    case Some(v) =>
      exists o | o in obs :: InWindow(o, ts) && o.kpE2 == v
        && forall p | p in obs && InWindow(p, ts) :: AbsInt(o.time - ts) <= AbsInt(p.time - ts)
  }

  /** No observation lies strictly between `time` and its mirror image in `ts`. */
  predicate NoneNearer(obs: set<Observation>, ts: int, time: int) {
    forall p | p in obs :: !(time < p.time < 2 * ts - time) && !(2 * ts - time < p.time < time)
  }

  /** Whether a target has an observation, and which value it takes: that of one less than
      ninety minutes away, either side, with none nearer. */
  lemma PairedExactlyWhen(obs: set<Observation>, ts: int, actual: Option<int>)
    requires IsPaired(obs, ts, actual)
    ensures actual.Some? <==> exists o | o in obs :: ts - 5400 < o.time < ts + 5400
    ensures actual.Some? ==>
        exists o | o in obs :: o.kpE2 == actual.value && ts - 5400 < o.time < ts + 5400 && NoneNearer(obs, ts, o.time)
  {
  }

  /** Observation times at least three hours apart. */
  predicate ThreeHourly(obs: set<Observation>) {
    forall o, p | o in obs && p in obs && o != p :: AbsInt(o.time - p.time) >= 10800
  }

  lemma AtMostOneCandidate(obs: set<Observation>, ts: int, o: Observation, p: Observation)
    requires ThreeHourly(obs) && o in obs && p in obs && InWindow(o, ts) && InWindow(p, ts)
    ensures o == p
  {
  }

  lemma PairingIsDetermined(obs: set<Observation>, ts: int, a: Option<int>, b: Option<int>)
    requires ThreeHourly(obs) && IsPaired(obs, ts, a) && IsPaired(obs, ts, b)
    ensures a == b
  {
  }

  /** The three hours are needed: two observations two hours apart, and a target midway,
      leave the pairing to the database. */
  lemma CloserObservationsLeaveAChoice()
    ensures exists obs, ts, a, b {:trigger IsPaired(obs, ts, a), IsPaired(obs, ts, b)} ::
              IsPaired(obs, ts, a) && IsPaired(obs, ts, b) && a != b
  {
    var early, late := Observation(0, 100), Observation(7200, 600);
    var obs := {early, late};
    assert InWindow(early, 3600) && InWindow(late, 3600);
    assert IsPaired(obs, 3600, Some(100)) && IsPaired(obs, 3600, Some(600));
  }

  // ---------------------------------------------------------------- sums of errors

  function Sum(xs: seq<int>): int {
    if xs == [] then 0 else Sum(xs[..|xs| - 1]) + xs[|xs| - 1]
  }

  function SumOfSquares(xs: seq<int>): int {
    if xs == [] then 0 else SumOfSquares(xs[..|xs| - 1]) + xs[|xs| - 1] * xs[|xs| - 1]
  }

  /** Sum of the squared differences of `y` from each of `xs`. */
  function Deviations(xs: seq<int>, y: int): (d: int)
    ensures d >= 0
    ensures d == 0 <==> forall i | 0 <= i < |xs| :: xs[i] == y
  {
    if xs == [] then 0
    else
      var e := xs[|xs| - 1] - y;
      SquareSign(e);
      Deviations(xs[..|xs| - 1], y) + e * e
  }

  lemma SquareSign(e: int)
    ensures e * e >= 0 && (e * e == 0 <==> e == 0)
  {
  }

  /** Sum of the squared differences over all pairs. */
  function Spread(xs: seq<int>): (d: int)
    ensures d >= 0
  {
    if xs == [] then 0 else Spread(xs[..|xs| - 1]) + Deviations(xs[..|xs| - 1], xs[|xs| - 1])
  }

  lemma {:induction false} DeviationsExpand(xs: seq<int>, y: int)
    ensures Deviations(xs, y) == SumOfSquares(xs) - 2 * y * Sum(xs) + |xs| * y * y
  {
    if xs != [] {
      var init, x := xs[..|xs| - 1], xs[|xs| - 1];
      DeviationsExpand(init, y);
      SquareOfDifference(x, y, Sum(init), |init|);
    }
  }

  lemma SquareOfDifference(x: int, y: int, s: int, n: nat)
    ensures (x - y) * (x - y) == x * x - 2 * y * x + y * y
    ensures 2 * y * (s + x) == 2 * y * s + 2 * y * x
    ensures (n + 1) * y * y == n * y * y + y * y
  {
  }

  /** Lagrange's identity: what separates n times the squares from the square of the sum is
      exactly the spread of the values. */
  lemma {:induction false} Lagrange(xs: seq<int>)
    ensures |xs| * SumOfSquares(xs) == Sum(xs) * Sum(xs) + Spread(xs)
  {
    if xs != [] {
      var init, x := xs[..|xs| - 1], xs[|xs| - 1];
      var s, q, n := Sum(init), SumOfSquares(init), |init|;
      Lagrange(init);
      DeviationsExpand(init, x);
      LagrangeStep(s, q, n, x);
    }
  }

  lemma LagrangeStep(s: int, q: int, n: nat, x: int)
    ensures (n + 1) * (q + x * x) == n * q + q + n * x * x + x * x
    ensures (s + x) * (s + x) == s * s + 2 * x * s + x * x
  {
  }

  lemma {:induction false} NoSpread(xs: seq<int>)
    ensures Spread(xs) == 0 <==> forall i, j | 0 <= i < j < |xs| :: xs[i] == xs[j]
  {
    if xs != [] { NoSpread(xs[..|xs| - 1]); }
  }

  // ---------------------------------------------------------------- the published figures

  /** A forecast and the observation found for it. */
  datatype Pair = Pair(pred: int, actual: int)

  function Pairs(rows: seq<Forecast>, actuals: seq<Option<int>>, since: int, horizon: int): seq<Pair>
    requires |rows| == |actuals|
  {
    if rows == [] then []
    else
      var n := |rows| - 1;
      Pairs(rows[..n], actuals[..n], since, horizon)
      + if rows[n].horizon == horizon && rows[n].ts > since && rows[n].modelSha.Some? && actuals[n].Some?
        then [Pair(rows[n].kpE2, actuals[n].value)] else []
  }

  function Errors(ps: seq<Pair>): seq<int> {
    seq(|ps|, i requires 0 <= i < |ps| => AbsInt(ps[i].pred - ps[i].actual))
  }

  function Storms(ps: seq<Pair>): nat {
    if ps == [] then 0 else Storms(ps[1..]) + if ps[0].actual >= STORM_E2 then 1 else 0
  }

  function Caught(ps: seq<Pair>): nat {
    if ps == [] then 0 else Caught(ps[1..]) + if ps[0].actual >= STORM_E2 && ps[0].pred >= STORM_E2 then 1 else 0
  }

  function FalseAlarms(ps: seq<Pair>): nat {
    if ps == [] then 0 else FalseAlarms(ps[1..]) + if ps[0].pred >= STORM_E2 && ps[0].actual < STORM_E2 then 1 else 0
  }

  function QuietHits(ps: seq<Pair>): nat {
    if ps == [] then 0 else QuietHits(ps[1..]) + if ps[0].pred < STORM_E2 && ps[0].actual < STORM_E2 then 1 else 0
  }

  datatype Report =
    | Insufficient(horizon: int, samples: nat)
    | Scored(horizon: int, samples: nat, mae: real, meanSquare: real, storms: nat, caught: nat, falsePos: nat,
      hitRate: Option<real>)

  /** The figures for one horizon. The published RMSE is the root of `meanSquare`. */
  function Score(horizon: int, ps: seq<Pair>): Report {
    if |ps| < MIN_PAIRS then Insufficient(horizon, |ps|)
    else
      Scored(horizon, |ps|,
             Sum(Errors(ps)) as real / |ps| as real,
             SumOfSquares(Errors(ps)) as real / |ps| as real,
             Storms(ps), Caught(ps), FalseAlarms(ps),
             if Storms(ps) > 0 then Some(Caught(ps) as real / Storms(ps) as real) else None)
  }

  /** One entry for every published horizon, scored or not, in order. */
  function Metrics(rows: seq<Forecast>, actuals: seq<Option<int>>, since: int): (rs: seq<Report>)
    requires |rows| == |actuals|
    ensures |rs| == |HORIZONS| && forall i | 0 <= i < |HORIZONS| :: rs[i].horizon == HORIZONS[i]
  {
    seq(|HORIZONS|, i requires 0 <= i < |HORIZONS| => Score(HORIZONS[i], Pairs(rows, actuals, since, HORIZONS[i])))
  }

  /** How far off pair i is. */
  lemma ErrorsAreDistances(ps: seq<Pair>, i: nat)
    requires i < |ps|
    ensures |Errors(ps)| == |ps| && Errors(ps)[i] >= 0
    ensures Errors(ps)[i] == ps[i].pred - ps[i].actual || Errors(ps)[i] == ps[i].actual - ps[i].pred
  {
  }

  /** The pairs of a storm of Kp 5 or more, of those the pairs that were forecast as one,
      and the pairs forecast as a storm that did not come. */
  function StormPairs(ps: seq<Pair>): set<int> {
    set i | 0 <= i < |ps| && ps[i].actual >= 500
  }

  function CaughtPairs(ps: seq<Pair>): set<int> {
    set i | 0 <= i < |ps| && ps[i].actual >= 500 && ps[i].pred >= 500
  }

  function FalseAlarmPairs(ps: seq<Pair>): set<int> {
    set i | 0 <= i < |ps| && ps[i].actual < 500 && ps[i].pred >= 500
  }

  function Shifted(at: set<int>): set<int> {
    set i | i in at :: i + 1
  }

  lemma {:induction false} ShiftedSize(at: set<int>)
    ensures |Shifted(at)| == |at|
    decreases |at|
  {
    if at == {} {
      assert Shifted(at) == {};
    } else {
      var i := Pick(at);
      ShiftedSize(at - {i});
      ShiftedOneMore(at, i);
    }
  }

  lemma ShiftedOneMore(at: set<int>, i: int)
    requires i in at
    ensures Shifted(at) == Shifted(at - {i}) + {i + 1} && i + 1 !in Shifted(at - {i})
  {
    forall j | j in at
      ensures j + 1 in Shifted(at - {i}) + {i + 1}
    {
      if j != i { assert j in at - {i}; }
    }
  }

  lemma FirstAndShifted(at: set<int>, first: bool, rest: set<int>)
    requires forall i | i in rest :: i >= 0
    requires at == Shifted(rest) + if first then {0} else {}
    ensures |at| == |rest| + if first then 1 else 0
  {
    ShiftedSize(rest);
    assert 0 !in Shifted(rest);
  }

  lemma {:induction false} StormsAreCounted(ps: seq<Pair>)
    ensures Storms(ps) == |StormPairs(ps)|
  {
    if ps != [] {
      StormsAreCounted(ps[1..]);
      assert forall i | 0 < i < |ps| ::
          ps[1..][i - 1] == ps[i] && (i in StormPairs(ps) ==> i - 1 in StormPairs(ps[1..]));
      FirstAndShifted(StormPairs(ps), ps[0].actual >= 500, StormPairs(ps[1..]));
    }
  }

  lemma {:induction false} CaughtAreCounted(ps: seq<Pair>)
    ensures Caught(ps) == |CaughtPairs(ps)|
  {
    if ps != [] {
      CaughtAreCounted(ps[1..]);
      assert forall i | 0 < i < |ps| ::
          ps[1..][i - 1] == ps[i] && (i in CaughtPairs(ps) ==> i - 1 in CaughtPairs(ps[1..]));
      FirstAndShifted(CaughtPairs(ps), ps[0].actual >= 500 && ps[0].pred >= 500, CaughtPairs(ps[1..]));
    }
  }

  lemma {:induction false} FalseAlarmsAreCounted(ps: seq<Pair>)
    ensures FalseAlarms(ps) == |FalseAlarmPairs(ps)|
  {
    if ps != [] {
      FalseAlarmsAreCounted(ps[1..]);
      assert forall i | 0 < i < |ps| ::
          ps[1..][i - 1] == ps[i] && (i in FalseAlarmPairs(ps) ==> i - 1 in FalseAlarmPairs(ps[1..]));
      FirstAndShifted(FalseAlarmPairs(ps), ps[0].actual < 500 && ps[0].pred >= 500, FalseAlarmPairs(ps[1..]));
    }
  }

  /** What is published of a horizon, in terms of its pairs: nothing of fewer than thirty,
      else the mean distance, the mean squared distance, the three counts, and the share of
      the storms that was forecast. */
  lemma FiguresAreOfThePairs(horizon: int, ps: seq<Pair>)
    ensures Score(horizon, ps).horizon == horizon && Score(horizon, ps).samples == |ps|
    ensures Score(horizon, ps).Insufficient? <==> |ps| < 30
    ensures Score(horizon, ps).Scored? ==>
        var r, n := Score(horizon, ps), |ps| as real;
        && r.mae * n == Sum(Errors(ps)) as real && r.meanSquare * n == SumOfSquares(Errors(ps)) as real
        && r.storms == |StormPairs(ps)| && r.caught == |CaughtPairs(ps)| && r.falsePos == |FalseAlarmPairs(ps)|
        && (r.hitRate.None? <==> StormPairs(ps) == {})
        && (r.hitRate.Some? ==> r.hitRate.value * |StormPairs(ps)| as real == |CaughtPairs(ps)| as real)
  {
    hide Sum, SumOfSquares, Storms, Caught, FalseAlarms, StormPairs, CaughtPairs, FalseAlarmPairs;
    StormsAreCounted(ps);
    CaughtAreCounted(ps);
    FalseAlarmsAreCounted(ps);
  }

  /** Sums are of every member once, whatever the order the database adds them in. */
  lemma {:induction false} SumsAppend(xs: seq<int>, ys: seq<int>)
    ensures Sum(xs + ys) == Sum(xs) + Sum(ys) && SumOfSquares(xs + ys) == SumOfSquares(xs) + SumOfSquares(ys)
    ensures forall x :: Sum([x]) == x && SumOfSquares([x]) == x * x
    decreases |ys|
  {
    if ys == [] {
      assert xs + ys == xs;
    } else {
      assert (xs + ys)[..|xs + ys| - 1] == xs + ys[..|ys| - 1];
      SumsAppend(xs, ys[..|ys| - 1]);
    }
    assert forall x: int :: [x][..0] == [];
  }

  /** The four outcomes partition the pairs. */
  lemma {:induction false} OutcomesPartition(ps: seq<Pair>)
    ensures Caught(ps) <= Storms(ps)
    ensures Storms(ps) + FalseAlarms(ps) + QuietHits(ps) == |ps|
  {
    if ps != [] { OutcomesPartition(ps[1..]); }
  }

  /** For every horizon and any root `rmse` of the published mean square: the mean absolute
      error never exceeds it, and equals it exactly when every error has the same size. */
  lemma MaeAtMostRmse(horizon: int, ps: seq<Pair>, rmse: real)
    requires Score(horizon, ps).Scored? && rmse >= 0.0 && rmse * rmse == Score(horizon, ps).meanSquare
    ensures 0.0 <= Score(horizon, ps).mae <= rmse
    ensures Score(horizon, ps).mae == rmse <==> forall i, j | 0 <= i < j < |ps| :: Errors(ps)[i] == Errors(ps)[j]
  {
    hide Sum, SumOfSquares, Spread;
    var es := Errors(ps);
    RealLagrange(es);
    NoSpread(es);
    SumOfNonNegatives(es);
    MeanAndRoot(|ps| as real, Sum(es) as real, SumOfSquares(es) as real, Spread(es) as real, Score(horizon, ps).mae,
      rmse);
  }

  lemma {:induction false} RealLagrange(xs: seq<int>)
    ensures |xs| as real * SumOfSquares(xs) as real == Sum(xs) as real * Sum(xs) as real + Spread(xs) as real
  {
    hide Sum, SumOfSquares, Spread;
    Lagrange(xs);
    CastProduct(|xs|, SumOfSquares(xs));
    CastProduct(Sum(xs), Sum(xs));
  }

  lemma {:induction false} SumOfNonNegatives(xs: seq<int>)
    requires forall i | 0 <= i < |xs| :: xs[i] >= 0
    ensures Sum(xs) >= 0
  {
    if xs != [] { SumOfNonNegatives(xs[..|xs| - 1]); }
  }

  lemma MeanAndRoot(n: real, s: real, q: real, d: real, mae: real, rmse: real)
    requires n > 0.0 && s >= 0.0 && d >= 0.0 && rmse >= 0.0
    requires n * q == s * s + d && mae == s / n && rmse * rmse == q / n
    ensures 0.0 <= mae <= rmse && (mae == rmse <==> d == 0.0)
  {
    assert mae * n == s && rmse * rmse * n == q;
    var a, r := mae * n, rmse * n;
    assert r * r == n * (rmse * rmse * n) == n * q;
    assert r * r - a * a == d;
    assert r >= 0.0 && a >= 0.0;
    SquaresOrder(r, a);
    SquaresOrder(a, r);
    ScaleOrder(mae, rmse, n);
    ScaleOrder(rmse, mae, n);
  }

  lemma SquaresOrder(x: real, y: real)
    requires x >= 0.0 && y >= 0.0
    ensures x * x < y * y <==> x < y
  {
    assert y * y - x * x == (y - x) * (y + x);
    if x < y { ProductSign(y - x, y + x); }
    if y < x { ProductSign(x - y, y + x); }
  }

  lemma ProductSign(a: real, b: real)
    requires a > 0.0 && b > 0.0
    ensures a * b > 0.0
  {
  }

  lemma CastProduct(a: int, b: int)
    ensures (a * b) as real == a as real * b as real
  {
  }

  lemma ScaleOrder(x: real, y: real, n: real)
    requires n > 0.0
    ensures x < y <==> x * n < y * n
  {
  }

  lemma CountsAreConsistent(horizon: int, ps: seq<Pair>)
    requires Score(horizon, ps).Scored?
    ensures var r := Score(horizon, ps);
            && r.samples >= MIN_PAIRS && r.caught <= r.storms && r.storms + r.falsePos <= r.samples
            && (r.hitRate.Some? <==> r.storms > 0) && (r.hitRate.Some? ==> 0.0 <= r.hitRate.value <= 1.0)
  {
    OutcomesPartition(ps);
    if Storms(ps) > 0 {
      RateIsAProportion(Caught(ps), Storms(ps));
    }
  }

  lemma RateIsAProportion(c: nat, s: nat)
    requires c <= s && s > 0
    ensures 0.0 <= c as real / s as real <= 1.0
  {
  }

  ghost predicate AllPaired(obs: set<Observation>, rows: seq<Forecast>, actuals: seq<Option<int>>) {
    |rows| == |actuals| && forall i | 0 <= i < |rows| :: IsPaired(obs, rows[i].ts, actuals[i])
  }

  /** Over a three-hourly series every figure is a function of the tables alone. */
  lemma MetricsAreDetermined(obs: set<Observation>, rows: seq<Forecast>, a: seq<Option<int>>, b: seq<Option<int>>,
      since: int)
    requires ThreeHourly(obs) && AllPaired(obs, rows, a) && AllPaired(obs, rows, b)
    ensures Metrics(rows, a, since) == Metrics(rows, b, since)
  {
    forall i | 0 <= i < |rows|
      ensures a[i] == b[i]
    {
      PairingIsDetermined(obs, rows[i].ts, a[i], b[i]);
    }
    assert a == b;
  }

  /** What is scored: exactly the paired forecasts of the horizon that target a time after
      `since` and name the model that made them. */
  lemma {:induction false} ScoredPairs(rows: seq<Forecast>, actuals: seq<Option<int>>, since: int, horizon: int,
      p: Pair)
    requires |rows| == |actuals|
    ensures p in Pairs(rows, actuals, since, horizon) <==>
            exists i | 0 <= i < |rows| :: rows[i].horizon == horizon && rows[i].ts > since && rows[i].modelSha.Some?
              && rows[i].kpE2 == p.pred && actuals[i] == Some(p.actual)
  {
    if rows != [] {
      var n := |rows| - 1;
      ScoredPairs(rows[..n], actuals[..n], since, horizon, p);
      assert forall i | 0 <= i < n :: rows[..n][i] == rows[i] && actuals[..n][i] == actuals[i];
    }
  }

  /** The forecasts that are scored under a horizon. */
  function ScoredRows(rows: seq<Forecast>, actuals: seq<Option<int>>, since: int, horizon: int): set<int>
    requires |rows| == |actuals|
  {
    set i | 0 <= i < |rows| && rows[i].horizon == horizon && rows[i].ts > since && rows[i].modelSha != None
      && actuals[i] != None
  }

  /** And each of them once. */
  lemma {:induction false} EachIsScoredOnce(rows: seq<Forecast>, actuals: seq<Option<int>>, since: int, horizon: int)
    requires |rows| == |actuals|
    ensures |Pairs(rows, actuals, since, horizon)| == |ScoredRows(rows, actuals, since, horizon)|
  {
    if rows != [] {
      var n := |rows| - 1;
      EachIsScoredOnce(rows[..n], actuals[..n], since, horizon);
      var before := ScoredRows(rows[..n], actuals[..n], since, horizon);
      assert forall i | 0 <= i < n :: rows[..n][i] == rows[i] && actuals[..n][i] == actuals[i];
      assert ScoredRows(rows, actuals, since, horizon) - {n} == before;
    }
  }
}
