/** The index arithmetic of the forecast model: what each head is trained on, how the data
    is cut into walk-forward folds, and how the service turns an output back into Kp.
    Arithmetic is over the reals. */
module ForecastTargets {
  import opened Prelude
  import ForecastStore

  const SEQ_LEN: nat := 16
  const KP_MAX: real := 9.0
  const CI_Z: real := 1.96
  const HEADS: nat := 4
  const MAX_HORIZON: nat := 8
  const N_FOLDS: nat := 4
  const FOLD_PERIODS: nat := 1460
  const PROBE: nat := 100

  /** Periods ahead of the newest observation, head by head. */
  function Periods(head: nat): (p: nat)
    requires head < HEADS
    ensures 1 <= p <= MAX_HORIZON
  {
    if head == 0 then 1 else if head == 1 then 2 else if head == 2 then 4 else 8
  }

  /** The first two heads predict the change from the newest observation. */
  predicate IsResidual(head: nat) {
    head < 2
  }

  // ---------------------------------------------------------------- target construction

  /** numpy.roll: every element moves `shift` places to the right and wraps. */
  function Roll(s: seq<real>, shift: int): seq<real> {
    seq(|s|, i requires 0 <= i < |s| => s[(i - shift) % |s|])
  }

  /** Column `head` of the target matrix. */
  function TargetColumn(kpNorm: seq<real>, head: nat): seq<real>
    requires head < HEADS
  {
    var ahead, base := Roll(kpNorm, -(Periods(head) - 1)), Roll(kpNorm, 1);
    seq(|kpNorm|, i requires 0 <= i < |kpNorm| => if IsResidual(head) then ahead[i] - base[i] else ahead[i])
  }

  type TargetRow = seq<real>

  function Targets(kpNorm: seq<real>): seq<TargetRow> {
    seq(|kpNorm|, i requires 0 <= i < |kpNorm| => seq(HEADS, h requires 0 <= h < HEADS => TargetColumn(kpNorm, h)[i]))
  }

  /** What a head must learn from a window whose newest observation is row `newest`. */
  function Wanted(kpNorm: seq<real>, newest: nat, head: nat): real
    requires head < HEADS && newest + Periods(head) < |kpNorm|
  {
    kpNorm[newest + Periods(head)] - if IsResidual(head) then kpNorm[newest] else 0.0
  }

  /** Row t of the targets is what a window ending at row t - 1 must learn, as long as the
      furthest row it reaches exists. */
  lemma {:induction false} TargetIsWanted(kpNorm: seq<real>, t: nat, head: nat)
    requires head < HEADS && 1 <= t && t - 1 + Periods(head) < |kpNorm|
    ensures t < |kpNorm| && Targets(kpNorm)[t][head] == Wanted(kpNorm, t - 1, head)
  {
    var p := Periods(head);
    InRangeMod(t + (p - 1), |kpNorm|);
    InRangeMod(t - 1, |kpNorm|);
  }

  lemma InRangeMod(i: int, n: int)
    requires 0 <= i < n
    ensures i % n == i
  {
  }

  /** The label the comment of AUD-032 tells of: rolling by the whole lead trains every head
      one period beyond its name. */
  lemma {:induction false} RollingByTheWholeLeadIsOneLate(kpNorm: seq<real>, t: nat, head: nat)
    requires head < HEADS && t + Periods(head) < |kpNorm|
    ensures Roll(kpNorm, -(Periods(head) as int))[t] == kpNorm[t + Periods(head)]
  {
    InRangeMod(t + Periods(head), |kpNorm|);
  }

  // ---------------------------------------------------------------- windows

  /** s[:-MAX_HORIZON], which is empty for a short series. */
  function DropTrailing<V>(s: seq<V>): seq<V> {
    if |s| < MAX_HORIZON then [] else s[..|s| - MAX_HORIZON]
  }

  datatype Samples<V> = Samples(x: seq<seq<V>>, y: seq<TargetRow>)

  /** Windows of SEQ_LEN rows, each with the target row that follows it; None where there is
      no window to stack. */
  function MakeSequences<V>(values: seq<V>, targets: seq<TargetRow>): (r: Option<Samples<V>>)
    requires |values| == |targets|
    ensures r.Some? <==> |values| > SEQ_LEN
    ensures r.Some? ==> |r.value.x| == |r.value.y| == |values| - SEQ_LEN
    ensures r.Some? ==> forall i | 0 <= i < |r.value.x| ::
        r.value.x[i] == values[i..i + SEQ_LEN] && r.value.y[i] == targets[i + SEQ_LEN]
  {
    if |values| <= SEQ_LEN then None
    else
      var n := |values| - SEQ_LEN;
      Some(Samples(seq(n, i requires 0 <= i < n => values[i..i + SEQ_LEN]), targets[SEQ_LEN..]))
  }

  /** For every length of series: each window is a run of SEQ_LEN rows, every head is trained
      on its own lead from the newest of them, and no index has wrapped. */
  lemma {:induction false} EveryWindowIsAligned<V>(values: seq<V>, kpNorm: seq<real>, i: nat, head: nat)
    requires |values| == |kpNorm| && head < HEADS
    requires MakeSequences(DropTrailing(values), DropTrailing(Targets(kpNorm))).Some?
    requires i < |MakeSequences(DropTrailing(values), DropTrailing(Targets(kpNorm))).value.x|
    ensures var s := MakeSequences(DropTrailing(values), DropTrailing(Targets(kpNorm))).value;
        var newest := i + SEQ_LEN - 1;
            && newest + Periods(head) < |kpNorm|
            && s.x[i] == values[i..newest + 1]
            && s.y[i][head] == Wanted(kpNorm, newest, head)
  {
    TargetIsWanted(kpNorm, i + SEQ_LEN, head);
    assert DropTrailing(values)[i..i + SEQ_LEN] == values[i..i + SEQ_LEN];
  }

  /** The same in hours: the head that is published under 3, 6, 12 or 24 hours learns the Kp
      that came as many hours after the sixteenth row of its window, at three hours a row,
      and the heads of 3 and 6 hours learn its change from that row. */
  lemma {:induction false} EveryHeadLearnsItsHorizon<V>(values: seq<V>, kpNorm: seq<real>, i: nat, head: nat,
      lead: nat)
    requires |values| == |kpNorm| && head < |ForecastStore.HORIZONS| && ForecastStore.HORIZONS[head] == 3 * lead
    requires MakeSequences(DropTrailing(values), DropTrailing(Targets(kpNorm))).Some?
    requires i < |MakeSequences(DropTrailing(values), DropTrailing(Targets(kpNorm))).value.x|
    ensures var s := MakeSequences(DropTrailing(values), DropTrailing(Targets(kpNorm))).value;
        && i + 15 + lead < |kpNorm|
        && s.x[i] == values[i..i + 16] && |s.y[i]| == |ForecastStore.HORIZONS|
        && s.y[i][head] == kpNorm[i + 15 + lead]
          - if ForecastStore.HORIZONS[head] in {3, 6} then kpNorm[i + 15] else 0.0
  {
    EveryWindowIsAligned(values, kpNorm, i, head);
  }

  // ---------------------------------------------------------------- walk-forward folds

  datatype Fold<V> = Fold(start: nat, end: nat, train: Samples<V>, test: Samples<V>)
  datatype TrainError = ProbeOutOfRange | NotEnoughData

  /** The data of every fold, or why training stops before the first. The early-stopping set
      is cut out of `train`, so it is part of it here. */
  method WalkForward<V>(allValues: seq<V>, kpNorm: seq<real>) returns (r: Result<seq<Fold<V>>, TrainError>)
    requires |allValues| == |kpNorm|
    ensures r == Err(ProbeOutOfRange) <==> |kpNorm| <= 123
    ensures r == Err(NotEnoughData) <==> 123 < |kpNorm| <= 5864
    ensures r.Ok? ==> |r.value| == N_FOLDS && forall f | 0 <= f < N_FOLDS :: IsFold(allValues, kpNorm, f, r.value[f])
  {
    hide IsFold;
    var targets := Targets(kpNorm);
    var last := PROBE + SEQ_LEN - 1;
    if |kpNorm| <= last + MAX_HORIZON {
      return Err(ProbeOutOfRange);
    }
    for k := 0 to HEADS {
      TargetIsWanted(kpNorm, PROBE + SEQ_LEN, k);
      assert targets[PROBE + SEQ_LEN][k] == kpNorm[last + Periods(k)] - if IsResidual(k) then kpNorm[last] else 0.0;
    }
    var values := DropTrailing(allValues);
    targets := DropTrailing(targets);
    var valStart := |values| - N_FOLDS * FOLD_PERIODS;
    if valStart <= SEQ_LEN {
      return Err(NotEnoughData);
    }
    var folds: seq<Fold<V>> := [];
    for f := 0 to N_FOLDS
      invariant |folds| == f
      invariant forall g | 0 <= g < f :: IsFold(allValues, kpNorm, g, folds[g])
    {
      var start := valStart + f * FOLD_PERIODS;
      var end := start + FOLD_PERIODS;
      var train := MakeSequences(values[..start], targets[..start]);
      var test := MakeSequences(values[start..end], targets[start..end]);
      FoldIsRight(allValues, kpNorm, f, start, end);
      folds := folds + [Fold(start, end, train.value, test.value)];
    }
    return Ok(folds);
  }

  /** Windows that end just before rows `first`, `first` + 1, ... of the series. */
  ghost predicate AreWindowsFrom<V>(values: seq<V>, first: nat, n: nat, x: seq<seq<V>>)
    requires SEQ_LEN <= first && first + n <= |values|
  {
    |x| == n && forall i | 0 <= i < n :: x[i] == values[first + i - SEQ_LEN..first + i]
  }

  /** Target rows `first`, `first` + 1, ..., every head on its own lead. */
  ghost predicate AreTargetsFrom(kpNorm: seq<real>, first: nat, n: nat, y: seq<TargetRow>)
    requires 1 <= first && first + n + MAX_HORIZON <= |kpNorm|
  {
    |y| == n && forall i, h | 0 <= i < n && 0 <= h < HEADS ::
        |y[i]| == HEADS && y[i][h] == Wanted(kpNorm, first + i - 1, h)
  }

  /** Samples whose target rows are `first`, `first` + 1, ... of the series, each with its
      own window and its own leads. */
  ghost predicate AreSamplesFrom<V>(values: seq<V>, kpNorm: seq<real>, first: nat, n: nat, s: Samples<V>) {
    && SEQ_LEN <= first && first + n + MAX_HORIZON <= |kpNorm| && |values| == |kpNorm|
    && AreWindowsFrom(values, first, n, s.x)
    && AreTargetsFrom(kpNorm, first, n, s.y)
  }

  ghost predicate IsFold<V>(values: seq<V>, kpNorm: seq<real>, f: nat, fold: Fold<V>) {
    && |kpNorm| >= MAX_HORIZON + N_FOLDS * FOLD_PERIODS
    && fold.start == |kpNorm| - MAX_HORIZON - N_FOLDS * FOLD_PERIODS + f * FOLD_PERIODS
    && fold.end == fold.start + FOLD_PERIODS
    && fold.start > SEQ_LEN
    && AreSamplesFrom(values, kpNorm, SEQ_LEN, fold.start - SEQ_LEN, fold.train)
    && AreSamplesFrom(values, kpNorm, fold.start + SEQ_LEN, FOLD_PERIODS - SEQ_LEN, fold.test)
  }

  lemma WindowsOfSlice<V>(s: seq<V>, lo: nat, hi: nat, x: seq<seq<V>>)
    requires lo + SEQ_LEN <= hi <= |s| - MAX_HORIZON && |x| == hi - lo - SEQ_LEN
    requires forall i | 0 <= i < |x| :: x[i] == DropTrailing(s)[lo..hi][i..i + SEQ_LEN]
    ensures AreWindowsFrom(s, lo + SEQ_LEN, |x|, x)
  {
  }

  lemma {:induction false} TargetsOfSlice(kpNorm: seq<real>, lo: nat, hi: nat, y: seq<TargetRow>)
    requires lo + SEQ_LEN <= hi <= |kpNorm| - MAX_HORIZON && |y| == hi - lo - SEQ_LEN
    requires forall i | 0 <= i < |y| :: y[i] == DropTrailing(Targets(kpNorm))[lo..hi][i + SEQ_LEN]
    ensures AreTargetsFrom(kpNorm, lo + SEQ_LEN, |y|, y)
  {
    forall i, h | 0 <= i < |y| && 0 <= h < HEADS
      ensures |y[i]| == HEADS && y[i][h] == Wanted(kpNorm, lo + SEQ_LEN + i - 1, h)
    {
      TargetIsWanted(kpNorm, lo + SEQ_LEN + i, h);
    }
  }

  lemma SliceSamples<V>(allValues: seq<V>, kpNorm: seq<real>, lo: nat, hi: nat)
    requires |allValues| == |kpNorm| && lo + SEQ_LEN < hi <= |kpNorm| - MAX_HORIZON
    ensures var s := MakeSequences(DropTrailing(allValues)[lo..hi], DropTrailing(Targets(kpNorm))[lo..hi]);
            s.Some? && AreSamplesFrom(allValues, kpNorm, lo + SEQ_LEN, hi - lo - SEQ_LEN, s.value)
  {
    hide AreWindowsFrom, AreTargetsFrom, MakeSequences;
    var s := MakeSequences(DropTrailing(allValues)[lo..hi], DropTrailing(Targets(kpNorm))[lo..hi]).value;
    WindowsOfSlice(allValues, lo, hi, s.x);
    TargetsOfSlice(kpNorm, lo, hi, s.y);
  }

  lemma {:induction false} FoldIsRight<V>(allValues: seq<V>, kpNorm: seq<real>, f: nat, start: nat, end: nat)
    requires |allValues| == |kpNorm| && f < N_FOLDS
    requires start == |kpNorm| - MAX_HORIZON - N_FOLDS * FOLD_PERIODS + f * FOLD_PERIODS && end == start + FOLD_PERIODS
    requires |kpNorm| > MAX_HORIZON + SEQ_LEN + N_FOLDS * FOLD_PERIODS
    ensures var values, targets := DropTrailing(allValues), DropTrailing(Targets(kpNorm));
            && end <= |values| == |targets|
            && var train, test := MakeSequences(values[..start], targets[..start]),
               MakeSequences(values[start..end], targets[start..end]);
            train.Some? && test.Some? && IsFold(allValues, kpNorm, f, Fold(start, end, train.value, test.value))
  {
    SliceSamples(allValues, kpNorm, 0, start);
    SliceSamples(allValues, kpNorm, start, end);
    hide AreSamplesFrom, MakeSequences;
    var values, targets := DropTrailing(allValues), DropTrailing(Targets(kpNorm));
    assert values[0..start] == values[..start] && targets[0..start] == targets[..start];
  }

  /** The Kp rows a sample's target reads: the lead, and the base of a residual head. */
  function RowsRead(targetRow: nat, head: nat): set<int>
    requires head < HEADS && targetRow >= 1
  {
    {targetRow - 1 + Periods(head)} + if IsResidual(head) then {targetRow - 1} else {}
  }

  /** No Kp value a fold is scored on, nor the base it is scored against, was ever read by a
      training target of that fold. */
  lemma NoScoredValueWasTrainedOn<V>(values: seq<V>, kpNorm: seq<real>, f: nat, fold: Fold<V>, i: nat, a: nat, j: nat,
      b: nat, trained: int, scored: int)
    requires IsFold(values, kpNorm, f, fold) && i < |fold.train.y| && j < |fold.test.y| && a < HEADS && b < HEADS
    requires trained in RowsRead(SEQ_LEN + i, a) && scored in RowsRead(fold.start + SEQ_LEN + j, b)
    ensures trained < scored
  {
  }

  /** The folds tile the validation tail: four of 1460 rows each, up to the last eight. */
  lemma FoldsTileTheTail<V>(values: seq<V>, kpNorm: seq<real>, folds: seq<Fold<V>>)
    requires |folds| == N_FOLDS && forall f | 0 <= f < N_FOLDS :: IsFold(values, kpNorm, f, folds[f])
    ensures |folds| == 4 && folds[3].end == |kpNorm| - 8
    ensures forall f | 0 <= f < 3 :: folds[f].end == folds[f + 1].start
    ensures forall f | 0 <= f < 4 :: folds[f].end == folds[f].start + 1460
  {
  }

  // ---------------------------------------------------------------- serving

  function Clip(x: real): real {
    if x < 0.0 then 0.0 else if x > KP_MAX then KP_MAX else x
  }

  function Sum(xs: seq<real>): real {
    if xs == [] then 0.0 else Sum(xs[..|xs| - 1]) + xs[|xs| - 1]
  }

  function Mean(xs: seq<real>): real
    requires xs != []
  {
    Sum(xs) / |xs| as real
  }

  /** One column of the de-normalised samples, the newest reading added back where the head
      predicts a change. */
  function Decoded(column: seq<real>, residual: bool, newest: real): seq<real> {
    seq(|column|, i requires 0 <= i < |column| => Decode(column[i], residual, newest))
  }

  /** One output of a head, in Kp. */
  function Decode(x: real, residual: bool, newest: real): real {
    x * KP_MAX + if residual then newest else 0.0
  }

  function Column(m: array2<real>, k: nat): seq<real>
    requires k < m.Length1
    reads m
  {
    seq(m.Length0, i requires 0 <= i < m.Length0 reads m => m[i, k])
  }

  /** What a checkpoint says its outputs are: one mode for every head, or one for each. */
  datatype Mode = Residual | Level
  datatype Target = All(mode: Mode) | Each(modes: seq<Mode>)

  /** A checkpoint that says nothing emits levels. */
  function ModeOf(target: Option<Target>, head: nat): Mode {
    match target
    case None => Level
    case Some(All(mode)) => mode
    case Some(Each(modes)) => if head < |modes| then modes[head] else Level
  }

  const CURRENT: Option<Target> := Some(Each([Residual, Residual, Level, Level]))

  /** What training writes into a checkpoint is what it trained. */
  lemma CurrentModesAreTrained(head: nat)
    requires head < HEADS
    ensures ModeOf(CURRENT, head).Residual? <==> IsResidual(head)
  {
  }

  /** The in-place half of predict: scale every sample, then add the newest reading to the
      columns of the residual heads. Naming more heads than there are columns raises. */
  method DecodeInPlace(samples: array2<real>, newest: real, target: Option<Target>)
    requires target.Some? && target.value.Each? ==> |target.value.modes| <= samples.Length1
    modifies samples
    ensures forall i, k | 0 <= i < samples.Length0 && 0 <= k < samples.Length1 ::
              samples[i, k] == Decode(old(samples[i, k]), ModeOf(target, k).Residual?, newest)
  {
    forall i, k | 0 <= i < samples.Length0 && 0 <= k < samples.Length1 {
      samples[i, k] := samples[i, k] * KP_MAX;
    }
    for k := 0 to samples.Length1
      invariant forall i, j | 0 <= i < samples.Length0 && 0 <= j < samples.Length1 ::
                  samples[i, j] == old(samples[i, j]) * KP_MAX + if j < k
                    && ModeOf(target, j).Residual? then newest else 0.0
    {
      if ModeOf(target, k).Residual? {
        forall i | 0 <= i < samples.Length0 {
          samples[i, k] := samples[i, k] + newest;
        }
      }
    }
  }

  /** round(x, 3) and round(x, 4): to the nearest multiple of 1 / unit, ties to the even. */
  function ToEven(x: real): int {
    var n := x.Floor;
    var over := x - n as real;
    if over < 0.5 || (over == 0.5 && n % 2 == 0) then n else n + 1
  }

  function Rounded(x: real, unit: real): real
    requires unit > 0.0
  {
    ToEven(x * unit) as real / unit
  }

  function Variance(xs: seq<real>): real
    requires xs != []
  {
    Mean(seq(|xs|, i requires 0 <= i < |xs| => (xs[i] - Mean(xs)) * (xs[i] - Mean(xs))))
  }

  /** numpy.std: the root of the variance. */
  predicate IsSpread(xs: seq<real>, spread: real)
    requires xs != []
  {
    spread >= 0.0 && spread * spread == Variance(xs)
  }

  /** What is published for one head. */
  datatype HorizonForecast = HorizonForecast(predicted: real, lower: real, upper: real, uncertainty: real)

  function Published(xs: seq<real>, spread: real): HorizonForecast
    requires xs != []
  {
    var m := Mean(xs);
    HorizonForecast(Rounded(Clip(m), 1000.0), Rounded(Clip(m - CI_Z * spread), 1000.0),
      Rounded(Clip(m + CI_Z * spread), 1000.0), Rounded(spread, 10000.0))
  }

  /** The forecast of every head; `spreads` are the square roots numpy takes. */
  method Predict(samples: array2<real>, newest: real, target: Option<Target>, spreads: seq<real>)
      returns (forecasts: seq<HorizonForecast>)
    requires target.Some? && target.value.Each? ==> |target.value.modes| <= samples.Length1
    requires samples.Length0 > 0 && |spreads| == samples.Length1
    requires forall k | 0 <= k < samples.Length1 ::
        IsSpread(Decoded(Column(samples, k), ModeOf(target, k).Residual?, newest), spreads[k])
    modifies samples
    ensures |forecasts| == samples.Length1
    ensures forall k | 0 <= k < samples.Length1 ::
              forecasts[k] == Published(Decoded(old(Column(samples, k)), ModeOf(target, k).Residual?, newest),
                spreads[k])
  {
    ghost var columns := seq(samples.Length1, k requires 0 <= k < samples.Length1 reads samples => Column(samples, k));
    DecodeInPlace(samples, newest, target);
    hide Published, ModeOf;
    forecasts := [];
    for k := 0 to samples.Length1
      invariant |forecasts| == k
      invariant forall j | 0 <= j < k ::
          forecasts[j] == Published(Decoded(columns[j], ModeOf(target, j).Residual?, newest), spreads[j])
    {
      assert Column(samples, k) == Decoded(columns[k], ModeOf(target, k).Residual?, newest);
      forecasts := forecasts + [Published(Column(samples, k), spreads[k])];
    }
  }

  /** Every published interval lies in the Kp scale and holds the published value, which is
      within half a thousandth of the clipped mean. */
  lemma {:induction false} IntervalHoldsThePrediction(xs: seq<real>, spread: real)
    requires xs != [] && IsSpread(xs, spread)
    ensures var f := Published(xs, spread);
            && 0.0 <= f.lower <= f.predicted <= f.upper <= KP_MAX
            && -0.0005 <= f.predicted - Clip(Mean(xs)) <= 0.0005 && 0.0 <= f.uncertainty
  {
    hide Mean, Variance, Rounded;
    var m := Mean(xs);
    RoundedIsMonotone(Clip(m - CI_Z * spread), Clip(m), 1000.0);
    RoundedIsMonotone(Clip(m), Clip(m + CI_Z * spread), 1000.0);
    RoundedIsMonotone(0.0, Clip(m - CI_Z * spread), 1000.0);
    RoundedIsMonotone(Clip(m + CI_Z * spread), KP_MAX, 1000.0);
    RoundedIsMonotone(0.0, spread, 10000.0);
    EndsAreRounded();
    RoundedIsNear(Clip(m));
  }

  /** The bounds are 1.96 spreads either side of the mean to half a thousandth, cut off at
      the ends of the scale; the spread is published to half a ten-thousandth. */
  lemma {:induction false} IntervalIsAsWideAsTheSpread(xs: seq<real>, spread: real)
    requires xs != []
    ensures var f, m := Published(xs, spread), Mean(xs);
            && IsCutOff(m - 1.96 * spread, f.lower) && IsCutOff(m, f.predicted) && IsCutOff(m + 1.96 * spread, f.upper)
            && spread - 0.00005 <= f.uncertainty <= spread + 0.00005
  {
    hide Mean, Rounded;
    var m := Mean(xs);
    EndsAreRounded();
    RoundedIsNear(Clip(m));
    RoundedIsNear(Clip(m - CI_Z * spread));
    RoundedIsNear(Clip(m + CI_Z * spread));
    SpreadIsNear(spread);
  }

  /** `y` is `x` to half a thousandth, or the end of the scale that `x` is beyond. */
  predicate IsCutOff(x: real, y: real) {
    if x < 0.0 then y == 0.0 else if x > 9.0 then y == 9.0 else x - 0.0005 <= y <= x + 0.0005
  }

  lemma SpreadIsNear(x: real)
    ensures -0.00005 <= Rounded(x, 10000.0) - x <= 0.00005
  {
  }

  /** A tie goes to the even neighbour. */
  lemma TiesGoToTheEven(n: int)
    ensures ToEven(n as real + 0.5) == if n % 2 == 0 then n else n + 1
  {
    assert (n as real + 0.5).Floor == n;
  }

  function Squares(xs: seq<real>): seq<real> {
    seq(|xs|, i requires 0 <= i < |xs| => xs[i] * xs[i])
  }

  /** What numpy.std is the root of: the mean square less the square of the mean. */
  lemma {:induction false} VarianceIsTheMeanSquareLessTheSquaredMean(xs: seq<real>)
    requires xs != []
    ensures Variance(xs) == Mean(Squares(xs)) - Mean(xs) * Mean(xs)
    ensures |xs| as real * Mean(xs) == Sum(xs)
  {
    hide Sum;
    var m, n := Mean(xs), |xs| as real;
    DeviationsExpand(xs, m);
    MeanShifts(Sum(SquaredFrom(xs, m)), Sum(Squares(xs)), Sum(xs), n, m);
    assert SquaredFrom(xs, m) == seq(|xs|, i requires 0 <= i < |xs| => (xs[i] - Mean(xs)) * (xs[i] - Mean(xs)));
  }

  function SquaredFrom(xs: seq<real>, y: real): seq<real> {
    seq(|xs|, i requires 0 <= i < |xs| => (xs[i] - y) * (xs[i] - y))
  }

  lemma {:induction false} DeviationsExpand(xs: seq<real>, y: real)
    ensures Sum(SquaredFrom(xs, y)) == Sum(Squares(xs)) - 2.0 * y * Sum(xs) + |xs| as real * y * y
  {
    if xs != [] {
      var n := |xs| - 1;
      DeviationsExpand(xs[..n], y);
      SquaresOfPrefix(xs, y);
      ExpandSquare(xs[n], y, Sum(xs[..n]), n);
    }
  }

  lemma SquaresOfPrefix(xs: seq<real>, y: real)
    requires xs != []
    ensures var n := |xs| - 1;
            Squares(xs)[..n] == Squares(xs[..n]) && SquaredFrom(xs, y)[..n] == SquaredFrom(xs[..n], y)
  {
    var n := |xs| - 1;
    assert forall i | 0 <= i < n :: Squares(xs)[..n][i] == Squares(xs[..n])[i];
    assert forall i | 0 <= i < n :: SquaredFrom(xs, y)[..n][i] == SquaredFrom(xs[..n], y)[i];
  }

  lemma ExpandSquare(x: real, y: real, s: real, n: nat)
    ensures (x - y) * (x - y) == x * x - 2.0 * y * x + y * y
    ensures 2.0 * y * (s + x) == 2.0 * y * s + 2.0 * y * x
    ensures (n + 1) as real * y * y == n as real * y * y + y * y
  {
  }

  lemma MeanShifts(deviations: real, squares: real, sum: real, n: real, m: real)
    requires n > 0.0 && m == sum / n && deviations == squares - 2.0 * m * sum + n * m * m
    ensures deviations / n == squares / n - m * m && n * m == sum
  {
    assert n * m == sum;
    assert m * sum == n * m * m;
    assert (squares / n - m * m) * n == squares - n * m * m;
  }

  /** The mean of two runs of samples together, and of one: the mean is no other weighting. */
  lemma {:induction false} SumAppend(xs: seq<real>, ys: seq<real>)
    ensures Sum(xs + ys) == Sum(xs) + Sum(ys) && Sum([]) == 0.0 && forall x :: Sum([x]) == x
    decreases |ys|
  {
    if ys == [] {
      assert xs + ys == xs;
    } else {
      assert (xs + ys)[..|xs + ys| - 1] == xs + ys[..|ys| - 1];
      SumAppend(xs, ys[..|ys| - 1]);
    }
    assert forall x: real :: [x][..0] == [];
  }

  /** What a checkpoint's samples mean in Kp: nine times their mean, with the newest reading
      on top exactly for a head it calls residual, by one mode for all or by its own. */
  lemma {:induction false} MeanOfDecoded(column: seq<real>, target: Option<Target>, head: nat, newest: real)
    requires column != []
    ensures Mean(Decoded(column, ModeOf(target, head).Residual?, newest)) == 9.0 * Mean(column) +
        if target == Some(All(Residual))
          || (target.Some? && target.value.Each? && head < |target.value.modes| && target.value.modes[head].Residual?)
        then newest else 0.0
  {
    hide Sum;
    var residual := ModeOf(target, head).Residual?;
    SumOfDecoded(column, residual, newest);
    MeanOfShifted(Sum(column), |column| as real, if residual then newest else 0.0);
  }

  lemma MeanOfShifted(sum: real, n: real, shift: real)
    requires n > 0.0
    ensures (9.0 * sum + n * shift) / n == 9.0 * (sum / n) + shift
  {
    assert (9.0 * (sum / n) + shift) * n == 9.0 * sum + n * shift;
  }

  lemma {:induction false} SumOfDecoded(column: seq<real>, residual: bool, newest: real)
    ensures Sum(Decoded(column, residual, newest)) == 9.0 * Sum(column)
        + |column| as real * if residual then newest else 0.0
  {
    if column != [] {
      var n := |column| - 1;
      SumOfDecoded(column[..n], residual, newest);
      assert Decoded(column, residual, newest)[..n] == Decoded(column[..n], residual, newest);
    }
  }

  lemma EndsAreRounded()
    ensures Rounded(0.0, 1000.0) == 0.0 && Rounded(0.0, 10000.0) == 0.0 && Rounded(KP_MAX, 1000.0) == KP_MAX
  {
    assert (9000.0).Floor == 9000 && (0.0).Floor == 0;
  }

  lemma RoundedIsNear(x: real)
    ensures -0.0005 <= Rounded(x, 1000.0) - x <= 0.0005
  {
  }

  lemma RoundedIsMonotone(x: real, y: real, unit: real)
    requires x <= y && unit > 0.0
    ensures Rounded(x, unit) <= Rounded(y, unit)
  {
    ScaleKeepsOrder(x, y, unit);
    ToEvenIsMonotone(x * unit, y * unit);
    DivideKeepsOrder(ToEven(x * unit) as real, ToEven(y * unit) as real, unit);
  }

  lemma ScaleKeepsOrder(x: real, y: real, unit: real)
    requires x <= y && unit > 0.0
    ensures x * unit <= y * unit
  {
    assert (y - x) * unit >= 0.0;
  }

  lemma DivideKeepsOrder(x: real, y: real, unit: real)
    requires x <= y && unit > 0.0
    ensures x / unit <= y / unit
  {
    var a, b := x / unit, y / unit;
    assert a * unit == x && b * unit == y;
    assert a > b ==> (a - b) * unit > 0.0;
  }

  lemma ToEvenIsMonotone(x: real, y: real)
    requires x <= y
    ensures ToEven(x) <= ToEven(y)
  {
    assert x.Floor <= y.Floor;
  }

  lemma {:induction false} SumOfEqual(xs: seq<real>, v: real)
    requires forall i | 0 <= i < |xs| :: xs[i] == v
    ensures Sum(xs) == |xs| as real * v
  {
    if xs != [] {
      SumOfEqual(xs[..|xs| - 1], v);
      assert |xs| as real * v == (|xs| - 1) as real * v + v;
    }
  }

  /** Serving undoes training: samples that all equal what the head was trained to output
      decode to the Kp that came, at the lead the head is named for. It is published to
      three decimals, with no spread and an interval of no width. */
  lemma {:induction false} ExactSamplesDecodeToTheFuture(kp: seq<real>, newest: nat, head: nat, column: seq<real>,
      spread: real)
    requires head < HEADS && newest + Periods(head) < |kp| && column != []
    requires forall i | 0 <= i < |kp| :: 0.0 <= kp[i] <= KP_MAX
    requires var kpNorm := Normalised(kp); forall i | 0 <= i < |column| :: column[i] == Wanted(kpNorm, newest, head)
    requires IsSpread(Decoded(column, ModeOf(CURRENT, head).Residual?, kp[newest]), spread)
    ensures Mean(Decoded(column, ModeOf(CURRENT, head).Residual?, kp[newest])) == kp[newest + Periods(head)]
    ensures var p := Rounded(kp[newest + Periods(head)], 1000.0);
            Published(Decoded(column, ModeOf(CURRENT, head).Residual?, kp[newest]), spread) ==
              HorizonForecast(p, p, p, 0.0)
  {
    CurrentModesAreTrained(head);
    hide Decode, Wanted, Rounded;
    var future := kp[newest + Periods(head)];
    var d := Decoded(column, IsResidual(head), kp[newest]);
    DecodingUndoesTheTarget(kp, newest, head);
    EqualMean(d, future);
    NoVariance(d, future);
    ZeroFactor(spread, spread);
    EndsAreRounded();
  }

  lemma EqualMean(xs: seq<real>, v: real)
    requires xs != [] && forall i | 0 <= i < |xs| :: xs[i] == v
    ensures Mean(xs) == v
  {
    hide Sum;
    SumOfEqual(xs, v);
    MeanOfEqual(Sum(xs), |xs| as real, v);
  }

  lemma NoVariance(xs: seq<real>, v: real)
    requires xs != [] && forall i | 0 <= i < |xs| :: xs[i] == v
    ensures Variance(xs) == 0.0
  {
    hide Mean;
    EqualMean(xs, v);
    EqualMean(seq(|xs|, i requires 0 <= i < |xs| => (xs[i] - Mean(xs)) * (xs[i] - Mean(xs))), 0.0);
  }

  lemma ZeroFactor(x: real, y: real)
    requires x * y == 0.0
    ensures x == 0.0 || y == 0.0
  {
  }

  lemma DecodingUndoesTheTarget(kp: seq<real>, newest: nat, head: nat)
    requires head < HEADS && newest + Periods(head) < |kp|
    ensures Decode(Wanted(Normalised(kp), newest, head), IsResidual(head), kp[newest]) == kp[newest + Periods(head)]
  {
  }

  lemma MeanOfEqual(sum: real, n: real, v: real)
    requires n > 0.0 && sum == n * v
    ensures sum / n == v
  {
  }

  function Normalised(kp: seq<real>): seq<real> {
    seq(|kp|, i requires 0 <= i < |kp| => kp[i] / KP_MAX)
  }
}
