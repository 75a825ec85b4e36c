/** Storing one forecast issue: reading the four published horizons out of the model's
    answer, and inserting all of them or none. */
module ForecastStore {
  import opened Doubles
  import opened Prelude

  const HORIZONS: seq<int> := [3, 6, 12, 24]

  datatype Point = Point(horizon: int, kpE2: int, ciLowerE2: Option<int>, ciUpperE2: Option<int>,
    uncertaintyE4: Option<int>)

  datatype IssueKey = IssueKey(issuedAt: int, horizon: int)
  datatype Row = Row(ts: int, kpE2: int, ciLowerE2: Option<int>, ciUpperE2: Option<int>, uncertaintyE4: Option<int>,
                     modelSha: Option<string>, fetchedAt: int)
  type Table = map<IssueKey, Row>

  datatype ForecastError = PartialForecast(got: seq<int>) | DatabaseError

  // ---------------------------------------------------------------- reading a payload

  datatype Entry = Entry(horizon: Option<int>, predictedKp: Option<real>, ciLower: Option<real>, ciUpper: Option<real>,
    uncertainty: Option<real>)
  datatype Payload = Payload(forecast: Option<seq<Entry>>, modelSha: Option<string>)

  const I64_MAX: int := 9223372036854775807

  /** `as i64` of a rounded double saturates. */
  function Saturated(n: int): int {
    if n > I64_MAX then I64_MAX else if n < -I64_MAX - 1 then -I64_MAX - 1 else n
  }

  /** A payload's number in stored units. A product too large for a double is infinite. */
  function Scale(fl: Rounding, v: real, factor: real): int {
    match fl(Product(v, factor))
    case Finite(x) => Saturated(Round(x))
    case NotFinite => if v > 0.0 then I64_MAX else -I64_MAX - 1
  }

  function Scaled(fl: Rounding, x: Option<real>, factor: real): Option<int> {
    match x
    case Some(v) => Some(Scale(fl, v, factor))
    case None => None
  }

  /** The first entry that names the horizon. */
  function Find(entries: seq<Entry>, horizon: int): Option<Entry> {
    if entries == [] then None
    else if entries[0].horizon == Some(horizon) then Some(entries[0])
    else Find(entries[1..], horizon)
  }

  function Entries(p: Payload): seq<Entry> {
    if p.forecast.Some? then p.forecast.value else []
  }

  /** The point a payload holds for one horizon, if its first entry has a prediction. */
  function PointFor(fl: Rounding, entries: seq<Entry>, horizon: int): Option<Point> {
    match Find(entries, horizon)
    case None => None
    case Some(e) =>
      match e.predictedKp
      case None => None
      case Some(kp) =>
        Some(Point(horizon, Scale(fl, kp, 100.0), Scaled(fl, e.ciLower, 100.0), Scaled(fl, e.ciUpper, 100.0),
          Scaled(fl, e.uncertainty, 10000.0)))
  }

  function PointsFor(fl: Rounding, entries: seq<Entry>, horizons: seq<int>): seq<Point> {
    if horizons == [] then []
    else
      var n := |horizons| - 1;
      PointsFor(fl, entries, horizons[..n]) + match PointFor(fl, entries, horizons[n])
        case Some(p) => [p]
        case None => []
  }

  function HorizonsOf(ps: seq<Point>): seq<int> {
    seq(|ps|, i requires 0 <= i < |ps| => ps[i].horizon)
  }

  method FromPredictPayload(fl: Rounding, payload: Payload)
      returns (r: Result<(seq<Point>, Option<string>), ForecastError>)
    ensures r.Ok? <==> forall h | h in HORIZONS :: PointFor(fl, Entries(payload), h).Some?
    ensures r.Ok? ==> r.value.0 == PointsFor(fl, Entries(payload), HORIZONS) && HorizonsOf(r.value.0) == HORIZONS
    ensures r.Ok? ==> r.value.1 == if payload.modelSha == Some("") then None else payload.modelSha
    ensures r.Err? ==> r.error.PartialForecast? && r.error.got != HORIZONS
  {
    var entries := Entries(payload);
    var points: seq<Point> := [];
    for i := 0 to |HORIZONS|
      invariant points == PointsFor(fl, entries, HORIZONS[..i])
    {
      assert HORIZONS[..i + 1][..i] == HORIZONS[..i];
      var found := PointFor(fl, entries, HORIZONS[i]);
      if found.Some? {
        points := points + [found.value];
      }
    }
    assert HORIZONS[..|HORIZONS|] == HORIZONS;
    AllOrFewer(fl, entries, HORIZONS);
    if |points| != |HORIZONS| {
      return Err(PartialForecast(HorizonsOf(points)));
    }
    return Ok((points, if payload.modelSha == Some("") then None else payload.modelSha));
  }

  /** Every horizon is found exactly when as many points as horizons are, and then they
      come in the horizons' own order. */
  lemma {:induction false} AllOrFewer(fl: Rounding, entries: seq<Entry>, horizons: seq<int>)
    ensures var ps := PointsFor(fl, entries, horizons);
            && |ps| <= |horizons|
            && (|ps| == |horizons| <==> forall h | h in horizons :: PointFor(fl, entries, h).Some?)
            && (|ps| == |horizons| ==> HorizonsOf(ps) == horizons)
  {
    if horizons != [] {
      var n := |horizons| - 1;
      AllOrFewer(fl, entries, horizons[..n]);
      assert horizons == horizons[..n] + [horizons[n]];
    }
  }

  /** Order and extra entries do not matter: a payload is read through its first entry for
      each published horizon and through nothing else. */
  lemma {:induction false} OnlyPublishedHorizonsAreRead(fl: Rounding, a: seq<Entry>, b: seq<Entry>, horizons: seq<int>)
    requires forall h | h in horizons :: Find(a, h) == Find(b, h)
    ensures PointsFor(fl, a, horizons) == PointsFor(fl, b, horizons)
  {
    if horizons != [] {
      var n := |horizons| - 1;
      assert horizons[n] in horizons;
      OnlyPublishedHorizonsAreRead(fl, a, b, horizons[..n]);
    }
  }

  /** With at most one entry a horizon, any rearrangement reads the same. */
  lemma {:induction false} EntryOrderIsIrrelevant(fl: Rounding, a: seq<Entry>, b: seq<Entry>)
    requires multiset(a) == multiset(b)
    requires forall i, j | 0 <= i < j < |a| :: a[i].horizon.Some? ==> a[i].horizon != a[j].horizon
    ensures PointsFor(fl, a, HORIZONS) == PointsFor(fl, b, HORIZONS)
  {
    forall h | h in HORIZONS
      ensures Find(a, h) == Find(b, h)
    {
      FindIsAMember(a, h);
      FindIsAMember(b, h);
      assert forall e :: e in a <==> e in multiset(a);
      assert forall e :: e in b <==> e in multiset(b);
    }
    OnlyPublishedHorizonsAreRead(fl, a, b, HORIZONS);
  }

  lemma {:induction false} FindIsAMember(entries: seq<Entry>, h: int)
    ensures Find(entries, h).Some? ==> Find(entries, h).value in entries && Find(entries, h).value.horizon == Some(h)
    ensures Find(entries, h).None? ==> forall e | e in entries :: e.horizon != Some(h)
  {
    if entries != [] { FindIsAMember(entries[1..], h); }
  }

  /** The double nearest to a stored number in the payload's units. */
  function Unscaled(fl: Rounding, n: int, factor: real): real
    requires factor != 0.0
  {
    match fl(n as real / factor)
    case Finite(v) => v
    case NotFinite => 0.0
  }

  function UnscaledOption(fl: Rounding, x: Option<int>, factor: real): Option<real>
    requires factor != 0.0
  {
    match x
    case Some(n) => Some(Unscaled(fl, n, factor))
    case None => None
  }

  /** An entry whose decimals are exactly a stored point's. */
  function EntryOf(fl: Rounding, p: Point): Entry {
    Entry(Some(p.horizon), Some(Unscaled(fl, p.kpE2, 100.0)), UnscaledOption(fl, p.ciLowerE2, 100.0),
      UnscaledOption(fl, p.ciUpperE2, 100.0),
          UnscaledOption(fl, p.uncertaintyE4, 10000.0))
  }

  predicate Moderate(n: int) {
    AbsInt(n) <= 4000000000000
  }

  predicate ModeratePoint(p: Point) {
    && Moderate(p.kpE2) && (p.ciLowerE2.Some? ==> Moderate(p.ciLowerE2.value))
    && (p.ciUpperE2.Some? ==> Moderate(p.ciUpperE2.value))
       && (p.uncertaintyE4.Some? ==> Moderate(p.uncertaintyE4.value))
  }

  lemma ScaleUndoes(fl: Rounding, n: int, factor: real)
    requires IsDouble(fl) && 1.0 <= factor <= 10000.0 && Moderate(n)
    ensures Scale(fl, Unscaled(fl, n, factor), factor) == n
  {
    hide Product, Round, IsDouble;
    var q := n as real / factor;
    QuotientRounding(fl, n, factor);
    TwoRoundingsUp(fl, q, fl(q), factor);
    RoundIsNearest(fl(Product(fl(q).r, factor)).r, n);
  }

  lemma {:induction false} PointReadsBack(fl: Rounding, entries: seq<Entry>, p: Point)
    requires IsDouble(fl) && ModeratePoint(p) && Find(entries, p.horizon) == Some(EntryOf(fl, p))
    ensures PointFor(fl, entries, p.horizon) == Some(p)
  {
    hide Scale, Unscaled, IsDouble;
    ScaleUndoes(fl, p.kpE2, 100.0);
    if p.ciLowerE2.Some? { ScaleUndoes(fl, p.ciLowerE2.value, 100.0); }
    if p.ciUpperE2.Some? { ScaleUndoes(fl, p.ciUpperE2.value, 100.0); }
    if p.uncertaintyE4.Some? { ScaleUndoes(fl, p.uncertaintyE4.value, 10000.0); }
  }

  /** Decimals that are exact stored units come back exactly: a payload whose entry for
      every horizon carries a point's own decimals gives back those points. */
  lemma {:induction false} PublishedPointsReadBack(fl: Rounding, entries: seq<Entry>, horizons: seq<int>,
      ps: seq<Point>)
    requires IsDouble(fl) && |ps| == |horizons|
    requires forall i | 0 <= i < |ps| ::
        ModeratePoint(ps[i]) && ps[i].horizon == horizons[i] && Find(entries, horizons[i]) == Some(EntryOf(fl, ps[i]))
    ensures PointsFor(fl, entries, horizons) == ps
  {
    hide IsDouble, EntryOf, PointFor, ModeratePoint;
    if ps != [] {
      var n := |ps| - 1;
      PublishedPointsReadBack(fl, entries, horizons[..n], ps[..n]);
      PointReadsBack(fl, entries, ps[n]);
      assert ps == ps[..n] + [ps[n]];
    }
  }

  /** Any other decimal is stored as a nearest unit: a value known to `slack` is stored to
      half a unit more. */
  lemma ScaleIsClose(fl: Rounding, v: real, x: real, slack: real, factor: real)
    requires IsDouble(fl) && 1.0 <= factor <= 10000.0 && Abs(v) <= 1000.0 && Abs(v - x) <= slack
    ensures Abs(Scale(fl, v, factor) as real - Product(x, factor)) <= 0.5000001 + Product(slack, factor)
  {
    ProductDifference(v, x, factor);
    AbsOfProduct(v - x, factor);
    ProductOrder(Abs(v - x), slack, factor);
    AbsOfProduct(v, factor);
    ProductOrder(Abs(v), 1000.0, factor);
    ThousandUnits(factor);
    hide Product, Round, IsDouble;
    SmallDifference(fl, Product(v, factor));
    RoundIsNearest(fl(Product(v, factor)).r, 0);
  }

  lemma ThousandUnits(factor: real)
    requires factor <= 10000.0
    ensures Product(1000.0, factor) <= 10000000.0
  {
  }

  /** What the service publishes: Kp and its bounds to three decimals, the spread to four.
      The stored Kp is within 0.551 hundredths of the number before it was rounded, and the
      stored spread is exactly the published one. */
  lemma PublishedDecimalsAreStoredClosely(fl: Rounding, entries: seq<Entry>, horizon: int, kp: real, spreadE4: int)
    requires IsDouble(fl) && Abs(kp) <= 999.0 && AbsInt(spreadE4) <= 1000000
    requires var e := Find(entries, horizon);
             && e.Some? && e.value.predictedKp.Some? && Abs(e.value.predictedKp.value - kp) <= 0.000501
             && e.value.uncertainty == Some(Unscaled(fl, spreadE4, 10000.0))
    ensures PointFor(fl, entries, horizon).Some?
    ensures var p := PointFor(fl, entries, horizon).value;
            Abs(p.kpE2 as real - 100.0 * kp) <= 0.551 && p.uncertaintyE4 == Some(spreadE4)
  {
    var e := Find(entries, horizon).value;
    ScaleIsClose(fl, e.predictedKp.value, kp, 0.000501, 100.0);
    ScaleUndoes(fl, spreadE4, 10000.0);
  }

  /** The entry a horizon is read from. */
  predicate IsFirstFor(entries: seq<Entry>, horizon: int, i: nat) {
    i < |entries| && entries[i].horizon == Some(horizon)
    && forall j | 0 <= j < i :: entries[j].horizon != Some(horizon)
  }

  lemma {:induction false} FindIsFirst(entries: seq<Entry>, horizon: int, i: nat)
    requires IsFirstFor(entries, horizon, i)
    ensures Find(entries, horizon) == Some(entries[i])
  {
    if i > 0 {
      var rest := entries[1..];
      forall j | 0 <= j < i - 1
        ensures rest[j].horizon != Some(horizon)
      {
        assert rest[j] == entries[j + 1];
      }
      FindIsFirst(rest, horizon, i - 1);
    }
  }

  lemma {:induction false} FirstFound(entries: seq<Entry>, horizon: int) returns (i: nat)
    requires Find(entries, horizon).Some?
    ensures IsFirstFor(entries, horizon, i)
  {
    if entries[0].horizon == Some(horizon) {
      i := 0;
    } else {
      var k := FirstFound(entries[1..], horizon);
      i := k + 1;
      assert forall j | 0 < j < i :: entries[j] == entries[1..][j - 1];
    }
  }

  /** `n` is the payload's number in units of 1 / factor, within half a unit, where the
      number is of the size the payload's numbers have, and an `i64` in any case. */
  predicate IsNearestUnit(v: real, factor: real, n: int) {
    && -0x8000_0000_0000_0000 <= n <= 0x7fff_ffff_ffff_ffff
    && (-1000.0 <= v <= 1000.0 ==> -0.5000001 <= n as real - v * factor <= 0.5000001)
  }

  predicate IsNearestUnits(v: Option<real>, factor: real, n: Option<int>) {
    (v.Some? <==> n.Some?) && (v.Some? ==> IsNearestUnit(v.value, factor, n.value))
  }

  lemma ScaleIsNearestUnit(fl: Rounding, v: real, factor: real)
    requires IsDouble(fl) && 1.0 <= factor <= 10000.0
    ensures IsNearestUnit(v, factor, Scale(fl, v, factor))
  {
    if -1000.0 <= v <= 1000.0 {
      ScaleIsClose(fl, v, v, 0.0, factor);
      NoSlack(factor);
    }
  }

  lemma NoSlack(factor: real)
    ensures Product(0.0, factor) == 0.0
  {
  }

  /** A horizon has a point exactly when the first entry that names it holds a prediction,
      and every number of the point is that entry's own. */
  lemma {:induction false} PointExactlyWhen(fl: Rounding, entries: seq<Entry>, horizon: int)
    requires IsDouble(fl)
    ensures PointFor(fl, entries, horizon).Some? <==>
        exists i: nat | IsFirstFor(entries, horizon, i) :: entries[i].predictedKp.Some?
    ensures forall i: nat, p | IsFirstFor(entries, horizon, i) && PointFor(fl, entries, horizon) == Some(p) ::
        && p.horizon == horizon && entries[i].predictedKp.Some?
        && IsNearestUnit(entries[i].predictedKp.value, 100.0, p.kpE2)
        && IsNearestUnits(entries[i].ciLower, 100.0, p.ciLowerE2)
        && IsNearestUnits(entries[i].ciUpper, 100.0, p.ciUpperE2)
        && IsNearestUnits(entries[i].uncertainty, 10000.0, p.uncertaintyE4)
  {
    hide IsDouble, IsNearestUnit, Scale;
    if Find(entries, horizon).Some? { var i := FirstFound(entries, horizon); }
    forall i: nat | IsFirstFor(entries, horizon, i)
      ensures Find(entries, horizon) == Some(entries[i])
    {
      FindIsFirst(entries, horizon, i);
    }
    forall v: real
      ensures IsNearestUnit(v, 100.0, Scale(fl, v, 100.0))
      ensures IsNearestUnit(v, 10000.0, Scale(fl, v, 10000.0))
    {
      ScaleIsNearestUnit(fl, v, 100.0);
      ScaleIsNearestUnit(fl, v, 10000.0);
    }
  }

  // ---------------------------------------------------------------- the insert

  /** The issue is complete: the published horizons and nothing else, in any order. */
  predicate IsComplete(ps: seq<Point>) {
    multiset(HorizonsOf(ps)) == multiset(HORIZONS)
  }

  ghost predicate Holds(ps: seq<Point>, horizon: int) {
    exists i | 0 <= i < |ps| :: ps[i].horizon == horizon
  }

  /** Complete is four points, one for each of 3, 6, 12 and 24 hours. */
  lemma CompleteExactlyWhen(ps: seq<Point>)
    ensures IsComplete(ps) <==> |ps| == 4 && Holds(ps, 3) && Holds(ps, 6) && Holds(ps, 12) && Holds(ps, 24)
  {
    var hs := HorizonsOf(ps);
    forall h
      ensures Holds(ps, h) <==> h in multiset(hs)
    {
      if Holds(ps, h) {
        var i :| 0 <= i < |ps| && ps[i].horizon == h;
        assert hs[i] == h;
      }
    }
    assert multiset(HORIZONS) == multiset{3, 6, 12, 24};
    assert |multiset(hs)| == |ps|;
    if |ps| == 4 && Holds(ps, 3) && Holds(ps, 6) && Holds(ps, 12) && Holds(ps, 24) {
      var rest := multiset(hs) - multiset{3, 6, 12, 24};
      assert multiset(hs) == multiset{3, 6, 12, 24} + rest;
      assert rest == multiset{};
    }
  }

  function RowOf(issuedAt: int, sha: Option<string>, p: Point, written: int): Row {
    Row(issuedAt + p.horizon * 3600, p.kpE2, p.ciLowerE2, p.ciUpperE2, p.uncertaintyE4, sha, written)
  }

  function WithPoints(t: Table, issuedAt: int, sha: Option<string>, ps: seq<Point>, written: int): Table {
    if ps == [] then t
    else
      var p := ps[|ps| - 1];
      WithPoints(t, issuedAt, sha, ps[..|ps| - 1],
        written)[IssueKey(issuedAt, p.horizon) := RowOf(issuedAt, sha, p, written)]
  }

  class Store {
    var rows: Table

    constructor ()
      ensures rows == map[]
    {
      rows := map[];
    }

    /** `failsAt` is the statement at which the database reports an error, if any does. */
    method InsertKpForecast(issuedAt: int, sha: Option<string>, points: seq<Point>, written: int, failsAt: Option<nat>)
      returns (r: Result<(), ForecastError>)
      modifies this
      ensures r.Ok? <==> IsComplete(points) && (failsAt.None? || failsAt.value >= |points|)
      ensures r.Ok? ==> rows == WithPoints(old(rows), issuedAt, sha, points, written)
      ensures r.Err? ==> rows == old(rows)
    {
      if !IsComplete(points) {
        return Err(PartialForecast(HorizonsOf(points)));
      }
      var begun := rows;
      for i := 0 to |points|
        invariant rows == WithPoints(begun, issuedAt, sha, points[..i], written)
        invariant failsAt.None? || failsAt.value >= i
      {
        if failsAt == Some(i) {
          rows := begun;
          return Err(DatabaseError);
        }
        assert points[..i + 1][..i] == points[..i];
        var p := points[i];
        rows := rows[IssueKey(issuedAt, p.horizon) := RowOf(issuedAt, sha, p, written)];
      }
      assert points[..|points|] == points;
      return Ok(());
    }
  }

  // ---------------------------------------------------------------- integrity

  /** The issue made at `issuedAt` has exactly the published horizons, all from one model. */
  ghost predicate IsWholeIssue(t: Table, issuedAt: int) {
    && (forall h :: IssueKey(issuedAt, h) in t <==> h in HORIZONS)
    && (forall h | h in HORIZONS :: t[IssueKey(issuedAt, h)].modelSha == t[IssueKey(issuedAt, 3)].modelSha)
    && (forall h | h in HORIZONS :: t[IssueKey(issuedAt, h)].ts == issuedAt + 3600 * h)
  }

  ghost predicate HoldsWholeIssues(t: Table) {
    forall k | k in t :: IsWholeIssue(t, k.issuedAt)
  }

  lemma {:induction false} PointsAreWritten(t: Table, issuedAt: int, sha: Option<string>, ps: seq<Point>, written: int,
      k: IssueKey)
    ensures var u := WithPoints(t, issuedAt, sha, ps, written);
            && (k in u <==> k in t || (k.issuedAt == issuedAt && k.horizon in HorizonsOf(ps)))
            && (k in u && k.issuedAt == issuedAt && k.horizon in HorizonsOf(ps) ==>
               u[k].modelSha == sha && u[k].ts == issuedAt + 3600 * k.horizon)
            && (k in u && !(k.issuedAt == issuedAt && k.horizon in HorizonsOf(ps)) ==> u[k] == t[k])
  {
    if ps != [] {
      var n := |ps| - 1;
      PointsAreWritten(t, issuedAt, sha, ps[..n], written, k);
      assert HorizonsOf(ps) == HorizonsOf(ps[..n]) + [ps[n].horizon];
    }
  }

  /** Every insert that is accepted leaves whole issues: a new one, or an old one wholly
      replaced. Refusals leave the table alone, so this is every reachable table. */
  lemma {:induction false} InsertKeepsWholeIssues(t: Table, issuedAt: int, sha: Option<string>, ps: seq<Point>,
      written: int)
    requires HoldsWholeIssues(t) && IsComplete(ps)
    ensures HoldsWholeIssues(WithPoints(t, issuedAt, sha, ps, written))
    ensures IsWholeIssue(WithPoints(t, issuedAt, sha, ps, written), issuedAt)
    ensures forall k | k in t && k.issuedAt != issuedAt ::
              k in WithPoints(t, issuedAt, sha, ps, written) && WithPoints(t, issuedAt, sha, ps, written)[k] == t[k]
  {
    var u := WithPoints(t, issuedAt, sha, ps, written);
    SameMembers(HorizonsOf(ps), HORIZONS);
    forall k: IssueKey
      ensures k.issuedAt == issuedAt ==> (k in u <==> k.horizon in HORIZONS)
      ensures k in u && k.issuedAt == issuedAt ==> u[k].modelSha == sha && u[k].ts == issuedAt + 3600 * k.horizon
      ensures k.issuedAt != issuedAt ==> (k in u <==> k in t) && (k in t ==> u[k] == t[k])
    {
      PointsAreWritten(t, issuedAt, sha, ps, written, k);
      if k in t && k.issuedAt == issuedAt { assert IsWholeIssue(t, issuedAt); }
    }
    assert 3 in HORIZONS;
    assert IsWholeIssue(u, issuedAt);
    forall k | k in u
      ensures IsWholeIssue(u, k.issuedAt)
    {
      if k.issuedAt != issuedAt { assert IsWholeIssue(t, k.issuedAt); }
    }
  }

  lemma SameMembers(a: seq<int>, b: seq<int>)
    requires multiset(a) == multiset(b)
    ensures forall x :: x in a <==> x in b
  {
    assert forall x :: x in a <==> x in multiset(a);
    assert forall x :: x in b <==> x in multiset(b);
  }

  /** The point stored for one horizon of one issue. */
  function StoredPoint(t: Table, k: IssueKey): Point
    requires k in t
  {
    Point(k.horizon, t[k].kpE2, t[k].ciLowerE2, t[k].ciUpperE2, t[k].uncertaintyE4)
  }

  /** What was inserted is what is read back, horizon by horizon. */
  lemma InsertedPointsReadBack(t: Table, issuedAt: int, sha: Option<string>, ps: seq<Point>, written: int, i: nat)
    requires IsComplete(ps) && i < |ps|
    ensures var u, k := WithPoints(t, issuedAt, sha, ps, written), IssueKey(issuedAt, ps[i].horizon);
            && k in u && StoredPoint(u, k) == ps[i] && u[k].fetchedAt == written && u[k].modelSha == sha
            && u[k].kpE2 == ps[i].kpE2 && u[k].ciLowerE2 == ps[i].ciLowerE2 && u[k].ciUpperE2 == ps[i].ciUpperE2
            && u[k].uncertaintyE4 == ps[i].uncertaintyE4 && u[k].ts == issuedAt + 3600 * ps[i].horizon
  {
    DistinctHorizons(ps);
    LastPointIsStored(t, issuedAt, sha, ps, written, i);
  }

  lemma {:induction false} LastPointIsStored(t: Table, issuedAt: int, sha: Option<string>, ps: seq<Point>, written: int,
      i: nat)
    requires i < |ps| && forall j | i < j < |ps| :: ps[j].horizon != ps[i].horizon
    ensures var u, k := WithPoints(t, issuedAt, sha, ps, written), IssueKey(issuedAt, ps[i].horizon);
            k in u && u[k] == RowOf(issuedAt, sha, ps[i], written)
  {
    if i < |ps| - 1 { LastPointIsStored(t, issuedAt, sha, ps[..|ps| - 1], written, i); }
  }

  lemma DistinctHorizons(ps: seq<Point>)
    requires IsComplete(ps)
    ensures forall i, j | 0 <= i < j < |ps| :: ps[i].horizon != ps[j].horizon
  {
    var hs := HorizonsOf(ps);
    forall i, j | 0 <= i < j < |ps|
      ensures ps[i].horizon != ps[j].horizon
    {
      assert hs == hs[..j] + hs[j..];
      assert hs[..j][i] == hs[i] && hs[j..][0] == hs[j];
      assert multiset(hs) == multiset(hs[..j]) + multiset(hs[j..]);
      assert hs[i] in multiset(hs[..j]) && hs[j] in multiset(hs[j..]);
      assert multiset(HORIZONS)[hs[i]] <= 1;
    }
  }

  /** One call on the store, complete or not, failing or not. */
  datatype Call = Call(issuedAt: int, sha: Option<string>, points: seq<Point>, written: int, failsAt: Option<nat>)

  function AfterCall(t: Table, c: Call): Table {
    if IsComplete(c.points) && (c.failsAt.None? || c.failsAt.value >= |c.points|)
    then WithPoints(t, c.issuedAt, c.sha, c.points, c.written) else t
  }

  function AfterCalls(calls: seq<Call>): Table {
    if calls == [] then map[] else AfterCall(AfterCalls(calls[..|calls| - 1]), calls[|calls| - 1])
  }

  lemma {:induction false} EveryReachableTableHoldsWholeIssues(calls: seq<Call>)
    ensures HoldsWholeIssues(AfterCalls(calls))
  {
    if calls != [] {
      EveryReachableTableHoldsWholeIssues(calls[..|calls| - 1]);
      var c := calls[|calls| - 1];
      if IsComplete(c.points) {
        InsertKeepsWholeIssues(AfterCalls(calls[..|calls| - 1]), c.issuedAt, c.sha, c.points, c.written);
      }
    }
  }

  /** After any run an issue is there exactly when some complete call for it was not cut
      short by the database. */
  lemma {:induction false} StoredIssues(calls: seq<Call>, issuedAt: int, horizon: int)
    ensures IssueKey(issuedAt, horizon) in AfterCalls(calls) <==>
        horizon in {3, 6, 12, 24}
        && exists i | 0 <= i < |calls| :: calls[i].issuedAt == issuedAt && IsComplete(calls[i].points)
             && (calls[i].failsAt.Some? ==> calls[i].failsAt.value >= |calls[i].points|)
  {
    if calls != [] {
      hide IsComplete, HorizonsOf, WithPoints;
      var n := |calls| - 1;
      StoredIssues(calls[..n], issuedAt, horizon);
      assert forall i | 0 <= i < n :: calls[..n][i] == calls[i];
      CallAdds(AfterCalls(calls[..n]), calls[n], IssueKey(issuedAt, horizon));
    }
  }

  lemma CallAdds(t: Table, c: Call, k: IssueKey)
    ensures k in AfterCall(t, c) <==>
        k in t
        || (k.issuedAt == c.issuedAt && k.horizon in {3, 6, 12, 24} && IsComplete(c.points)
            && (c.failsAt.Some? ==> c.failsAt.value >= |c.points|))
  {
    PointsAreWritten(t, c.issuedAt, c.sha, c.points, c.written, k);
    if IsComplete(c.points) { SameMembers(HorizonsOf(c.points), HORIZONS); }
  }

  /** What the parser accepts, the insert accepts. */
  lemma ParsedPayloadsAreComplete(fl: Rounding, entries: seq<Entry>)
    requires forall h | h in HORIZONS :: PointFor(fl, entries, h).Some?
    ensures IsComplete(PointsFor(fl, entries, HORIZONS))
  {
    AllOrFewer(fl, entries, HORIZONS);
  }
}
