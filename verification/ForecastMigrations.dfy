/** Opening a database whose forecasts are still keyed on their target time: the purge, the
    rekey onto (issued_at, horizon_hours), and the era fix that names the serving model. */
module ForecastMigrations {
  import opened Prelude
  import opened ForecastStore

  /** The migration records this code reads and writes. */
  datatype Migration = PURGE | REKEY | ERA

  const MODEL_061A_DEPLOYED_AT: int := 1788236177
  const MODEL_061A_SHA := "061a5d30fac50c5f7e941730a37726c2bf02c008f72f484e8c01f143274760d1"

  datatype OldRow = OldRow(ts: int, kpE2: int, ciLowerE2: Option<int>, ciUpperE2: Option<int>,
    uncertaintyE4: Option<int>, fetchedAt: int)

  datatype Forecasts = OldShape(rows: seq<OldRow>) | NewShape(table: Table)
  datatype MigrationError = CouldNotCopy | NotVerified | ConstraintError

  // ---------------------------------------------------------------- the rekey

  function NewKey(r: OldRow): IssueKey {
    IssueKey(r.fetchedAt, 6)
  }

  function Relabelled(r: OldRow): Row {
    Row(r.fetchedAt + 6 * 3600, r.kpE2, r.ciLowerE2, r.ciUpperE2, r.uncertaintyE4, None, r.fetchedAt)
  }

  /** The copy: None when two rows collide on the new key. */
  function Copied(rows: seq<OldRow>): Option<Table> {
    if rows == [] then Some(map[])
    else
      var r := rows[|rows| - 1];
      match Copied(rows[..|rows| - 1])
      case None => None
      case Some(t) => if NewKey(r) in t then None else Some(t[NewKey(r) := Relabelled(r)])
  }

  predicate WriteTimesDistinct(rows: seq<OldRow>) {
    forall i, j | 0 <= i < j < |rows| :: rows[i].fetchedAt != rows[j].fetchedAt
  }

  predicate Consistent(k: IssueKey, r: Row) {
    r.ts == k.issuedAt + k.horizon * 3600
  }

  function Inconsistent(t: Table): set<IssueKey> {
    set k | k in t && !Consistent(k, t[k])
  }

  ghost predicate IsNewKeyOf(rows: seq<OldRow>, k: IssueKey) {
    exists i | 0 <= i < |rows| :: NewKey(rows[i]) == k
  }

  lemma {:induction false} CopiedKeys(rows: seq<OldRow>, k: IssueKey)
    requires Copied(rows).Some?
    ensures k in Copied(rows).value <==> IsNewKeyOf(rows, k)
  {
    if rows != [] {
      var n := |rows| - 1;
      CopiedKeys(rows[..n], k);
      if IsNewKeyOf(rows[..n], k) { var i :| 0 <= i < n && NewKey(rows[..n][i]) == k; assert NewKey(rows[i]) == k; }
      if IsNewKeyOf(rows, k) && k != NewKey(rows[n]) {
        var i :| 0 <= i < |rows| && NewKey(rows[i]) == k;
        assert NewKey(rows[..n][i]) == k;
      }
    }
  }

  lemma {:induction false} CopiedRows(rows: seq<OldRow>, i: nat)
    requires Copied(rows).Some? && i < |rows|
    ensures NewKey(rows[i]) in Copied(rows).value && Copied(rows).value[NewKey(rows[i])] == Relabelled(rows[i])
    ensures |Copied(rows).value| == |rows|
  {
    var n := |rows| - 1;
    var before := Copied(rows[..n]).value;
    assert (before[NewKey(rows[n]) := Relabelled(rows[n])]).Keys == before.Keys + {NewKey(rows[n])};
    if n > 0 { CopiedRows(rows[..n], if i < n then i else 0); }
  }

  /** The copy succeeds exactly when no two rows were written at the same second. */
  lemma {:induction false} CopySucceedsWhen(rows: seq<OldRow>)
    ensures Copied(rows).Some? <==> WriteTimesDistinct(rows)
  {
    if rows != [] {
      var n := |rows| - 1;
      CopySucceedsWhen(rows[..n]);
      assert WriteTimesDistinct(rows) ==> WriteTimesDistinct(rows[..n]);
      if Copied(rows[..n]).Some? {
        CopiedKeys(rows[..n], NewKey(rows[n]));
        if IsNewKeyOf(rows[..n], NewKey(rows[n])) {
          var i :| 0 <= i < n && NewKey(rows[..n][i]) == NewKey(rows[n]);
          assert rows[i].fetchedAt == rows[n].fetchedAt;
        } else {
          forall i | 0 <= i < n
            ensures rows[i].fetchedAt != rows[n].fetchedAt
          {
            assert NewKey(rows[..n][i]) != NewKey(rows[n]);
          }
        }
      }
    }
  }

  // ---------------------------------------------------------------- the era fix

  predicate IsUnnamed(t: Table, boundary: int, k: IssueKey) {
    k in t && k.issuedAt >= boundary && t[k].modelSha.None?
  }

  function Unnamed(t: Table, boundary: int): set<IssueKey> {
    set k | k in t && IsUnnamed(t, boundary, k)
  }

  function FixedKey(k: IssueKey): IssueKey {
    IssueKey(k.issuedAt, 3)
  }

  function FixedRow(k: IssueKey, r: Row): Row {
    r.(ts := k.issuedAt + 3 * 3600, modelSha := Some(MODEL_061A_SHA))
  }

  /** The update would put two rows on one key. */
  predicate Collides(t: Table, boundary: int) {
    exists a, b | a in t && b in t :: a != b && IsUnnamed(t, boundary, a)
      && FixedKey(a) == if IsUnnamed(t, boundary, b) then FixedKey(b) else b
  }

  function Updated(t: Table, boundary: int): Table
    requires !Collides(t, boundary)
  {
    (map k | k in t && !IsUnnamed(t, boundary, k) :: t[k])
    + (map k | k in t && IsUnnamed(t, boundary, k) :: FixedKey(k) := FixedRow(k, t[k]))
  }

  /** What would be wrong after the boundary: no model, or a target off its own lead. */
  function Wrong(t: Table, boundary: int): set<IssueKey> {
    set k | k in t && k.issuedAt >= boundary && (t[k].modelSha.None? || !Consistent(k, t[k]))
  }

  /** The era fix on a table, before its migration is recorded. */
  function EraFixed(t: Table, boundary: int): Result<Table, MigrationError> {
    if Unnamed(t, boundary) == {} then Ok(t)
    else if Collides(t, boundary) then Err(ConstraintError)
    else if Wrong(Updated(t, boundary), boundary) == {} then Ok(Updated(t, boundary))
    else Err(NotVerified)
  }

  // ---------------------------------------------------------------- opening

  /** The forecast part of opening a database: its new contents, or the error with the
      contents the failed open leaves behind. */
  datatype Opened = Opened(forecasts: Forecasts, applied: set<Migration>, result: Result<(), MigrationError>)

  function AfterPurge(f: Forecasts, applied: set<Migration>): Forecasts {
    if PURGE in applied then f else if f.OldShape? then OldShape([]) else NewShape(map[])
  }

  function AfterRekey(f: Forecasts, applied: set<Migration>): Opened {
    match f
    case NewShape(_) => Opened(f, applied, Ok(()))
    case OldShape(rows) =>
      match Copied(rows)
      case None => Opened(f, applied, Err(CouldNotCopy))
      case Some(t) =>
        if REKEY in applied then Opened(NewShape(t), applied, Err(ConstraintError))
        else Opened(NewShape(t), applied + {REKEY}, Ok(()))
  }

  function AfterEraFix(f: Forecasts, applied: set<Migration>, boundary: int): Opened
    requires f.NewShape?
  {
    if ERA in applied then Opened(f, applied, Ok(()))
    else match EraFixed(f.table, boundary)
      case Ok(t) => Opened(NewShape(t), applied + {ERA}, Ok(()))
      case Err(e) => Opened(f, applied, Err(e))
  }

  /** `deployed` is the model file's own time, where the file can be read. */
  function Boundary(deployed: Option<int>): int {
    if deployed.Some? then deployed.value else MODEL_061A_DEPLOYED_AT
  }

  function Open(f: Forecasts, applied: set<Migration>, deployed: Option<int>): Opened {
    var o := AfterRekey(AfterPurge(f, applied), applied + {PURGE});
    if o.result.Err? then o else AfterEraFix(o.forecasts, o.applied, Boundary(deployed))
  }

  class Database {
    var forecasts: Forecasts
    var applied: set<Migration>

    constructor (f: Forecasts, applied: set<Migration>)
      ensures forecasts == f && this.applied == applied
    {
      this.forecasts, this.applied := f, applied;
    }

    method OpenForecasts(deployed: Option<int>) returns (result: Result<(), MigrationError>)
      modifies this
      ensures Opened(forecasts, applied, result) == Open(old(forecasts), old(applied), deployed)
    {
      if PURGE !in applied {
        forecasts := if forecasts.OldShape? then OldShape([]) else NewShape(map[]);
        applied := applied + {PURGE};
      } else {
        assert applied + {PURGE} == applied;
      }
      if forecasts.OldShape? {
        result := Rekey();
        if result.Err? {
          return;
        }
      }
      if ERA !in applied {
        result := EraFix(Boundary(deployed));
        return;
      }
      return Ok(());
    }

    /** Copy row by row into a new table, verify, and only then swap. */
    method Rekey() returns (result: Result<(), MigrationError>)
      requires forecasts.OldShape?
      modifies this
      ensures Opened(forecasts, applied, result) == AfterRekey(old(forecasts), old(applied))
    {
      var rows := forecasts.rows;
      var copy: Table := map[];
      for i := 0 to |rows|
        invariant Copied(rows[..i]) == Some(copy)
      {
        assert rows[..i + 1][..i] == rows[..i];
        if NewKey(rows[i]) in copy {
          CopyFails(rows, i + 1);
          return Err(CouldNotCopy);
        }
        copy := copy[NewKey(rows[i]) := Relabelled(rows[i])];
      }
      assert rows[..|rows|] == rows;
      RekeyGateNeverTrips(rows);
      if !(|copy| == |rows| && Inconsistent(copy) == {}) {
        return Err(NotVerified);
      }
      forecasts := NewShape(copy);
      if REKEY in applied {
        return Err(ConstraintError);
      }
      applied := applied + {REKEY};
      return Ok(());
    }

    /** Update inside a transaction, verify, and commit or roll back. */
    method EraFix(boundary: int) returns (result: Result<(), MigrationError>)
      requires forecasts.NewShape? && ERA !in applied
      modifies this
      ensures Opened(forecasts, applied, result) == AfterEraFix(old(forecasts), old(applied), boundary)
    {
      var table := forecasts.table;
      var expected := |Unnamed(table, boundary)|;
      if expected > 0 {
        if Collides(table, boundary) {
          return Err(ConstraintError);
        }
        forecasts := NewShape(Updated(table, boundary));
        var updated := |Unnamed(table, boundary)|;
        if !(updated == expected && Wrong(forecasts.table, boundary) == {}) {
          forecasts := NewShape(table);
          return Err(NotVerified);
        }
      }
      applied := applied + {ERA};
      return Ok(());
    }
  }

  lemma CopyFails(rows: seq<OldRow>, n: nat)
    requires n <= |rows| && Copied(rows[..n]).None?
    ensures Copied(rows).None?
  {
    CopySucceedsWhen(rows[..n]);
    CopySucceedsWhen(rows);
    DistinctPrefix(rows, n);
  }

  lemma DistinctPrefix(rows: seq<OldRow>, n: nat)
    requires n <= |rows|
    ensures WriteTimesDistinct(rows) ==> WriteTimesDistinct(rows[..n])
  {
  }

  /** The rekey's gate cannot fail on a copy that succeeded. */
  lemma {:induction false} RekeyGateNeverTrips(rows: seq<OldRow>)
    requires Copied(rows).Some?
    ensures |Copied(rows).value| == |rows| && Inconsistent(Copied(rows).value) == {}
  {
    if rows != [] { CopiedRows(rows, 0); }
    forall k | k in Copied(rows).value
      ensures Consistent(k, Copied(rows).value[k])
    {
      CopiedKeys(rows, k);
      var i :| 0 <= i < |rows| && NewKey(rows[i]) == k;
      CopiedRows(rows, i);
    }
  }

  // ---------------------------------------------------------------- what opening guarantees

  /** Where an old row must end up. */
  function TargetKey(r: OldRow, boundary: int): IssueKey {
    IssueKey(r.fetchedAt, if r.fetchedAt >= boundary then 3 else 6)
  }

  function TargetRow(r: OldRow, boundary: int): Row {
    Row(r.fetchedAt + 3600 * TargetKey(r, boundary).horizon, r.kpE2, r.ciLowerE2, r.ciUpperE2, r.uncertaintyE4,
        if r.fetchedAt >= boundary then Some(MODEL_061A_SHA) else None, r.fetchedAt)
  }

  ghost predicate IsTargetOf(rows: seq<OldRow>, boundary: int, k: IssueKey) {
    exists i | 0 <= i < |rows| :: TargetKey(rows[i], boundary) == k
  }

  /** No row lost or invented, every predicted value kept, every target on its own lead,
      and the rows at or after the boundary, and only those, named and called 3 h. */
  ghost predicate IsMigrated(rows: seq<OldRow>, boundary: int, t: Table) {
    && |t| == |rows|
    && (forall i | 0 <= i < |rows| ::
          TargetKey(rows[i], boundary) in t && t[TargetKey(rows[i], boundary)] == TargetRow(rows[i], boundary))
    && (forall k | k in t :: IsTargetOf(rows, boundary, k) && Consistent(k, t[k]))
  }

  /** Opening an old-shape database, with the purge recorded and neither migration yet:
      distinct write times give the migrated table; a collision gives an error and leaves
      the original rows as they were. */
  lemma {:induction false} OpeningMigratesOrLeavesAlone(rows: seq<OldRow>, applied: set<Migration>,
      deployed: Option<int>)
    requires PURGE in applied && REKEY !in applied && ERA !in applied
    ensures var o := Open(OldShape(rows), applied, deployed);
            if WriteTimesDistinct(rows)
            then o.result.Ok? && o.forecasts.NewShape?
              && IsMigrated(rows, if deployed.Some? then deployed.value else 1788236177, o.forecasts.table)
              && o.applied == applied + {REKEY, ERA}
            else o.result == Err(CouldNotCopy) && o.forecasts == OldShape(rows) && o.applied == applied
  {
    hide IsMigrated, EraFixed, Copied, WriteTimesDistinct;
    assert applied + {PURGE} == applied;
    CopySucceedsWhen(rows);
    if WriteTimesDistinct(rows) {
      EraFixAfterCopy(rows, Boundary(deployed));
      assert applied + {REKEY} + {ERA} == applied + {REKEY, ERA};
    }
  }

  lemma {:induction false} EraFixAfterCopy(rows: seq<OldRow>, boundary: int)
    requires Copied(rows).Some?
    ensures EraFixed(Copied(rows).value, boundary).Ok?
    ensures IsMigrated(rows, boundary, EraFixed(Copied(rows).value, boundary).value)
  {
    hide IsMigrated, Updated, Copied, Wrong, Collides, Unnamed;
    SixHourTablesDoNotCollide(rows, boundary);
    UpdatedIsMigrated(rows, boundary);
    UpdateOfNothing(Copied(rows).value, boundary);
  }

  lemma UpdateOfNothing(t: Table, boundary: int)
    requires !Collides(t, boundary)
    ensures Unnamed(t, boundary) == {} ==> Updated(t, boundary) == t
  {
    if Unnamed(t, boundary) == {} {
      assert forall k | k in t :: k !in Unnamed(t, boundary);
    }
  }

  lemma {:induction false} UpdatedIsMigrated(rows: seq<OldRow>, boundary: int)
    requires Copied(rows).Some? && !Collides(Copied(rows).value, boundary)
    ensures var u := Updated(Copied(rows).value, boundary); IsMigrated(rows, boundary, u) && Wrong(u, boundary) == {}
  {
    hide Updated, Copied, Collides;
    var u := Updated(Copied(rows).value, boundary);
    forall k | k in u
      ensures IsTargetOf(rows, boundary, k) && Consistent(k, u[k]) && (k.issuedAt >= boundary ==> u[k].modelSha.Some?)
    {
      var i := UpdatedKey(rows, boundary, k);
      UpdatedRow(rows, boundary, i);
    }
    forall i | 0 <= i < |rows|
      ensures TargetKey(rows[i], boundary) in u && u[TargetKey(rows[i], boundary)] == TargetRow(rows[i], boundary)
    {
      UpdatedRow(rows, boundary, i);
    }
    CopySucceedsWhen(rows);
    SameSize(rows, boundary, u);
  }

  lemma SixHourTablesDoNotCollide(rows: seq<OldRow>, boundary: int)
    requires Copied(rows).Some?
    ensures !Collides(Copied(rows).value, boundary)
  {
    var t := Copied(rows).value;
    forall k | k in t
      ensures k.horizon == 6
    {
      CopiedKeys(rows, k);
    }
  }

  lemma {:induction false} UpdatedRow(rows: seq<OldRow>, boundary: int, i: nat)
    requires Copied(rows).Some? && i < |rows| && !Collides(Copied(rows).value, boundary)
    ensures var u := Updated(Copied(rows).value, boundary);
            TargetKey(rows[i], boundary) in u && u[TargetKey(rows[i], boundary)] == TargetRow(rows[i], boundary)
  {
    hide Copied, Updated, Collides;
    CopiedRows(rows, i);
    UpdatedAt(Copied(rows).value, boundary, NewKey(rows[i]));
  }

  /** What the update does to one row of a table without collisions. */
  lemma UpdatedAt(t: Table, boundary: int, k: IssueKey)
    requires !Collides(t, boundary) && k in t
    ensures var u := Updated(t, boundary);
            if IsUnnamed(t, boundary, k) then FixedKey(k) in u && u[FixedKey(k)] == FixedRow(k, t[k])
            else k in u && u[k] == t[k]
  {
    var u := Updated(t, boundary);
    if IsUnnamed(t, boundary, k) {
      assert FixedKey(k) in u;
    } else {
      forall a | a in t && IsUnnamed(t, boundary, a)
        ensures FixedKey(a) != k
      {
      }
    }
  }

  lemma UpdatedFrom(t: Table, boundary: int, k: IssueKey) returns (from: IssueKey)
    requires !Collides(t, boundary) && k in Updated(t, boundary)
    ensures from in t && k == if IsUnnamed(t, boundary, from) then FixedKey(from) else from
    ensures Updated(t, boundary)[k] == if IsUnnamed(t, boundary, from) then FixedRow(from, t[from]) else t[from]
  {
    from :| from in t && k == if IsUnnamed(t, boundary, from) then FixedKey(from) else from;
    UpdatedAt(t, boundary, from);
  }

  lemma {:induction false} UpdatedKey(rows: seq<OldRow>, boundary: int, k: IssueKey) returns (i: nat)
    requires Copied(rows).Some? && !Collides(Copied(rows).value, boundary) && k in Updated(Copied(rows).value, boundary)
    ensures i < |rows| && TargetKey(rows[i], boundary) == k
  {
    var from := UpdatedFrom(Copied(rows).value, boundary, k);
    CopiedKeys(rows, from);
    i :| 0 <= i < |rows| && NewKey(rows[i]) == from;
    CopiedRows(rows, i);
  }

  lemma {:induction false} SameSize(rows: seq<OldRow>, boundary: int, t: Table)
    requires WriteTimesDistinct(rows)
    requires forall i | 0 <= i < |rows| :: TargetKey(rows[i], boundary) in t
    requires forall k | k in t :: IsTargetOf(rows, boundary, k)
    ensures |t| == |rows|
    decreases |rows|
  {
    if rows == [] {
      assert t.Keys == {};
    } else {
      var n := |rows| - 1;
      var last := TargetKey(rows[n], boundary);
      var u := t - {last};
      assert t.Keys == u.Keys + {last};
      forall i | 0 <= i < n
        ensures TargetKey(rows[..n][i], boundary) in u
      {
        assert rows[i].fetchedAt != rows[n].fetchedAt;
      }
      forall k | k in u
        ensures IsTargetOf(rows[..n], boundary, k)
      {
        var i :| 0 <= i < |rows| && k == TargetKey(rows[i], boundary);
        assert rows[..n][i] == rows[i];
      }
      SameSize(rows[..n], boundary, u);
    }
  }

  /** Before the purge is recorded nothing stored survives an opening, whatever is recorded
      besides: the table is empty and new, and the purge recorded. The one failure is an
      old-shape table in a database that has the rekey on record. */
  lemma AFirstOpeningStartsAfresh(f: Forecasts, applied: set<Migration>, deployed: Option<int>)
    requires PURGE !in applied
    ensures var o := Open(f, applied, deployed);
            && o.forecasts == NewShape(map[]) && PURGE in o.applied
            && (o.result.Err? <==> f.OldShape? && REKEY in applied)
            && (o.result.Ok? ==> o.applied == applied + {PURGE, ERA} + if f.OldShape? then {REKEY} else {})
  {
    var none: seq<OldRow> := [];
    assert Copied(none) == Some(map[]);
    assert forall boundary :: Unnamed(map[], boundary) == {};
    var o := Open(f, applied, deployed);
    if o.result.Ok? { assert o.applied == applied + {PURGE, ERA} + if f.OldShape? then {REKEY} else {}; }
  }

  /** Once the purge and the era fix are recorded, opening leaves a new-shape table as it is. */
  lemma ARecordedOpeningKeepsTheTable(t: Table, applied: set<Migration>, deployed: Option<int>)
    requires PURGE in applied && ERA in applied
    ensures Open(NewShape(t), applied, deployed) == Opened(NewShape(t), applied, Ok(()))
  {
    assert applied + {PURGE} == applied;
  }

  /** A second open, with any boundary, changes nothing. */
  lemma OpeningAgainChangesNothing(f: Forecasts, applied: set<Migration>, deployed: Option<int>, later: Option<int>)
    requires Open(f, applied, deployed).result.Ok?
    ensures var o := Open(f, applied, deployed); Open(o.forecasts, o.applied, later) == o
  {
  }

  /** On any new-shape table the era fix succeeds exactly when there is nothing to fix, or
      no key collides and every row already named after the boundary keeps its own lead. */
  lemma {:induction false} EraFixSucceedsWhen(t: Table, boundary: int)
    ensures EraFixed(t, boundary).Ok? <==>
            Unnamed(t, boundary) == {}
            || (!Collides(t, boundary) && forall k | k in t && k.issuedAt >= boundary
               && t[k].modelSha.Some? :: Consistent(k, t[k]))
    ensures EraFixed(t, boundary).Ok? ==> Unnamed(EraFixed(t, boundary).value, boundary) == {}
  {
    hide Updated;
    if !Collides(t, boundary) {
      var u := Updated(t, boundary);
      forall k | k in u
        ensures k.issuedAt >= boundary ==> u[k].modelSha.Some?
        ensures !Consistent(k, u[k]) ==> k in t && u[k] == t[k]
      {
        var from := UpdatedFrom(t, boundary, k);
      }
      forall k | k in t && k.issuedAt >= boundary && t[k].modelSha.Some?
        ensures k in u && u[k] == t[k]
      {
        UpdatedAt(t, boundary, k);
      }
      EraFixVerifies(t, u, boundary);
    }
  }

  /** Rows the fix is for: made from the boundary on, no model named. */
  predicate NeedsName(t: Table, boundary: int, k: IssueKey) {
    k in t && k.issuedAt >= boundary && t[k].modelSha == None
  }

  /** Two rows of one issue would meet at 3 h: one that needs its name, and another that
      needs its own or is there already. */
  predicate MeetAtThree(t: Table, boundary: int, a: IssueKey, b: IssueKey) {
    && NeedsName(t, boundary, a) && b in t && a != b && a.issuedAt == b.issuedAt
    && (NeedsName(t, boundary, b) || b.horizon == 3)
  }

  /** What the fix does to any new-shape table, row by row: a row that needs its name is
      named, called 3 h and given the target of 3 h, and keeps everything else; the others
      are not touched, and there are no more. Where rows would meet it is refused. */
  lemma {:induction false} EraFixRowByRow(t: Table, boundary: int)
    ensures EraFixed(t, boundary) == Err(ConstraintError) <==> exists a, b :: MeetAtThree(t, boundary, a, b)
    ensures EraFixed(t, boundary).Ok? ==>
        var u := EraFixed(t, boundary).value;
        && (forall k | k in t && !NeedsName(t, boundary, k) :: k in u && u[k] == t[k])
        && (forall k | NeedsName(t, boundary, k) ::
              IssueKey(k.issuedAt, 3) in u && u[IssueKey(k.issuedAt, 3)] ==
                t[k].(ts := k.issuedAt + 10800, modelSha := Some(MODEL_061A_SHA)))
        && (forall k | k in u ::
              (k in t && !NeedsName(t, boundary, k))
              || (k.horizon == 3 && exists h :: NeedsName(t, boundary, IssueKey(k.issuedAt, h))))
  {
    hide Updated;
    CollidesExactlyWhen(t, boundary);
    if !Collides(t, boundary) {
      UpdateOfNothing(t, boundary);
      forall k | k in t
        ensures var u := Updated(t, boundary);
                if NeedsName(t, boundary, k) then FixedKey(k) in u && u[FixedKey(k)] == FixedRow(k, t[k])
                else k in u && u[k] == t[k]
      {
        UpdatedAt(t, boundary, k);
      }
      forall k | k in Updated(t, boundary)
        ensures (k in t && !NeedsName(t, boundary, k))
                || (k.horizon == 3 && exists h :: NeedsName(t, boundary, IssueKey(k.issuedAt, h)))
      {
        var from := UpdatedFrom(t, boundary, k);
        assert from == IssueKey(from.issuedAt, from.horizon);
      }
    }
  }

  lemma {:induction false} CollidesExactlyWhen(t: Table, boundary: int)
    ensures Collides(t, boundary) <==> exists a, b :: MeetAtThree(t, boundary, a, b)
    ensures Collides(t, boundary) ==> Unnamed(t, boundary) != {}
  {
    if Collides(t, boundary) {
      var a, b :| a in t && b in t && a != b && IsUnnamed(t, boundary, a)
        && FixedKey(a) == if IsUnnamed(t, boundary, b) then FixedKey(b) else b;
      assert MeetAtThree(t, boundary, a, b);
      assert a in Unnamed(t, boundary);
    }
    if a, b :| MeetAtThree(t, boundary, a, b) {
      assert IsUnnamed(t, boundary, a) && FixedKey(a) == if IsUnnamed(t, boundary, b) then FixedKey(b) else b;
    }
  }

  lemma EraFixVerifies(t: Table, u: Table, boundary: int)
    requires forall k | k in u :: (k.issuedAt >= boundary ==>
        u[k].modelSha.Some?) && (!Consistent(k, u[k]) ==> k in t && u[k] == t[k])
    requires forall k | k in t && k.issuedAt >= boundary && t[k].modelSha.Some? :: k in u && u[k] == t[k]
    ensures Wrong(u, boundary) == {} <==>
        forall k | k in t && k.issuedAt >= boundary && t[k].modelSha.Some? :: Consistent(k, t[k])
    ensures Unnamed(u, boundary) == {}
  {
    forall k | k in Wrong(u, boundary)
      ensures k in t && k.issuedAt >= boundary && t[k].modelSha.Some? && !Consistent(k, t[k])
    {
    }
    forall k | k in t && k.issuedAt >= boundary && t[k].modelSha.Some? && !Consistent(k, t[k])
      ensures k in Wrong(u, boundary)
    {
    }
  }
}
