/** The two feeds that carry each minute from two spacecraft, `solar_wind` and `imf`:
    the batch insert that keeps one row per (minute, source), and the reads that choose
    one row per minute for display or for a decision. */
module SeriesStore {
  import opened Prelude
  import opened TextOrder

  datatype Measured =
    | Wind(speedE1: Option<int>, densityE2: Option<int>, tempK: Option<int>)
    | Field(bzE2: Option<int>, btE2: Option<int>)
  {
    /** The column decisions are taken on. */
    function Deciding(): Option<int> {
      match this
      case Wind(speed, _, _) => speed
      case Field(bz, _) => bz
    }
  }

  /** One record of a batch, with the clock reading of its own insert statement. */
  datatype Offer = Offer(timeTag: string, measured: Measured, source: Option<string>, active: Option<bool>, at: int)

  datatype Key = Key(minute: int, source: string)
  datatype Row = Row(timeTag: string, measured: Measured, fetchedAt: int, active: Option<bool>)
  datatype Keyed = Keyed(key: Key, offer: Offer)
  datatype DbError = ConstraintError

  type Table = map<Key, Row>
  /** Observation time of a time tag; None where the database's cast fails. */
  type Clock = string -> Option<int>

  predicate Flagged(active: Option<bool>) {
    active == Some(true)
  }

  // ---------------------------------------------------------------- insert

  /** The key of an offer, None when the insert statement would be refused. */
  function Resolve(clock: Clock, o: Offer): Option<Keyed> {
    match (clock(o.timeTag), o.source)
    case (Some(minute), Some(source)) => Some(Keyed(Key(minute, source), o))
    case _ => None
  }

  function Upsert(t: Table, x: Keyed): Table {
    var o := x.offer;
    if x.key !in t then t[x.key := Row(o.timeTag, o.measured, o.at, o.active)]
    else if Flagged(o.active) && !Flagged(t[x.key].active) then
      t[x.key := Row(t[x.key].timeTag, o.measured, o.at, o.active)]
    else t
  }

  function Absorb(t: Table, xs: seq<Keyed>): Table {
    if xs == [] then t else Upsert(Absorb(t, xs[..|xs| - 1]), xs[|xs| - 1])
  }

  /** The keys of a whole batch, None when any record would be refused. */
  function ResolveAll(clock: Clock, os: seq<Offer>): (r: Option<seq<Keyed>>)
    ensures r.Some? ==> |r.value| == |os|
    ensures r.Some? <==> forall i | 0 <= i < |os| :: Resolve(clock, os[i]).Some?
  {
    if os == [] then Some([])
    else match (ResolveAll(clock, os[..|os| - 1]), Resolve(clock, os[|os| - 1]))
      case (Some(xs), Some(x)) => Some(xs + [x])
      case _ => None
  }

  class Store {
    const clock: Clock
    var rows: Table

    constructor (clock: Clock)
      ensures this.clock == clock && rows == map[]
    {
      this.clock := clock;
      rows := map[];
    }

    /** All of the batch or none of it. */
    method InsertBatch(records: seq<Offer>) returns (result: Result<(), DbError>)
      modifies this`rows
      ensures result.Ok? <==> AllTaken(clock, records)
      ensures rows == match ResolveAll(clock, records)
                      case Some(xs) => Absorb(old(rows), xs)
                      case None => old(rows)
    {
      hide Upsert;
      if records == [] {
        return Ok(());
      }
      var begun := rows;
      ghost var done: seq<Keyed> := [];
      for i := 0 to |records|
        invariant ResolveAll(clock, records[..i]) == Some(done)
        invariant rows == Absorb(begun, done)
      {
        var x := Resolve(clock, records[i]);
        assert records[..i + 1][..i] == records[..i];
        if x.None? {
          RefusedExactlyWhen(clock, records);
          rows := begun;
          return Err(ConstraintError);
        }
        rows := Upsert(rows, x.value);
        assert (done + [x.value])[..i] == done;
        done := done + [x.value];
      }
      assert records[..|records|] == records;
      RefusedExactlyWhen(clock, records);
      return Ok(());
    }
  }

  // ---------------------------------------------------------------- closed form

  function ForKey(xs: seq<Keyed>, k: Key): seq<Offer> {
    if xs == [] then []
    else
      var last := xs[|xs| - 1];
      ForKey(xs[..|xs| - 1], k) + if last.key == k then [last.offer] else []
  }

  predicate AnyActive(os: seq<Offer>) {
    exists i | 0 <= i < |os| :: Flagged(os[i].active)
  }

  /** The first active offer, or the first of all when none was active. */
  function Chosen(os: seq<Offer>): (o: Offer)
    requires os != []
    ensures o in os
  {
    if |os| == 1 || Flagged(os[0].active) || !AnyActive(os) then os[0] else Chosen(os[1..])
  }

  lemma {:induction false} ChosenAppend(os: seq<Offer>, o: Offer)
    requires os != []
    ensures Flagged(Chosen(os).active) <==> AnyActive(os)
    ensures Chosen(os + [o]) == if Flagged(o.active) && !AnyActive(os) then o else Chosen(os)
    decreases |os|
  {
    assert AnyActive(os + [o]) <==> AnyActive(os) || Flagged(o.active) by {
      if AnyActive(os) { var i :| 0 <= i < |os| && Flagged(os[i].active); assert (os + [o])[i] == os[i]; }
      if Flagged(o.active) { assert (os + [o])[|os|] == o; }
    }
    if |os| > 1 && !Flagged(os[0].active) {
      ChosenAppend(os[1..], o);
      assert (os + [o])[1..] == os[1..] + [o];
      assert AnyActive(os) <==> AnyActive(os[1..]) by {
        if AnyActive(os) { var i :| 0 <= i < |os| && Flagged(os[i].active); assert os[1..][i - 1] == os[i]; }
        if AnyActive(os[1..]) {
          var i :| 0 <= i < |os[1..]| && Flagged(os[1..][i].active);
          assert os[i + 1] == os[1..][i];
        }
      }
    } else if |os| == 1 {
      assert (os + [o])[1..] == [o];
      assert AnyActive(os) <==> Flagged(os[0].active);
    }
  }

  /** What a run of offers, however batched, leaves for every key. */
  lemma {:induction false} ClosedForm(xs: seq<Keyed>, k: Key)
    ensures k in Absorb(map[], xs) <==> ForKey(xs, k) != []
    ensures k in Absorb(map[], xs) ==>
              var os := ForKey(xs, k);
              Absorb(map[], xs)[k] == Row(os[0].timeTag, Chosen(os).measured, Chosen(os).at, Chosen(os).active)
  {
    if xs != [] {
      var before := ForKey(xs[..|xs| - 1], k);
      ClosedForm(xs[..|xs| - 1], k);
      if before != [] { ChosenAppend(before, xs[|xs| - 1].offer); }
      assert before + [] == before && [] + [xs[|xs| - 1].offer] == [xs[|xs| - 1].offer];
    }
  }

  /** A run of offers may be cut into batches anywhere. */
  lemma {:induction false} AbsorbAppend(t: Table, xs: seq<Keyed>, ys: seq<Keyed>)
    ensures Absorb(t, xs + ys) == Absorb(Absorb(t, xs), ys)
    decreases |ys|
  {
    if ys == [] {
      assert xs + ys == xs;
    } else {
      var zs := xs + ys;
      assert zs[..|zs| - 1] == xs + ys[..|ys| - 1];
      AbsorbAppend(t, xs, ys[..|ys| - 1]);
    }
  }

  /** The accepted batches of a run, in order, as one sequence of offers. */
  function Accepted(clock: Clock, batches: seq<seq<Offer>>): seq<Keyed> {
    if batches == [] then []
    else
      var n := |batches| - 1;
      match ResolveAll(clock, batches[n])
      case Some(xs) => Accepted(clock, batches[..n]) + xs
      case None => Accepted(clock, batches[..n])
  }

  /** The table after a run of batch inserts, each committed or rolled back. */
  function RunBatches(clock: Clock, batches: seq<seq<Offer>>): Table {
    if batches == [] then map[]
    else
      var n := |batches| - 1;
      match ResolveAll(clock, batches[n])
      case Some(xs) => Absorb(RunBatches(clock, batches[..n]), xs)
      case None => RunBatches(clock, batches[..n])
  }

  lemma {:induction false} RunIsOneBatch(clock: Clock, batches: seq<seq<Offer>>)
    ensures RunBatches(clock, batches) == Absorb(map[], Accepted(clock, batches))
  {
    if batches != [] {
      var n := |batches| - 1;
      RunIsOneBatch(clock, batches[..n]);
      if ResolveAll(clock, batches[n]).Some? {
        AbsorbAppend(map[], Accepted(clock, batches[..n]), ResolveAll(clock, batches[n]).value);
      }
    }
  }

  /** After any run of batch inserts, however the records were cut into batches, each key
      holds the first active record ever accepted for it, or the first of all if none was. */
  lemma RunClosedForm(clock: Clock, batches: seq<seq<Offer>>, k: Key)
    ensures var t, os := RunBatches(clock, batches), ForKey(Accepted(clock, batches), k);
            && (k in t <==> os != [])
            && (k in t ==>
                  && t[k].measured == Chosen(os).measured && t[k].active == Chosen(os).active
                  && t[k].timeTag == os[0].timeTag)
  {
    RunIsOneBatch(clock, batches);
    ClosedForm(Accepted(clock, batches), k);
  }

  /** `Chosen` by position: nothing before it is active, and unless it is active itself
      nothing is and it is the first. */
  lemma {:induction false} ChosenIsFirstActive(os: seq<Offer>)
    requires os != []
    ensures exists i | 0 <= i < |os| :: os[i] == Chosen(os)
              && (forall j | 0 <= j < i :: !Flagged(os[j].active))
              && (Flagged(os[i].active) || (i == 0 && !AnyActive(os)))
  {
    if |os| == 1 || Flagged(os[0].active) || !AnyActive(os) {
      assert os[0] == Chosen(os);
      assert AnyActive(os) && |os| == 1 ==> Flagged(os[0].active);
    } else {
      var j :| 0 <= j < |os| && Flagged(os[j].active);
      assert os[1..][j - 1] == os[j];
      ChosenIsFirstActive(os[1..]);
      var i :| 0 <= i < |os[1..]| && os[1..][i] == Chosen(os[1..])
        && (forall j | 0 <= j < i :: !Flagged(os[1..][j].active))
               && (Flagged(os[1..][i].active) || (i == 0 && !AnyActive(os[1..])));
      assert os[i + 1] == Chosen(os);
      assert AnyActive(os[1..]);
      forall k | 0 <= k < i + 1
        ensures !Flagged(os[k].active)
      {
        if k > 0 { assert os[1..][k - 1] == os[k]; }
      }
    }
  }

  /** Same key, same measured values and same flag; the fetch time may differ. */
  predicate SameRecord(x: Keyed, y: Keyed) {
    x.key == y.key && x.offer.measured == y.offer.measured && x.offer.active == y.offer.active
  }

  /** Fetching again records already offered changes no stored value and no flag. */
  lemma {:induction false} RefetchIsANoOp(xs: seq<Keyed>, again: seq<Keyed>)
    requires forall j | 0 <= j < |again| :: exists i | 0 <= i < |xs| :: SameRecord(xs[i], again[j])
    ensures Absorb(map[], xs + again) == Absorb(map[], xs)
    decreases |again|
  {
    if again == [] {
      assert xs + again == xs;
    } else {
      var y := again[|again| - 1];
      var zs := xs + again;
      assert zs[..|zs| - 1] == xs + again[..|again| - 1];
      RefetchIsANoOp(xs, again[..|again| - 1]);
      var i :| 0 <= i < |xs| && SameRecord(xs[i], again[|again| - 1]);
      var x := xs[i];
      ClosedForm(xs, x.key);
      OfferedForKey(xs, x);
      var os := ForKey(xs, x.key);
      if Flagged(x.offer.active) { assert AnyActive(os); }
      ChosenAppend(os, x.offer);
    }
  }

  lemma {:induction false} OfferedForKey(xs: seq<Keyed>, x: Keyed)
    requires x in xs
    ensures x.offer in ForKey(xs, x.key)
  {
    if x != xs[|xs| - 1] { OfferedForKey(xs[..|xs| - 1], x); }
  }

  lemma {:induction false} ForKeyOffered(xs: seq<Keyed>, k: Key, o: Offer)
    requires o in ForKey(xs, k)
    ensures Keyed(k, o) in xs
  {
    if Keyed(k, o) != xs[|xs| - 1] { ForKeyOffered(xs[..|xs| - 1], k, o); }
  }

  predicate KeysDistinct(xs: seq<Keyed>) {
    forall i, j | 0 <= i < j < |xs| :: xs[i].key != xs[j].key
  }

  /** When no key repeats, the order of the records does not matter. */
  lemma OrderIsIrrelevant(xs: seq<Keyed>, ys: seq<Keyed>)
    requires KeysDistinct(xs) && multiset(xs) == multiset(ys)
    ensures Absorb(map[], xs) == Absorb(map[], ys)
  {
    hide Absorb, ForKey, KeysDistinct;
    DistinctPermutes(xs, ys);
    forall k
      ensures k in Absorb(map[], xs) <==> k in Absorb(map[], ys)
      ensures k in Absorb(map[], xs) ==> Absorb(map[], xs)[k] == Absorb(map[], ys)[k]
    {
      SameForKey(xs, ys, k);
      ClosedForm(xs, k);
      ClosedForm(ys, k);
    }
  }

  lemma SameForKey(xs: seq<Keyed>, ys: seq<Keyed>, k: Key)
    requires KeysDistinct(xs) && KeysDistinct(ys) && multiset(xs) == multiset(ys)
    ensures ForKey(xs, k) == ForKey(ys, k)
  {
    hide ForKey, KeysDistinct;
    SingleForKey(xs, k);
    SingleForKey(ys, k);
    if ForKey(xs, k) != [] { SameOffered(xs, ys, k, ForKey(xs, k)[0]); }
    if ForKey(ys, k) != [] { SameOffered(ys, xs, k, ForKey(ys, k)[0]); }
  }

  lemma SameOffered(xs: seq<Keyed>, ys: seq<Keyed>, k: Key, o: Offer)
    requires multiset(xs) == multiset(ys) && o in ForKey(xs, k)
    ensures o in ForKey(ys, k)
  {
    hide ForKey;
    ForKeyOffered(xs, k, o);
    assert Keyed(k, o) in multiset(xs);
    assert Keyed(k, o) in ys;
    OfferedForKey(ys, Keyed(k, o));
  }

  lemma {:induction false} SingleForKey(xs: seq<Keyed>, k: Key)
    requires KeysDistinct(xs)
    ensures |ForKey(xs, k)| <= 1
  {
    if xs != [] {
      SingleForKey(xs[..|xs| - 1], k);
      if ForKey(xs[..|xs| - 1], k) != [] {
        var o := ForKey(xs[..|xs| - 1], k)[0];
        ForKeyOffered(xs[..|xs| - 1], k, o);
      }
    }
  }

  lemma {:induction false} DistinctPermutes(xs: seq<Keyed>, ys: seq<Keyed>)
    requires KeysDistinct(xs) && multiset(xs) == multiset(ys)
    ensures KeysDistinct(ys)
  {
    forall i, j | 0 <= i < j < |ys|
      ensures ys[i].key != ys[j].key
    {
      assert ys[i] in multiset(ys) && ys[j] in multiset(ys);
      assert ys[i] in xs && ys[j] in xs;
      if ys[i] == ys[j] {
        assert multiset(ys)[ys[i]] >= 2 by { Twice(ys, i, j); }
        Once(xs, ys[i]);
      }
    }
  }

  lemma Twice(ys: seq<Keyed>, i: nat, j: nat)
    requires i < j < |ys| && ys[i] == ys[j]
    ensures multiset(ys)[ys[i]] >= 2
  {
    assert ys == ys[..j] + ys[j..];
    assert ys[i] in ys[..j] && ys[j] in ys[j..];
    assert multiset(ys) == multiset(ys[..j]) + multiset(ys[j..]);
    assert ys[..j][i] in multiset(ys[..j]) && ys[j..][0] in multiset(ys[j..]);
  }

  lemma {:induction false} Once(xs: seq<Keyed>, x: Keyed)
    requires KeysDistinct(xs)
    ensures multiset(xs)[x] <= 1
  {
    if xs != [] {
      var n := |xs| - 1;
      assert xs == xs[..n] + [xs[n]];
      assert multiset(xs) == multiset(xs[..n]) + multiset([xs[n]]);
      Once(xs[..n], x);
      if x == xs[n] { assert x !in xs[..n]; }
    }
  }

  // ---------------------------------------------------------------- on the raw records

  /** Every record's tag casts and every record names a source. */
  predicate AllTaken(clock: Clock, os: seq<Offer>) {
    forall i | 0 <= i < |os| :: clock(os[i].timeTag).Some? && os[i].source.Some?
  }

  /** So a batch is refused exactly when some record's tag does not cast or it has no source. */
  lemma {:induction false} RefusedExactlyWhen(clock: Clock, os: seq<Offer>)
    ensures ResolveAll(clock, os).Some? <==> AllTaken(clock, os)
  {
  }

  /** The records of the batches that were taken whole, in order. */
  function Committed(clock: Clock, batches: seq<seq<Offer>>): seq<Offer> {
    if batches == [] then []
    else
      var last := batches[|batches| - 1];
      Committed(clock, batches[..|batches| - 1]) + if AllTaken(clock, last) then last else []
  }

  lemma {:induction false} CommittedMembers(clock: Clock, batches: seq<seq<Offer>>, o: Offer)
    ensures o in Committed(clock, batches) <==>
        exists b | 0 <= b < |batches| :: o in batches[b] && AllTaken(clock, batches[b])
  {
    hide AllTaken;
    if batches != [] {
      var n := |batches| - 1;
      CommittedMembers(clock, batches[..n], o);
      assert forall b | 0 <= b < n :: batches[..n][b] == batches[b];
    }
  }

  predicate IsOf(clock: Clock, o: Offer, minute: int, source: string) {
    clock(o.timeTag) == Some(minute) && o.source == Some(source)
  }

  /** Of those, the ones of one minute and one spacecraft. */
  function Of(clock: Clock, os: seq<Offer>, minute: int, source: string): seq<Offer> {
    if os == [] then []
    else
      var last := os[|os| - 1];
      Of(clock, os[..|os| - 1], minute, source) + if IsOf(clock, last, minute, source) then [last] else []
  }

  lemma {:induction false} OfAppend(clock: Clock, os: seq<Offer>, ps: seq<Offer>, minute: int, source: string)
    ensures Of(clock, os + ps, minute, source) == Of(clock, os, minute, source) + Of(clock, ps, minute, source)
    decreases |ps|
  {
    if ps == [] {
      assert os + ps == os;
      assert Of(clock, os, minute, source) + [] == Of(clock, os, minute, source);
    } else {
      assert (os + ps)[..|os + ps| - 1] == os + ps[..|ps| - 1];
      OfAppend(clock, os, ps[..|ps| - 1], minute, source);
    }
  }

  lemma {:induction false} ForKeyAppend(xs: seq<Keyed>, ys: seq<Keyed>, k: Key)
    ensures ForKey(xs + ys, k) == ForKey(xs, k) + ForKey(ys, k)
    decreases |ys|
  {
    if ys == [] {
      assert xs + ys == xs;
      assert ForKey(xs, k) + [] == ForKey(xs, k);
    } else {
      assert (xs + ys)[..|xs + ys| - 1] == xs + ys[..|ys| - 1];
      ForKeyAppend(xs, ys[..|ys| - 1], k);
    }
  }

  lemma {:induction false} ResolvedForKey(clock: Clock, os: seq<Offer>, minute: int, source: string)
    requires ResolveAll(clock, os).Some?
    ensures ForKey(ResolveAll(clock, os).value, Key(minute, source)) == Of(clock, os, minute, source)
  {
    if os != [] {
      var n := |os| - 1;
      ResolvedForKey(clock, os[..n], minute, source);
      var xs := ResolveAll(clock, os[..n]).value;
      var x := Resolve(clock, os[n]).value;
      assert (xs + [x])[..n] == xs;
    }
  }

  lemma {:induction false} AcceptedForKey(clock: Clock, batches: seq<seq<Offer>>, minute: int, source: string)
    ensures ForKey(Accepted(clock, batches), Key(minute, source)) ==
        Of(clock, Committed(clock, batches), minute, source)
  {
    if batches != [] {
      var n := |batches| - 1;
      var before := Committed(clock, batches[..n]);
      AcceptedForKey(clock, batches[..n], minute, source);
      RefusedExactlyWhen(clock, batches[n]);
      hide Resolve, ResolveAll, Of, ForKey;
      if ResolveAll(clock, batches[n]).Some? {
        ResolvedForKey(clock, batches[n], minute, source);
        OfAppend(clock, before, batches[n], minute, source);
        ForKeyAppend(Accepted(clock, batches[..n]), ResolveAll(clock, batches[n]).value, Key(minute, source));
      } else {
        assert before + [] == before;
      }
    }
  }

  lemma {:induction false} OfMembers(clock: Clock, os: seq<Offer>, minute: int, source: string, o: Offer)
    ensures o in Of(clock, os, minute, source) <==>
        o in os && clock(o.timeTag) == Some(minute) && o.source == Some(source)
  {
    if os != [] {
      OfMembers(clock, os[..|os| - 1], minute, source, o);
      assert os == os[..|os| - 1] + [os[|os| - 1]];
    }
  }

  /** What is stored, on the records as they were offered. After any run there is a row for a
      minute and a spacecraft exactly when some record of a batch that was taken casts to
      that minute and names that spacecraft. The row carries the first such record's tag,
      and the values and flag of the first of them flagged active, or of the first of all
      when none is. */
  lemma {:induction false} StoredExactlyAsOffered(clock: Clock, batches: seq<seq<Offer>>, minute: int, source: string)
    ensures var t := RunBatches(clock, batches); var os := Of(clock, Committed(clock, batches), minute, source);
            && (Key(minute, source) in t <==>
                  exists o | o in Committed(clock, batches) ::
                     clock(o.timeTag) == Some(minute) && o.source == Some(source))
            && (Key(minute, source) in t ==>
                  && os != []
                  && exists i | 0 <= i < |os| ::
                    && t[Key(minute, source)] == Row(os[0].timeTag, os[i].measured, os[i].at, os[i].active)
                    && (forall j | 0 <= j < i :: os[j].active != Some(true))
                    && (os[i].active == Some(true)
                       || (i == 0 && forall j | 0 <= j < |os| :: os[j].active != Some(true))))
  {
    var os := Of(clock, Committed(clock, batches), minute, source);
    AcceptedForKey(clock, batches, minute, source);
    RunIsOneBatch(clock, batches);
    ClosedForm(Accepted(clock, batches), Key(minute, source));
    hide RunBatches, Accepted, Absorb, ForKey, Chosen, Of;
    if os != [] {
      OfMembers(clock, Committed(clock, batches), minute, source, os[0]);
      ChosenIsFirstActive(os);
    }
    forall o | o in Committed(clock, batches) && clock(o.timeTag) == Some(minute) && o.source == Some(source)
      ensures os != []
    {
      OfMembers(clock, Committed(clock, batches), minute, source, o);
    }
  }

  // ---------------------------------------------------------------- reads

  datatype Selection = Displayed | Decided

  predicate Considered(sel: Selection, row: Row) {
    sel == Displayed || Flagged(row.active)
  }

  /** The ranking inside one minute: active first, then source. */
  predicate Before(t: Table, a: Key, b: Key)
    requires a in t && b in t
  {
    if Flagged(t[a].active) != Flagged(t[b].active) then Flagged(t[a].active)
    else Less(a.source, b.source)
  }

  function Candidates(t: Table, sel: Selection, minute: int): set<Key> {
    set k | k in t && k.minute == minute && Considered(sel, t[k])
  }

  predicate IsFirst(t: Table, s: set<Key>, k: Key)
    requires s <= t.Keys
  {
    k in s && forall other | other in s && other != k :: Before(t, k, other)
  }

  /** One row per minute after `since`: the first of its minute's considered rows. */
  function OneRowPerMinute(t: Table, sel: Selection, since: int): set<Key> {
    set k | k in t && k.minute > since && IsFirst(t, Candidates(t, sel, k.minute), k)
  }

  lemma {:induction false} FirstExists(t: Table, s: set<Key>, minute: int) returns (k: Key)
    requires s != {} && s <= t.Keys && forall x | x in s :: x.minute == minute
    ensures IsFirst(t, s, k)
    decreases |s|
  {
    var x :| x in s;
    if s == {x} { return x; }
    var y := FirstExists(t, s - {x}, minute);
    LessIsTotal(x.source, y.source);
    if Before(t, y, x) {
      return y;
    }
    k := x;
    forall z | z in s && z != x
      ensures Before(t, x, z)
    {
      if z != y { BeforeIsTransitive(t, x, y, z); }
    }
  }

  lemma BeforeIsTransitive(t: Table, a: Key, b: Key, c: Key)
    requires a in t && b in t && c in t && Before(t, a, b) && Before(t, b, c)
    ensures Before(t, a, c)
  {
    if Less(a.source, b.source) && Less(b.source, c.source) { LessIsTransitive(a.source, b.source, c.source); }
  }

  /** Every minute after `since` that has a considered row is shown once and only once. */
  lemma OneRowForEachMinute(t: Table, sel: Selection, since: int, minute: int)
    ensures forall a, b | a in OneRowPerMinute(t, sel, since) && b in OneRowPerMinute(t, sel, since)
        && a.minute == b.minute :: a == b
    ensures minute > since && Candidates(t, sel, minute) != {}
            <==> exists k | k in OneRowPerMinute(t, sel, since) :: k.minute == minute
  {
    forall a, b | a in OneRowPerMinute(t, sel, since) && b in OneRowPerMinute(t, sel, since) && a.minute == b.minute
      ensures a == b
    {
      LessIsTotal(a.source, b.source);
    }
    if minute > since && Candidates(t, sel, minute) != {} {
      var k := FirstExists(t, Candidates(t, sel, minute), minute);
      assert k in OneRowPerMinute(t, sel, since);
    }
  }

  /** Display and decision agree wherever a decision has a row, and display falls back to
      an unflagged row only where no decision is possible. */
  lemma SelectionsAgree(t: Table, since: int, k: Key)
    ensures k in OneRowPerMinute(t, Decided, since) <==>
        k in OneRowPerMinute(t, Displayed, since) && Flagged(t[k].active)
    ensures k in OneRowPerMinute(t, Displayed, since) && !Flagged(t[k].active) ==>
        Candidates(t, Decided, k.minute) == {}
  {
    if k in t && !Flagged(t[k].active) && Candidates(t, Decided, k.minute) != {} {
      var other :| other in Candidates(t, Decided, k.minute);
      assert other in Candidates(t, Displayed, k.minute) && !Before(t, k, other);
    }
    if k in OneRowPerMinute(t, Displayed, since) && Flagged(t[k].active) {
      forall other | other in Candidates(t, Decided, k.minute) && other != k
        ensures Before(t, k, other)
      {
        assert other in Candidates(t, Displayed, k.minute);
      }
    }
    if k in OneRowPerMinute(t, Decided, since) {
      forall other | other in Candidates(t, Displayed, k.minute) && other != k
        ensures Before(t, k, other)
      {
        if Flagged(t[other].active) { assert other in Candidates(t, Decided, k.minute); }
      }
    }
  }

  /** Whatever batches ran, a decided value was measured by a record flagged active. */
  lemma DecidedProvenance(clock: Clock, batches: seq<seq<Offer>>, since: int, k: Key)
    requires k in OneRowPerMinute(RunBatches(clock, batches), Decided, since)
    ensures exists x | x in Accepted(clock, batches) ::
              x.key == k && Flagged(x.offer.active) && x.offer.measured == RunBatches(clock, batches)[k].measured
  {
    var xs := Accepted(clock, batches);
    RunIsOneBatch(clock, batches);
    ClosedForm(xs, k);
    var o := Chosen(ForKey(xs, k));
    ForKeyOffered(xs, k, o);
    assert Flagged(Keyed(k, o).offer.active);
  }

  /** The rows the newest-reading query ranks by time: the minute's decided row, and only
      then the test that it carries the deciding value. */
  function Readable(t: Table): set<Key> {
    set k | k in OneRowPerMinute(t, Decided, 0) && t[k].measured.Deciding().Some?
  }

  ghost function LatestDecided(t: Table): (r: Option<Key>)
    ensures r.None? <==> Readable(t) == {}
    ensures r.Some? ==> r.value in Readable(t) && forall k | k in Readable(t) :: k.minute <= r.value.minute
  {
    if Readable(t) == {} then None
    else
      LatestExists(Readable(t));
      var k :| k in Readable(t) && forall other | other in Readable(t) :: other.minute <= k.minute;
      Some(k)
  }

  lemma {:induction false} LatestExists(s: set<Key>)
    requires s != {}
    ensures exists k | k in s :: forall other | other in s :: other.minute <= k.minute
    decreases |s|
  {
    var x :| x in s;
    if s != {x} {
      LatestExists(s - {x});
      var y :| y in s - {x} && forall other | other in s - {x} :: other.minute <= y.minute;
      var best := if x.minute <= y.minute then y else x;
      assert best in s && forall other | other in s :: other.minute <= best.minute;
    } else {
      assert forall other | other in s :: other.minute <= x.minute;
    }
  }

  /** The newest decided reading is the chosen active row of its minute, and every later
      minute was stepped over because it has no active row, or because its own chosen
      active row carries no value. A secondary is never borrowed. */
  lemma NewestDecidedStepsBack(t: Table, later: int)
    requires LatestDecided(t).Some? && later > LatestDecided(t).value.minute
    ensures var k := LatestDecided(t).value;
            Flagged(t[k].active) && t[k].measured.Deciding().Some? && IsFirst(t, Candidates(t, Decided, k.minute), k)
    ensures forall k | k in t && IsFirst(t, Candidates(t, Decided, later), k) :: t[k].measured.Deciding().None?
    ensures Candidates(t, Decided, later) != {} ==>
              exists k | k in t :: IsFirst(t, Candidates(t, Decided, later), k) && t[k].measured.Deciding().None?
  {
    forall k | k in t && IsFirst(t, Candidates(t, Decided, later), k)
      ensures t[k].measured.Deciding().Some? ==> k in Readable(t)
    {
    }
    if Candidates(t, Decided, later) != {} {
      var k := FirstExists(t, Candidates(t, Decided, later), later);
    }
  }

  /** Which row of a minute is shown, on the rows themselves: no other row of the minute is
      active while it is not, and among rows equally active none has a smaller source. */
  lemma DisplayedExactlyWhen(t: Table, since: int, k: Key)
    ensures k in OneRowPerMinute(t, Displayed, since) <==>
            && k in t && k.minute > since
            && forall other | other in t && other.minute == k.minute && other != k ::
                 if t[other].active == Some(true) then t[k].active == Some(true) && Less(k.source, other.source)
                 else t[k].active == Some(true) || Less(k.source, other.source)
  {
    if k in t {
      forall other | other in t && other.minute == k.minute
        ensures other in Candidates(t, Displayed, k.minute)
      {
      }
    }
  }

  /** And which a decision is taken on: an active one, with the smallest source of those. */
  lemma DecidedExactlyWhen(t: Table, since: int, k: Key)
    ensures k in OneRowPerMinute(t, Decided, since) <==>
            && k in t && k.minute > since && t[k].active == Some(true)
            && forall other | other in t && other.minute == k.minute && other != k && t[other].active == Some(true) ::
                 Less(k.source, other.source)
  {
    if k in t {
      forall other | other in t && other.minute == k.minute && t[other].active == Some(true)
        ensures other in Candidates(t, Decided, k.minute)
      {
      }
    }
  }

  /** The newest speed or southward field is read from the decided row of its minute that
      carries that very column, and from no later minute whose decided row does. */
  lemma NewestReadingIsExact(t: Table, k: Key)
    requires forall x | x in t :: t[x].measured.Wind?
    ensures LatestDecided(t) == Some(k) ==>
            && k in OneRowPerMinute(t, Decided, 0) && t[k].measured.speedE1.Some?
            && forall x | x in OneRowPerMinute(t, Decided, 0) && t[x].measured.speedE1.Some? :: x.minute <= k.minute
    ensures LatestDecided(t) == None <==>
            forall x | x in OneRowPerMinute(t, Decided, 0) :: t[x].measured.speedE1.None?
  {
    hide OneRowPerMinute;
    forall x | x in OneRowPerMinute(t, Decided, 0)
      ensures x in t && (x in Readable(t) <==> t[x].measured.speedE1.Some?)
    {
      DecidedExactlyWhen(t, 0, x);
    }
  }

  lemma NewestFieldIsExact(t: Table, k: Key)
    requires forall x | x in t :: t[x].measured.Field?
    ensures LatestDecided(t) == Some(k) ==>
            && k in OneRowPerMinute(t, Decided, 0) && t[k].measured.bzE2.Some?
            && forall x | x in OneRowPerMinute(t, Decided, 0) && t[x].measured.bzE2.Some? :: x.minute <= k.minute
    ensures LatestDecided(t) == None <==>
            forall x | x in OneRowPerMinute(t, Decided, 0) :: t[x].measured.bzE2.None?
  {
    hide OneRowPerMinute;
    forall x | x in OneRowPerMinute(t, Decided, 0)
      ensures x in t && (x in Readable(t) <==> t[x].measured.bzE2.Some?)
    {
      DecidedExactlyWhen(t, 0, x);
    }
  }
}
