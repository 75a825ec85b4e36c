/** The writer queue at work on the modelled tables: whatever the interleaving, each table is
    its own component's run over its own writes, so what each component proves of its runs
    holds of the one shared store. */
module Backend {
  import opened Prelude
  import opened TextOrder
  import Deliveries = DeliveryLog
  import Feeds = FeedWriters
  import Forecasts = ForecastStore
  import Q = WriterQueue
  import Series = SeriesStore
  import Usage = UsageRecords

  type KpPut = Feeds.Put<string, Feeds.KpRow>
  type SatPut = Feeds.Put<Feeds.SatId, Feeds.SatRow>
  type ValuePut = Feeds.Put<string, Feeds.ValueRow>
  type XrayPut = Feeds.Put<Feeds.XrayKey, Feeds.XrayRow>

  datatype Tables = Tables(
    wind: Series.Table,
    imf: Series.Table,
    kp: map<string, Feeds.KpRow>,
    kp3h: map<string, Feeds.ValueRow>,
    dst: map<string, Feeds.ValueRow>,
    xray: map<Feeds.XrayKey, Feeds.XrayRow>,
    starlink: map<Feeds.SatId, Feeds.SatRow>,
    forecasts: Forecasts.Table,
    usage: Usage.Table,
    deliveries: Deliveries.Log)

  const EMPTY: Tables := Tables(map[], map[], map[], map[], map[], map[], map[], map[], map[], Deliveries.Log(map[], 1))

  datatype WriteCmd =
    | SolarWind(records: seq<Series.Offer>)
    | Imf(records: seq<Series.Offer>)
    | Kp(kps: seq<KpPut>)
    | Kp3h(values: seq<ValuePut>)
    | Dst(values: seq<ValuePut>)
    | Xray(fluxes: seq<XrayPut>)
    | Starlink(sats: seq<SatPut>)
    | KpForecast(call: Forecasts.Call)
    | FlushUsage(flush: Usage.Flush)
    | WebhookDelivery(attempt: Deliveries.Attempt)

  /** What the database decides: the time a tag is cast to, if it is, and how it breaks the
      ties of the delivery log. */
  datatype Database = Database(clock: Series.Clock, choose: Deliveries.Choice)
  {
    function Castable(): string -> bool {
      tag => clock(tag).Some?
    }
  }

  function AfterSeries(db: Database, t: Series.Table, os: seq<Series.Offer>): Series.Table {
    match Series.ResolveAll(db.clock, os)
    case Some(xs) => Series.Absorb(t, xs)
    case None => t
  }

  function AfterStarlink(t: map<Feeds.SatId, Feeds.SatRow>, ps: seq<SatPut>): map<Feeds.SatId, Feeds.SatRow> {
    if ps == [] then t else Feeds.Absorb(map[], ps, Feeds.Replace)
  }

  /** One command on the store. Every write of these tables is fired, so no reply is used. */
  function Apply(db: Database, t: Tables, cmd: WriteCmd): Tables {
    match cmd
    case SolarWind(os) => t.(wind := AfterSeries(db, t.wind, os))
    case Imf(os) => t.(imf := AfterSeries(db, t.imf, os))
    case Kp(ps) => t.(kp := Feeds.AfterIncremental(db.Castable(), t.kp, ps, Feeds.Tag, Feeds.KpMerge))
    case Kp3h(ps) => t.(kp3h := Feeds.AfterUpsert(db.Castable(), t.kp3h, ps))
    case Dst(ps) => t.(dst := Feeds.AfterUpsert(db.Castable(), t.dst, ps))
    case Xray(ps) => t.(xray := Feeds.AfterIncremental(db.Castable(), t.xray, ps, Feeds.XrayTag, Feeds.Replace))
    case Starlink(ps) => t.(starlink := AfterStarlink(t.starlink, ps))
    case KpForecast(call) => t.(forecasts := Forecasts.AfterCall(t.forecasts, call))
    case FlushUsage(f) => t.(usage := Usage.Flushed(t.usage, f))
    case WebhookDelivery(a) => t.(deliveries := Deliveries.Logged(db.choose, t.deliveries, a))
  }

  function Process(db: Database): Q.Process<Tables, WriteCmd, ()> {
    (t, cmd) => (Apply(db, t, cmd), ())
  }

  // ---------------------------------------------------------------- each table's own writes

  type Entry = Q.Entry<WriteCmd>

  /** The writes of one kind among the processed ones, in order. */
  function Own<T>(es: seq<Entry>, pick: WriteCmd -> Option<T>): seq<T> {
    if es == [] then []
    else
      Own(es[..|es| - 1], pick) + match pick(es[|es| - 1].cmd)
        case Some(x) => [x]
        case None => []
  }

  function WindOf(cmd: WriteCmd): Option<seq<Series.Offer>> {
    if cmd.SolarWind? then Some(cmd.records) else None
  }

  function ImfOf(cmd: WriteCmd): Option<seq<Series.Offer>> {
    if cmd.Imf? then Some(cmd.records) else None
  }

  function KpOf(cmd: WriteCmd): Option<seq<KpPut>> {
    if cmd.Kp? then Some(cmd.kps) else None
  }

  function Kp3hOf(cmd: WriteCmd): Option<seq<ValuePut>> {
    if cmd.Kp3h? then Some(cmd.values) else None
  }

  function DstOf(cmd: WriteCmd): Option<seq<ValuePut>> {
    if cmd.Dst? then Some(cmd.values) else None
  }

  function XrayOf(cmd: WriteCmd): Option<seq<XrayPut>> {
    if cmd.Xray? then Some(cmd.fluxes) else None
  }

  function StarlinkOf(cmd: WriteCmd): Option<seq<SatPut>> {
    if cmd.Starlink? then Some(cmd.sats) else None
  }

  function CallOf(cmd: WriteCmd): Option<Forecasts.Call> {
    if cmd.KpForecast? then Some(cmd.call) else None
  }

  function FlushOf(cmd: WriteCmd): Option<Usage.Flush> {
    if cmd.FlushUsage? then Some(cmd.flush) else None
  }

  function AttemptOf(cmd: WriteCmd): Option<Deliveries.Attempt> {
    if cmd.WebhookDelivery? then Some(cmd.attempt) else None
  }

  /** The store a list of processed writes must produce, table by table. */
  function Expected(db: Database, es: seq<Entry>): Tables {
    Tables(Series.RunBatches(db.clock, Own(es, WindOf)), Series.RunBatches(db.clock, Own(es, ImfOf)),
           Feeds.IncrementalRun(db.Castable(), Own(es, KpOf), Feeds.Tag, Feeds.KpMerge),
           Feeds.UpsertRun(db.Castable(), Own(es, Kp3hOf)), Feeds.UpsertRun(db.Castable(), Own(es, DstOf)),
           Feeds.IncrementalRun(db.Castable(), Own(es, XrayOf), Feeds.XrayTag, Feeds.Replace),
           Feeds.StarlinkRun(Own(es, StarlinkOf)), Forecasts.AfterCalls(Own(es, CallOf)),
             Usage.AfterFlushes(Own(es, FlushOf)),
           Deliveries.AfterAttempts(db.choose, Own(es, AttemptOf)))
  }

  /** A run that takes one step for each of its writes takes one when a write of its kind is
      added to the processed ones, and none for any other. */
  lemma OwnRunStep<T, X(!new)>(es: seq<Entry>, pick: WriteCmd -> Option<X>, run: seq<X> -> T, step: (T, X) -> T)
    requires es != [] && forall xs: seq<X> | xs != [] :: run(xs) == step(run(xs[..|xs| - 1]), xs[|xs| - 1])
    ensures var before := run(Own(es[..|es| - 1], pick));
            run(Own(es, pick)) == match pick(es[|es| - 1].cmd) case Some(x) => step(before, x) case None => before
  {
    var init := Own(es[..|es| - 1], pick);
    assert init + [] == init;
    if pick(es[|es| - 1].cmd).Some? {
      assert Own(es, pick)[..|Own(es, pick)| - 1] == init;
    }
  }

  /** What a command does to each table: the component's own step on the table of its kind,
      nothing on the others. */
  lemma ApplyToFeeds(db: Database, t: Tables, cmd: WriteCmd)
    ensures Apply(db, t, cmd).wind == match WindOf(cmd) case Some(x) => AfterSeries(db, t.wind, x) case None => t.wind
    ensures Apply(db, t, cmd).imf == match ImfOf(cmd) case Some(x) => AfterSeries(db, t.imf, x) case None => t.imf
    ensures Apply(db, t, cmd).kp == match KpOf(cmd) case Some(x) => Feeds.AfterIncremental(db.Castable(), t.kp, x,
        Feeds.Tag, Feeds.KpMerge) case None => t.kp
    ensures Apply(db, t, cmd).kp3h == match Kp3hOf(cmd) case Some(x) => Feeds.AfterUpsert(db.Castable(), t.kp3h,
        x) case None => t.kp3h
    ensures Apply(db, t, cmd).dst == match DstOf(cmd) case Some(x) => Feeds.AfterUpsert(db.Castable(), t.dst,
        x) case None => t.dst
    ensures Apply(db, t, cmd).xray == match XrayOf(cmd) case Some(x) => Feeds.AfterIncremental(db.Castable(), t.xray, x,
        Feeds.XrayTag, Feeds.Replace) case None => t.xray
  {
    hide AfterSeries, Feeds.AfterIncremental, Feeds.AfterUpsert;
  }

  lemma ApplyToRecords(db: Database, t: Tables, cmd: WriteCmd)
    ensures Apply(db, t, cmd).starlink ==
        match StarlinkOf(cmd) case Some(x) => AfterStarlink(t.starlink, x) case None => t.starlink
    ensures Apply(db, t, cmd).forecasts ==
        match CallOf(cmd) case Some(x) => Forecasts.AfterCall(t.forecasts, x) case None => t.forecasts
    ensures Apply(db, t, cmd).usage == match FlushOf(cmd) case Some(x) => Usage.Flushed(t.usage, x) case None => t.usage
    ensures Apply(db, t, cmd).deliveries ==
        match AttemptOf(cmd) case Some(x) => Deliveries.Logged(db.choose, t.deliveries, x) case None => t.deliveries
  {
    hide AfterStarlink, Forecasts.AfterCall, Usage.Flushed, Deliveries.Logged;
  }

  lemma {:induction false} SeriesRunsStep(db: Database, es: seq<Entry>)
    requires es != []
    ensures var before, after, cmd := Expected(db, es[..|es| - 1]), Expected(db, es), es[|es| - 1].cmd;
            && after.wind == (match WindOf(cmd) case Some(x) => AfterSeries(db, before.wind,
               x) case None => before.wind)
            && after.imf == (match ImfOf(cmd) case Some(x) => AfterSeries(db, before.imf, x) case None => before.imf)
  {
    hide Own, WindOf, ImfOf, KpOf, Kp3hOf, DstOf, XrayOf, StarlinkOf, CallOf, FlushOf, AttemptOf;
    OwnRunStep(es, WindOf, xs => Series.RunBatches(db.clock, xs), (t, x) => AfterSeries(db, t, x));
    OwnRunStep(es, ImfOf, xs => Series.RunBatches(db.clock, xs), (t, x) => AfterSeries(db, t, x));
  }

  lemma {:induction false} IncrementalRunsStep(db: Database, es: seq<Entry>)
    requires es != []
    ensures var before, after, cmd := Expected(db, es[..|es| - 1]), Expected(db, es), es[|es| - 1].cmd;
            && after.kp == (match KpOf(cmd) case Some(x) => Feeds.AfterIncremental(db.Castable(), before.kp, x,
               Feeds.Tag, Feeds.KpMerge) case None => before.kp)
            && after.xray == (match XrayOf(cmd) case Some(x) => Feeds.AfterIncremental(db.Castable(), before.xray, x,
               Feeds.XrayTag, Feeds.Replace) case None => before.xray)
  {
    hide Own, WindOf, ImfOf, KpOf, Kp3hOf, DstOf, XrayOf, StarlinkOf, CallOf, FlushOf, AttemptOf;
    OwnRunStep(es, KpOf, xs => Feeds.IncrementalRun(db.Castable(), xs, Feeds.Tag, Feeds.KpMerge),
      (t, x) => Feeds.AfterIncremental(db.Castable(), t, x, Feeds.Tag, Feeds.KpMerge));
    OwnRunStep(es, XrayOf, xs => Feeds.IncrementalRun(db.Castable(), xs, Feeds.XrayTag, Feeds.Replace),
      (t, x) => Feeds.AfterIncremental(db.Castable(), t, x, Feeds.XrayTag, Feeds.Replace));
  }

  lemma {:induction false} UpsertRunsStep(db: Database, es: seq<Entry>)
    requires es != []
    ensures var before, after, cmd := Expected(db, es[..|es| - 1]), Expected(db, es), es[|es| - 1].cmd;
            && after.kp3h == (match Kp3hOf(cmd) case Some(x) => Feeds.AfterUpsert(db.Castable(), before.kp3h,
               x) case None => before.kp3h)
            && after.dst == (match DstOf(cmd) case Some(x) => Feeds.AfterUpsert(db.Castable(), before.dst,
               x) case None => before.dst)
            && after.starlink == (match StarlinkOf(cmd) case Some(x) => AfterStarlink(before.starlink,
               x) case None => before.starlink)
  {
    hide Own, WindOf, ImfOf, KpOf, Kp3hOf, DstOf, XrayOf, StarlinkOf, CallOf, FlushOf, AttemptOf;
    OwnRunStep(es, Kp3hOf, xs => Feeds.UpsertRun(db.Castable(), xs), (t, x) => Feeds.AfterUpsert(db.Castable(), t, x));
    OwnRunStep(es, DstOf, xs => Feeds.UpsertRun(db.Castable(), xs), (t, x) => Feeds.AfterUpsert(db.Castable(), t, x));
    OwnRunStep(es, StarlinkOf, xs => Feeds.StarlinkRun(xs), (t, x) => AfterStarlink(t, x));
  }

  lemma {:induction false} RecordRunsStep(db: Database, es: seq<Entry>)
    requires es != []
    ensures var before, after, cmd := Expected(db, es[..|es| - 1]), Expected(db, es), es[|es| - 1].cmd;
            && after.forecasts == (match CallOf(cmd) case Some(x) => Forecasts.AfterCall(before.forecasts,
               x) case None => before.forecasts)
            && after.usage == (match FlushOf(cmd) case Some(x) => Usage.Flushed(before.usage,
               x) case None => before.usage)
            && after.deliveries == (match AttemptOf(cmd) case Some(x) => Deliveries.Logged(db.choose, before.deliveries,
               x) case None => before.deliveries)
  {
    hide Own, WindOf, ImfOf, KpOf, Kp3hOf, DstOf, XrayOf, StarlinkOf, CallOf, FlushOf, AttemptOf;
    OwnRunStep(es, CallOf, xs => Forecasts.AfterCalls(xs), (t, x) => Forecasts.AfterCall(t, x));
    OwnRunStep(es, FlushOf, xs => Usage.AfterFlushes(xs), (t, x) => Usage.Flushed(t, x));
    OwnRunStep(es, AttemptOf, xs => Deliveries.AfterAttempts(db.choose, xs),
      (t, x) => Deliveries.Logged(db.choose, t, x));
  }

  /** Each command touches its own table, as that table's component says, and no other. */
  lemma {:induction false} ExpectedStep(db: Database, es: seq<Entry>)
    requires es != []
    ensures Expected(db, es) == Apply(db, Expected(db, es[..|es| - 1]), es[|es| - 1].cmd)
  {
    hide Apply, Own, WindOf, ImfOf, KpOf, Kp3hOf, DstOf, XrayOf, StarlinkOf, CallOf, FlushOf, AttemptOf;
    ApplyToFeeds(db, Expected(db, es[..|es| - 1]), es[|es| - 1].cmd);
    ApplyToRecords(db, Expected(db, es[..|es| - 1]), es[|es| - 1].cmd);
    SeriesRunsStep(db, es);
    IncrementalRunsStep(db, es);
    UpsertRunsStep(db, es);
    RecordRunsStep(db, es);
    hide AfterSeries, AfterStarlink, Series.RunBatches, Forecasts.AfterCall, Forecasts.AfterCalls, Usage.Flushed,
      Usage.AfterFlushes,
         Feeds.AfterIncremental, Feeds.AfterUpsert, Feeds.IncrementalRun, Feeds.UpsertRun, Feeds.StarlinkRun,
           Deliveries.Logged, Deliveries.AfterAttempts;
  }

  lemma {:induction false} ReplayIsExpected(db: Database, es: seq<Entry>)
    ensures Q.Replay(Process(db), EMPTY, es) == Expected(db, es)
  {
    if es != [] {
      hide Expected, Apply;
      ReplayIsExpected(db, es[..|es| - 1]);
      ExpectedStep(db, es);
    }
  }

  // ---------------------------------------------------------------- in every interleaving

  /** The state after any run of callers and writer. */
  function After(db: Database, steps: seq<Q.Step<WriteCmd>>): Q.State<Tables, WriteCmd, ()> {
    Q.Run(Process(db), Q.Init(EMPTY), steps)
  }

  function Processed(db: Database, steps: seq<Q.Step<WriteCmd>>): (es: seq<Entry>)
    ensures |es| <= |After(db, steps).accepted|
  {
    var s := After(db, steps);
    s.accepted[..if 0 <= Q.Done(s) <= |s.accepted| then Q.Done(s) else 0]
  }

  /** In every interleaving each table is its component's run over its own processed writes. */
  lemma StoreIsExpected(db: Database, steps: seq<Q.Step<WriteCmd>>)
    ensures After(db, steps).store == Expected(db, Processed(db, steps))
  {
    hide Expected;
    Q.EveryInterleavingIsAReplay(Process(db), EMPTY, steps);
    ReplayIsExpected(db, Processed(db, steps));
  }

  /** Whatever is fired, dropped or abandoned, and in whatever order: every forecast issue in
      the store is whole, every usage period reads as the last count processed for it, every
      webhook holds exactly the hundred newest times of the attempts processed, and dst and
      kp_3h hold the last accepted value of every tag. */
  lemma EveryInterleavingLeavesASoundStore(db: Database, steps: seq<Q.Step<WriteCmd>>, k: Usage.Key, webhook: string,
      tag: string)
    requires Deliveries.Answers(db.choose)
    ensures var t := After(db, steps).store; var es := Processed(db, steps);
            && Forecasts.HoldsWholeIssues(t.forecasts)
            && Usage.LastCount(Own(es, FlushOf), k) ==
               (match Usage.Reading(t.usage, k) case Some(u) => u.count case None => 0)
            && Deliveries.IsTop(Deliveries.KEPT, Deliveries.AllTimes(Own(es, AttemptOf), webhook),
               Deliveries.TimesOf(t.deliveries.rows, webhook))
            && HoldsTheLast(t.dst, Feeds.AcceptedPuts(db.Castable(), Own(es, DstOf)), tag)
            && HoldsTheLast(t.kp3h, Feeds.AcceptedPuts(db.Castable(), Own(es, Kp3hOf)), tag)
  {
    hide Deliveries.IsTop, Deliveries.TimesOf, HoldsTheLast, Own;
    var es := Processed(db, steps);
    StoreIsExpected(db, steps);
    Forecasts.EveryReachableTableHoldsWholeIssues(Own(es, CallOf));
    Usage.SparseIsDense(Own(es, FlushOf), k);
    Deliveries.AttemptsHoldTheNewest(db.choose, Own(es, AttemptOf), webhook);
    UpsertHoldsTheLast(db, Own(es, DstOf), tag);
    UpsertHoldsTheLast(db, Own(es, Kp3hOf), tag);
  }

  /** The row of a tag is the last of the records offered for it. */
  predicate HoldsTheLast(t: map<string, Feeds.ValueRow>, ps: seq<ValuePut>, tag: string) {
    var vs := Feeds.Offered(ps, tag);
    (tag in t <==> vs != []) && (tag in t ==> t[tag] == vs[|vs| - 1])
  }

  lemma UpsertHoldsTheLast(db: Database, batches: seq<seq<ValuePut>>, tag: string)
    ensures HoldsTheLast(Feeds.UpsertRun(db.Castable(), batches), Feeds.AcceptedPuts(db.Castable(), batches), tag)
  {
    Feeds.UpsertRunIsOneBatch(db.Castable(), batches);
    Feeds.LastWriteWins(map[], Feeds.AcceptedPuts(db.Castable(), batches), tag);
  }

  /** In every interleaving a decided solar wind or magnetic field value was measured by a
      record the feed flagged active. */
  lemma EveryDecidedValueWasActive(db: Database, steps: seq<Q.Step<WriteCmd>>, since: int, r: Series.Key)
    ensures var t := After(db, steps).store; var es := Processed(db, steps);
            && (r in Series.OneRowPerMinute(t.wind, Series.Decided, since) ==>
                  exists x | x in Series.Accepted(db.clock, Own(es, WindOf)) :: x.key == r
                    && Series.Flagged(x.offer.active) && x.offer.measured == t.wind[r].measured)
            && (r in Series.OneRowPerMinute(t.imf, Series.Decided, since) ==>
                  exists x | x in Series.Accepted(db.clock, Own(es, ImfOf)) :: x.key == r
                    && Series.Flagged(x.offer.active) && x.offer.measured == t.imf[r].measured)
  {
    hide Own;
    var t, es := After(db, steps).store, Processed(db, steps);
    StoreIsExpected(db, steps);
    if r in Series.OneRowPerMinute(t.wind, Series.Decided, since) {
      Series.DecidedProvenance(db.clock, Own(es, WindOf), since, r);
    }
    if r in Series.OneRowPerMinute(t.imf, Series.Decided, since) {
      Series.DecidedProvenance(db.clock, Own(es, ImfOf), since, r);
    }
  }

  // ---------------------------------------------------------------- what is stored, write by write

  lemma {:induction false} OwnMembers<T(!new)>(es: seq<Entry>, pick: WriteCmd -> Option<T>, x: T)
    ensures x in Own(es, pick) <==> exists i | 0 <= i < |es| :: pick(es[i].cmd) == Some(x)
  {
    if es != [] {
      var n := |es| - 1;
      OwnMembers(es[..n], pick, x);
      assert forall i | 0 <= i < n :: es[..n][i] == es[i];
    }
  }

  /** The clock casts every tag of the batch. */
  predicate TagsCast(db: Database, ps: seq<ValuePut>) {
    forall i | 0 <= i < |ps| :: db.clock(ps[i].key).Some?
  }

  lemma {:induction false} StoredByABatch(db: Database, batches: seq<seq<ValuePut>>, tag: string)
    ensures tag in Feeds.UpsertRun(db.Castable(), batches) <==>
        exists ps | ps in batches :: TagsCast(db, ps) && Feeds.IsOffered(ps, tag)
  {
    Feeds.ARunHoldsTheLastStored(db.Castable(), batches, tag);
    hide Feeds.UpsertRun, Feeds.IsOffered;
    if b: nat :| Feeds.Stores(db.Castable(), batches, tag, b) { assert batches[b] in batches; }
    if ps :| ps in batches && TagsCast(db, ps) && Feeds.IsOffered(ps, tag) {
      var b: nat :| b < |batches| && batches[b] == ps;
      assert Feeds.Stores(db.Castable(), batches, tag, b);
    }
  }

  /** In every interleaving: a tag is in dst, or in kp_3h, exactly when some processed write
      of that table, and of no other, has it among tags that all cast. */
  lemma {:induction false} ValuesExactly(db: Database, steps: seq<Q.Step<WriteCmd>>, tag: string)
    ensures var t := After(db, steps).store; var es := Processed(db, steps);
            && (tag in t.dst <==> exists i | 0 <= i < |es| ::
                  es[i].cmd.Dst? && TagsCast(db, es[i].cmd.values) && Feeds.IsOffered(es[i].cmd.values, tag))
            && (tag in t.kp3h <==> exists i | 0 <= i < |es| ::
                  es[i].cmd.Kp3h? && TagsCast(db, es[i].cmd.values) && Feeds.IsOffered(es[i].cmd.values, tag))
  {
    hide Own, Feeds.UpsertRun, TagsCast, Feeds.IsOffered, After, Processed;
    var es := Processed(db, steps);
    StoreIsExpected(db, steps);
    StoredByABatch(db, Own(es, DstOf), tag);
    StoredByABatch(db, Own(es, Kp3hOf), tag);
    forall x
      ensures x in Own(es, DstOf) <==> exists i | 0 <= i < |es| :: DstOf(es[i].cmd) == Some(x)
      ensures x in Own(es, Kp3hOf) <==> exists i | 0 <= i < |es| :: Kp3hOf(es[i].cmd) == Some(x)
    {
      OwnMembers(es, DstOf, x);
      OwnMembers(es, Kp3hOf, x);
    }
  }

  /** A usage period has a row exactly when some processed flush of it was not zero. */
  lemma {:induction false} UsageExactly(db: Database, steps: seq<Q.Step<WriteCmd>>, k: Usage.Key)
    ensures var t := After(db, steps).store; var es := Processed(db, steps);
            k in t.usage <==> exists i | 0 <= i < |es| ::
              es[i].cmd.FlushUsage? && es[i].cmd.flush.key == k && es[i].cmd.flush.count != 0
  {
    hide Own, Usage.AfterFlushes, After, Processed;
    var es := Processed(db, steps);
    StoreIsExpected(db, steps);
    FlushesOf(Own(es, FlushOf), k);
    forall x
      ensures x in Own(es, FlushOf) <==> exists i | 0 <= i < |es| :: FlushOf(es[i].cmd) == Some(x)
    {
      OwnMembers(es, FlushOf, x);
    }
  }

  lemma FlushesOf(fs: seq<Usage.Flush>, k: Usage.Key)
    ensures k in Usage.AfterFlushes(fs) <==> exists f | f in fs :: f.key == k && f.count != 0
  {
    hide Usage.AfterFlushes;
    Usage.TheRowIsTheLastFlush(fs, k);
  }

  /** A forecast is there exactly when some processed insert of its issue was complete and
      not cut short. */
  lemma {:induction false} ForecastsExactly(db: Database, steps: seq<Q.Step<WriteCmd>>, k: Forecasts.IssueKey)
    ensures var t := After(db, steps).store; var es := Processed(db, steps);
            k in t.forecasts <==> k.horizon in {3, 6, 12, 24} && exists i | 0 <= i < |es| ::
              es[i].cmd.KpForecast? && es[i].cmd.call.issuedAt == k.issuedAt && IsWhole(es[i].cmd.call)
  {
    hide Own, Forecasts.AfterCalls, After, Processed, IsWhole;
    var es := Processed(db, steps);
    StoreIsExpected(db, steps);
    ForecastsOf(Own(es, CallOf), k);
    forall x
      ensures x in Own(es, CallOf) <==> exists i | 0 <= i < |es| :: CallOf(es[i].cmd) == Some(x)
    {
      OwnMembers(es, CallOf, x);
    }
  }

  predicate IsWhole(c: Forecasts.Call) {
    Forecasts.IsComplete(c.points) && (c.failsAt.Some? ==> c.failsAt.value >= |c.points|)
  }

  lemma ForecastsOf(calls: seq<Forecasts.Call>, k: Forecasts.IssueKey)
    ensures k in Forecasts.AfterCalls(calls) <==>
        k.horizon in {3, 6, 12, 24} && exists c | c in calls :: c.issuedAt == k.issuedAt && IsWhole(c)
  {
    hide Forecasts.AfterCalls, Forecasts.IsComplete;
    Forecasts.StoredIssues(calls, k.issuedAt, k.horizon);
    assert k == Forecasts.IssueKey(k.issuedAt, k.horizon);
  }

  /** A minute of a spacecraft has a row of solar wind exactly when some processed write of
      solar wind, none of whose records is refused, has a record of it; the magnetic field
      likewise. */
  lemma {:induction false} SeriesExactly(db: Database, steps: seq<Q.Step<WriteCmd>>, minute: int, source: string)
    ensures var t := After(db, steps).store; var es := Processed(db, steps);
            && (Series.Key(minute, source) in t.wind <==> exists i | 0 <= i < |es| ::
                  es[i].cmd.SolarWind? && Brings(db, es[i].cmd.records, minute, source))
            && (Series.Key(minute, source) in t.imf <==> exists i | 0 <= i < |es| ::
                  es[i].cmd.Imf? && Brings(db, es[i].cmd.records, minute, source))
  {
    hide Own, Series.RunBatches, Brings, After, Processed;
    var es := Processed(db, steps);
    StoreIsExpected(db, steps);
    SeriesOf(db, Own(es, WindOf), minute, source);
    SeriesOf(db, Own(es, ImfOf), minute, source);
    forall x
      ensures x in Own(es, WindOf) <==> exists i | 0 <= i < |es| :: WindOf(es[i].cmd) == Some(x)
      ensures x in Own(es, ImfOf) <==> exists i | 0 <= i < |es| :: ImfOf(es[i].cmd) == Some(x)
    {
      OwnMembers(es, WindOf, x);
      OwnMembers(es, ImfOf, x);
    }
  }

  /** Every record's tag casts and names a source, and one is of this minute and spacecraft. */
  predicate Brings(db: Database, os: seq<Series.Offer>, minute: int, source: string) {
    && (forall i | 0 <= i < |os| :: db.clock(os[i].timeTag) != None && os[i].source != None)
    && exists i | 0 <= i < |os| :: db.clock(os[i].timeTag) == Some(minute) && os[i].source == Some(source)
  }

  lemma SeriesOf(db: Database, batches: seq<seq<Series.Offer>>, minute: int, source: string)
    ensures Series.Key(minute, source) in Series.RunBatches(db.clock, batches) <==>
        exists os | os in batches :: Brings(db, os, minute, source)
  {
    hide Series.RunBatches, Series.Committed, Series.Of;
    Series.StoredExactlyAsOffered(db.clock, batches, minute, source);
    forall o
      ensures o in Series.Committed(db.clock, batches) <==>
          exists b | 0 <= b < |batches| :: o in batches[b] && Series.AllTaken(db.clock, batches[b])
    {
      Series.CommittedMembers(db.clock, batches, o);
    }
    if os: seq<Series.Offer> :| os in batches && Brings(db, os, minute, source) {
      var i :| 0 <= i < |os| && db.clock(os[i].timeTag) == Some(minute) && os[i].source == Some(source);
      var b :| 0 <= b < |batches| && batches[b] == os;
      assert os[i] in batches[b] && Series.AllTaken(db.clock, batches[b]);
    }
    if o :|
        o in Series.Committed(db.clock, batches) && db.clock(o.timeTag) == Some(minute) && o.source == Some(source) {
      var b :| 0 <= b < |batches| && o in batches[b] && Series.AllTaken(db.clock, batches[b]);
      var i :| 0 <= i < |batches[b]| && batches[b][i] == o;
      assert batches[b] in batches && Brings(db, batches[b], minute, source);
    }
  }

  /** The i-th processed write is the last of starlink that names any satellite. */
  predicate IsLastCatalogue(es: seq<Entry>, i: nat) {
    && i < |es| && es[i].cmd.Starlink? && es[i].cmd.sats != []
    && forall j | i < j < |es| && es[j].cmd.Starlink? :: es[j].cmd.sats == []
  }

  lemma {:induction false} LastCatalogue(db: Database, es: seq<Entry>, i: nat, k: Feeds.SatId)
    requires IsLastCatalogue(es, i)
    ensures k in Expected(db, es).starlink <==> Feeds.IsOffered(es[i].cmd.sats, k)
    decreases |es|
  {
    hide Expected;
    var n := |es| - 1;
    UpsertRunsStep(db, es);
    if i < n {
      assert IsLastCatalogue(es[..n], i);
      LastCatalogue(db, es[..n], i, k);
    } else {
      Feeds.ReplacedRowByRow(map[], es[i].cmd.sats, k);
    }
  }

  /** The satellites stored are exactly those of the last processed catalogue that was not
      empty. */
  lemma StarlinkExactly(db: Database, steps: seq<Q.Step<WriteCmd>>, i: nat, k: Feeds.SatId)
    requires IsLastCatalogue(Processed(db, steps), i)
    ensures k in After(db, steps).store.starlink <==> Feeds.IsOffered(Processed(db, steps)[i].cmd.sats, k)
  {
    hide *;
    StoreIsExpected(db, steps);
    LastCatalogue(db, Processed(db, steps), i, k);
  }

  /** No processed reading of kp or x-ray whose batch casts is behind by being lost: its tag
      or a newer one is stored. No processed webhook attempt is lost but to newer ones: its
      own time, or a newer one, is in its webhook's log. */
  lemma {:induction false} NothingNewestIsLost(db: Database, steps: seq<Q.Step<WriteCmd>>, i: nat, j: nat)
    requires Deliveries.Answers(db.choose) && i < |Processed(db, steps)|
    ensures var t, cmd := After(db, steps).store, Processed(db, steps)[i].cmd;
            && (cmd.Kp? && j < |cmd.kps| && (forall n | 0 <= n < |cmd.kps| :: db.clock(cmd.kps[n].key).Some?) ==>
                  exists tag | tag in t.kp :: !Less(tag, cmd.kps[j].key))
            && (cmd.Xray? && j < |cmd.fluxes|
                && (forall n | 0 <= n < |cmd.fluxes| :: db.clock(cmd.fluxes[n].key.tag).Some?) ==>
                  exists k | k in t.xray :: !Less(k.tag, cmd.fluxes[j].key.tag))
            && (cmd.WebhookDelivery? ==>
                  exists r | r in t.deliveries.rows ::
                    t.deliveries.rows[r].webhook == cmd.attempt.webhook && t.deliveries.rows[r].at >= cmd.attempt.at)
  {
    hide Own, Feeds.IncrementalRun, Deliveries.AfterAttempts, After, Processed, Less;
    var es := Processed(db, steps);
    var cmd := es[i].cmd;
    StoreIsExpected(db, steps);
    if cmd.Kp? && j < |cmd.kps| && (forall n | 0 <= n < |cmd.kps| :: db.clock(cmd.kps[n].key).Some?) {
      OwnMembers(es, KpOf, cmd.kps);
      var b :| 0 <= b < |Own(es, KpOf)| && Own(es, KpOf)[b] == cmd.kps;
      Feeds.NoNewerReadingIsLost(db.Castable(), Own(es, KpOf), Feeds.Tag, Feeds.KpMerge, b, j);
    } else if cmd.Xray? && j < |cmd.fluxes|
        && (forall n | 0 <= n < |cmd.fluxes| :: db.clock(cmd.fluxes[n].key.tag).Some?) {
      OwnMembers(es, XrayOf, cmd.fluxes);
      var b :| 0 <= b < |Own(es, XrayOf)| && Own(es, XrayOf)[b] == cmd.fluxes;
      Feeds.NoNewerReadingIsLost(db.Castable(), Own(es, XrayOf), Feeds.XrayTag, Feeds.Replace, b, j);
    } else if cmd.WebhookDelivery? {
      OwnMembers(es, AttemptOf, cmd.attempt);
      Deliveries.NewestIsLogged(db.choose, Own(es, AttemptOf), cmd.attempt);
    }
  }

  /** No step of callers or writer, in any state, changes a stored kp or x-ray reading. */
  lemma StoredReadingsNeverChange(db: Database, s: Q.State<Tables, WriteCmd, ()>, step: Q.Step<WriteCmd>, tag: string,
      flux: Feeds.XrayKey)
    ensures var t := Q.Next(Process(db), s, step).store;
            && (tag in s.store.kp ==> tag in t.kp && t.kp[tag] == s.store.kp[tag])
            && (flux in s.store.xray ==> flux in t.xray && t.xray[flux] == s.store.xray[flux])
  {
    hide Apply, Feeds.AfterIncremental;
    if step.Complete? && s.inFlight.Some? {
      var cmd := s.inFlight.value.cmd;
      ApplyToFeeds(db, s.store, cmd);
      if cmd.Kp? && tag in s.store.kp { KeptByIncremental(db, s.store.kp, cmd.kps, Feeds.Tag, Feeds.KpMerge, tag); }
      if cmd.Xray? && flux in s.store.xray {
        KeptByIncremental(db, s.store.xray, cmd.fluxes, Feeds.XrayTag, Feeds.Replace, flux);
      }
    }
  }

  lemma KeptByIncremental<K, V>(db: Database, t: map<K, V>, ps: seq<Feeds.Put<K, V>>, tagOf: K -> string,
      merge: (V, V) -> V, k: K)
    requires k in t
    ensures var u := Feeds.AfterIncremental(db.Castable(), t, ps, tagOf, merge); k in u && u[k] == t[k]
  {
    Feeds.StoredRowsNeverChange(t, ps, tagOf, merge, k);
  }
}
