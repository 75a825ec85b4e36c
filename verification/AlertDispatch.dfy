/** The email alert dispatcher: which subscriptions are due, what a send leaves behind, and
    how far apart two alerts to one account are over any run of cycles. */
module AlertDispatch {
  import opened Prelude

  const COOLDOWN_SECS: int := 3600

  type Email = string
  datatype Reading = Reading(observedAt: int, value: int)
  datatype Subscription = Subscription(email: Email, enabled: bool, kpThreshold: int, windThreshold: int,
    lastNotified: Option<int>)
  datatype Outcome = Sent | Suppressed | Failed
  datatype Line = KpLine(value: int, threshold: int) | WindLine(value: int, threshold: int)

  /** The freshness limits of the two series alerts are raised on. */
  function MaxAge(component: string): Option<int> {
    match component
    case "noaa_kp" => Some(1800)
    case "noaa_solar_wind" => Some(1800)
    case _ => None
  }

  predicate ReadingIsCurrent(component: string, observedAt: int, now: int) {
    match MaxAge(component)
    case Some(limit) => now - observedAt <= limit
    case None => false
  }

  predicate Crosses(component: string, reading: Option<Reading>, threshold: int, now: int) {
    reading.Some? && ReadingIsCurrent(component, reading.value.observedAt, now) && reading.value.value >= threshold
  }

  function AlertLines(kp: Option<Reading>, wind: Option<Reading>, sub: Subscription, now: int): seq<Line> {
    (if Crosses("noaa_kp", kp, sub.kpThreshold, now) then [KpLine(kp.value.value, sub.kpThreshold)] else [])
    + if Crosses("noaa_solar_wind", wind, sub.windThreshold, now) then [WindLine(wind.value.value, sub.windThreshold)]
      else []
  }

  predicate InCooldown(sub: Subscription, now: int) {
    sub.lastNotified.Some? && now - sub.lastNotified.value < COOLDOWN_SECS
  }

  predicate IsDue(sub: Subscription, kp: Option<Reading>, wind: Option<Reading>, now: int) {
    !InCooldown(sub, now) && AlertLines(kp, wind, sub, now) != []
  }

  // ---------------------------------------------------------------- one cycle

  /** The accounts an alert reached, in order; `outcomes` is what the provider answers. */
  function DeliveredTo(subs: seq<Subscription>, outcomes: seq<Outcome>, kp: Option<Reading>, wind: Option<Reading>,
      now: int): seq<Email>
    requires |subs| == |outcomes|
  {
    if subs == [] then []
    else
      var n := |subs| - 1;
      DeliveredTo(subs[..n], outcomes[..n], kp, wind, now)
      + if IsDue(subs[n], kp, wind, now) && outcomes[n] == Sent then [subs[n].email] else []
  }

  /** One pass over the enabled subscriptions; each delivered alert fires one cooldown write. */
  method DispatchEmailAlerts(subs: seq<Subscription>, outcomes: seq<Outcome>, kp: Option<Reading>,
      wind: Option<Reading>, now: int)
    returns (notified: nat, touches: seq<Email>)
    requires |subs| == |outcomes|
    ensures touches == DeliveredTo(subs, outcomes, kp, wind, now) && notified == |touches|
  {
    notified, touches := 0, [];
    for i := 0 to |subs|
      invariant touches == DeliveredTo(subs[..i], outcomes[..i], kp, wind, now) && notified == |touches|
    {
      assert subs[..i + 1][..i] == subs[..i] && outcomes[..i + 1][..i] == outcomes[..i];
      var sub := subs[i];
      assert touches + [] == touches;
      if sub.lastNotified.Some? && now - sub.lastNotified.value < COOLDOWN_SECS {
        continue;
      }
      var lines := AlertLines(kp, wind, sub, now);
      if lines == [] {
        continue;
      }
      if outcomes[i] == Sent {
        touches := touches + [sub.email];
        notified := notified + 1;
      }
    }
    assert subs[..|subs|] == subs && outcomes[..|outcomes|] == outcomes;
  }

  /** The subscription is the account's, outside the cooldown, its send left, and a reading
      crossed its threshold within the series' limit. */
  predicate Reaches(sub: Subscription, outcome: Outcome, kp: Option<Reading>, wind: Option<Reading>, now: int,
      e: Email) {
    && sub.email == e && outcome == Sent && !InCooldown(sub, now)
    && (Crosses("noaa_kp", kp, sub.kpThreshold, now) || Crosses("noaa_solar_wind", wind, sub.windThreshold, now))
  }

  lemma DueAndSentReaches(sub: Subscription, outcome: Outcome, kp: Option<Reading>, wind: Option<Reading>, now: int)
    ensures Reaches(sub, outcome, kp, wind, now, sub.email) <==> IsDue(sub, kp, wind, now) && outcome == Sent
  {
    hide Crosses, InCooldown;
  }

  predicate Reached(subs: seq<Subscription>, outcomes: seq<Outcome>, kp: Option<Reading>, wind: Option<Reading>,
      now: int, e: Email)
    requires |subs| == |outcomes|
  {
    exists i | 0 <= i < |subs| :: Reaches(subs[i], outcomes[i], kp, wind, now, e)
  }

  lemma ReachedByTheLast(subs: seq<Subscription>, outcomes: seq<Outcome>, kp: Option<Reading>, wind: Option<Reading>,
      now: int, e: Email)
    requires |subs| == |outcomes| > 0
    ensures var n := |subs| - 1;
            Reached(subs, outcomes, kp, wind, now, e) <==>
              Reached(subs[..n], outcomes[..n], kp, wind, now, e) || Reaches(subs[n], outcomes[n], kp, wind, now, e)
  {
    hide Reaches;
    var n := |subs| - 1;
    assert forall i | 0 <= i < n :: subs[..n][i] == subs[i] && outcomes[..n][i] == outcomes[i];
  }

  /** Who is reached, and why: exactly the accounts with such a subscription. */
  lemma {:induction false} DeliveredMeansDue(subs: seq<Subscription>, outcomes: seq<Outcome>, kp: Option<Reading>,
      wind: Option<Reading>, now: int, e: Email)
    requires |subs| == |outcomes|
    ensures e in DeliveredTo(subs, outcomes, kp, wind, now) <==> Reached(subs, outcomes, kp, wind, now, e)
  {
    if subs != [] {
      var n := |subs| - 1;
      DueAndSentReaches(subs[n], outcomes[n], kp, wind, now);
      assert Reaches(subs[n], outcomes[n], kp, wind, now, e) ==> subs[n].email == e;
      hide IsDue, Reaches, Reached;
      ReachedByTheLast(subs, outcomes, kp, wind, now, e);
      DeliveredMeansDue(subs[..n], outcomes[..n], kp, wind, now, e);
    }
  }

  /** Every line quotes a reading within its series' limit that reached the account's own
      threshold for that series. */
  lemma EveryLineIsBacked(kp: Option<Reading>, wind: Option<Reading>, sub: Subscription, now: int, line: Line)
    requires line in AlertLines(kp, wind, sub, now)
    ensures line.value >= line.threshold
    ensures line.KpLine? ==>
        && line.threshold == sub.kpThreshold && kp.Some? && kp.value.value == line.value
        && now - kp.value.observedAt <= 1800
    ensures line.WindLine? ==>
        && line.threshold == sub.windThreshold && wind.Some? && wind.value.value == line.value
        && now - wind.value.observedAt <= 1800
  {
  }

  /** A reading of the last half hour at or above a threshold. */
  predicate IsFreshAndHigh(reading: Option<Reading>, threshold: int, now: int) {
    reading.Some? && now - reading.value.observedAt <= 1800 && reading.value.value >= threshold
  }

  /** No alert is on record for the account within the last hour. */
  predicate IsRested(sub: Subscription, now: int) {
    sub.lastNotified.Some? ==> sub.lastNotified.value <= now - 3600
  }

  predicate MustAlert(sub: Subscription, kp: Option<Reading>, wind: Option<Reading>, now: int) {
    IsRested(sub, now) && (IsFreshAndHigh(kp, sub.kpThreshold, now) || IsFreshAndHigh(wind, sub.windThreshold, now))
  }

  /** The mail has a line for each series with a fresh reading at or above the account's own
      threshold for it, the Kp line first, and no other line. */
  lemma LinesExactly(kp: Option<Reading>, wind: Option<Reading>, sub: Subscription, now: int)
    ensures var lines := AlertLines(kp, wind, sub, now);
            var storm, fast := IsFreshAndHigh(kp, sub.kpThreshold, now), IsFreshAndHigh(wind, sub.windThreshold, now);
            && |lines| == (if storm then 1 else 0) + (if fast then 1 else 0)
            && (storm ==> lines[0] == KpLine(kp.value.value, sub.kpThreshold))
            && (fast ==> lines[|lines| - 1] == WindLine(wind.value.value, sub.windThreshold))
    ensures IsDue(sub, kp, wind, now) <==> MustAlert(sub, kp, wind, now)
  {
  }

  function MustReach(subs: seq<Subscription>, outcomes: seq<Outcome>, kp: Option<Reading>, wind: Option<Reading>,
      now: int): set<int>
    requires |subs| == |outcomes|
  {
    set i | 0 <= i < |subs| && outcomes[i] == Sent && MustAlert(subs[i], kp, wind, now)
  }

  function EmailsOf(subs: seq<Subscription>, at: set<int>): set<Email>
    requires forall i | i in at :: 0 <= i < |subs|
  {
    set i | i in at :: subs[i].email
  }

  /** One delivery for each subscription outside its hour with a series fresh and high whose
      send left: as many as there are, and to those accounts. */
  lemma {:induction false} DeliveredExactlyTo(subs: seq<Subscription>, outcomes: seq<Outcome>, kp: Option<Reading>,
      wind: Option<Reading>, now: int)
    requires |subs| == |outcomes|
    ensures var reached := MustReach(subs, outcomes, kp, wind, now);
            && |DeliveredTo(subs, outcomes, kp, wind, now)| == |reached|
            && forall e :: e in DeliveredTo(subs, outcomes, kp, wind, now) <==> e in EmailsOf(subs, reached)
  {
    if subs != [] {
      var n := |subs| - 1;
      DeliveredExactlyTo(subs[..n], outcomes[..n], kp, wind, now);
      LastDelivery(subs, outcomes, kp, wind, now);
      MustReachLast(subs, outcomes, kp, wind, now);
      hide DeliveredTo, MustReach, MustAlert;
      var before := MustReach(subs[..n], outcomes[..n], kp, wind, now);
      EmailsOfLast(subs, before);
    }
  }

  lemma EmailsOfLast(subs: seq<Subscription>, before: set<int>)
    requires subs != [] && forall i | i in before :: 0 <= i < |subs| - 1
    ensures var n := |subs| - 1;
            && EmailsOf(subs, before) == EmailsOf(subs[..n], before)
            && EmailsOf(subs, before + {n}) == EmailsOf(subs, before) + {subs[n].email}
            && before + {} == before && |before + {n}| == |before| + 1
  {
    var n := |subs| - 1;
    assert forall i | i in before :: subs[..n][i] == subs[i];
  }

  lemma LastDelivery(subs: seq<Subscription>, outcomes: seq<Outcome>, kp: Option<Reading>, wind: Option<Reading>,
      now: int)
    requires |subs| == |outcomes| > 0
    ensures var n := |subs| - 1;
            DeliveredTo(subs, outcomes, kp, wind, now) == DeliveredTo(subs[..n], outcomes[..n], kp, wind, now)
              + if outcomes[n] == Sent && MustAlert(subs[n], kp, wind, now) then [subs[n].email] else []
  {
    hide IsDue, MustAlert;
    LinesExactly(kp, wind, subs[|subs| - 1], now);
  }

  lemma MustReachLast(subs: seq<Subscription>, outcomes: seq<Outcome>, kp: Option<Reading>, wind: Option<Reading>,
      now: int)
    requires |subs| == |outcomes| > 0
    ensures var n := |subs| - 1;
            && (forall i | i in MustReach(subs[..n], outcomes[..n], kp, wind, now) :: 0 <= i < n)
            && MustReach(subs, outcomes, kp, wind, now) == MustReach(subs[..n], outcomes[..n], kp, wind, now)
              + if outcomes[n] == Sent && MustAlert(subs[n], kp, wind, now) then {n} else {}
  {
    hide MustAlert;
    var n := |subs| - 1;
    assert forall i | 0 <= i < n :: subs[..n][i] == subs[i] && outcomes[..n][i] == outcomes[i];
  }

  // ---------------------------------------------------------------- runs

  /** An account's row. Saving settings never touches `lastNotified`. */
  type Table = map<Email, Subscription>
  datatype Delivery = Delivery(email: Email, at: int)

  /** The dispatcher keeps the rows and the readings it read at the start of its cycle and
      sends to one due account after another; the writer applies accepted cooldown writes
      whenever it gets to them. `log` and `logged` are history only. */
  datatype State = State(
    table: Table,
    clock: int,
    read: Table,               // the rows the cycle read
    readAt: int,
    due: set<Email>,           // due accounts the cycle has not come to yet
    pending: multiset<Email>,  // cooldown writes accepted, not applied
    log: seq<Delivery>,        // alerts delivered, in order
    logged: nat)               // how many of them when the cycle read

  datatype Step =
    | Save(sub: Subscription)
    | Read(now: int, kp: Option<Reading>, wind: Option<Reading>)         // a cycle starts
    | Send(email: Email, outcome: Outcome, at: int, accepted: bool)      // and comes to an account
    | Apply(email: Email, at: int)                                       // the writer applies a write

  const START: State := State(map[], 0, map[], 0, {}, multiset{}, [], 0)

  /** The accounts a cycle that reads the table must send to. */
  function Due(table: Table, kp: Option<Reading>, wind: Option<Reading>, now: int): set<Email> {
    set e | e in table && table[e].enabled && table[e].email == e && IsDue(table[e], kp, wind, now)
  }

  /** Time never goes back, and a cycle starts when the last one is through. */
  predicate Enabled(s: State, step: Step) {
    match step
    case Save(_) => true
    case Read(now, _, _) => s.due == {} && now >= s.clock
    case Send(e, _, at, _) => e in s.due && at >= s.clock
    case Apply(e, at) => e in s.pending && at >= s.clock
  }

  predicate Delivers(step: Step) {
    step.Send? && step.outcome == Sent
  }

  function Next(s: State, step: Step): State {
    if !Enabled(s, step) then s
    else
      match step
      case Save(sub) =>
        var kept := if sub.email in s.table then s.table[sub.email].lastNotified else None;
        s.(table := s.table[sub.email := sub.(lastNotified := kept)])
      case Read(now, kp, wind) =>
        s.(clock := now, read := s.table, readAt := now, due := Due(s.table, kp, wind, now), logged := |s.log|)
      case Send(e, outcome, at, accepted) =>
        s.(clock := at, due := s.due - {e},
           log := if outcome == Sent then s.log + [Delivery(e, at)] else s.log,
           pending := if outcome == Sent && accepted then s.pending + multiset{e} else s.pending)
      case Apply(e, at) =>
        s.(clock := at, pending := s.pending - multiset{e},
           table := if e in s.table then s.table[e := s.table[e].(lastNotified := Some(at))] else s.table)
  }

  function Run(steps: seq<Step>): State {
    if steps == [] then START else Next(Run(steps[..|steps| - 1]), steps[|steps| - 1])
  }

  /** The subscriptions a cycle reads: the enabled rows, each once, in any order. */
  predicate Lists(subs: seq<Subscription>, table: Table) {
    && (forall i | 0 <= i < |subs| :: subs[i].email in table && table[subs[i].email] == subs[i] && subs[i].enabled)
    && (forall e | e in table && table[e].enabled && table[e].email == e :: table[e] in subs)
  }

  /** The dispatcher's loop delivers to exactly the accounts the cycle's steps deliver to:
      the due ones whose send leaves. */
  lemma {:induction false} DispatchIsACycle(table: Table, subs: seq<Subscription>, outcomes: seq<Outcome>,
      kp: Option<Reading>, wind: Option<Reading>, now: int,
                                            outcomeOf: map<Email, Outcome>, e: Email)
    requires Lists(subs, table) && |subs| == |outcomes|
    requires forall i | 0 <= i < |subs| :: subs[i].email in outcomeOf && outcomeOf[subs[i].email] == outcomes[i]
    ensures e in DeliveredTo(subs, outcomes, kp, wind, now) <==>
        e in Due(table, kp, wind, now) && e in outcomeOf && outcomeOf[e] == Sent
  {
    DeliveredMeansDue(subs, outcomes, kp, wind, now, e);
    if e in Due(table, kp, wind, now) {
      var i :| 0 <= i < |subs| && subs[i] == table[e];
      assert subs[i].email == e;
    }
  }

  /** A cycle that starts sends to exactly the enabled accounts whose row calls for it, as
      the rows and readings are then. */
  lemma ACycleIsForExactly(s: State, now: int, kp: Option<Reading>, wind: Option<Reading>, e: Email)
    requires s.due == {} && now >= s.clock
    ensures var t := Next(s, Read(now, kp, wind));
            && (e in t.due <==>
                 e in s.table && s.table[e].email == e && s.table[e].enabled && MustAlert(s.table[e], kp, wind, now))
            && t.table == s.table && t.log == s.log && t.pending == s.pending && t.clock == now
  {
    if e in s.table { LinesExactly(kp, wind, s.table[e], now); }
  }

  /** A send that leaves is logged and the account not come to again in this cycle; one that
      does not leave logs nothing. No row changes by it. */
  lemma ASendIsLogged(s: State, e: Email, outcome: Outcome, at: int, accepted: bool)
    requires e in s.due && s.clock <= at
    ensures var t := Next(s, Send(e, outcome, at, accepted));
            && t.due == s.due - {e} && t.table == s.table && t.clock == at
            && t.log == s.log + (if outcome.Sent? then [Delivery(e, at)] else [])
            && |t.pending| == |s.pending| + if outcome.Sent? && accepted then 1 else 0
  {
    assert s.log + [] == s.log;
  }

  /** Settings saved are the row's, but for the cooldown, which stays. */
  lemma SavingKeepsTheCooldown(s: State, saved: Subscription)
    ensures var t := Next(s, Save(saved)).table; var e := saved.email;
            && e in t && t == s.table[e := saved.(lastNotified := t[e].lastNotified)]
            && t[e].lastNotified == if e in s.table then s.table[e].lastNotified else None
  {
  }

  /** An alert that leaves and whose cooldown write is accepted puts, once the writer comes
      to it, the moment of that write on the account's row, on settings saved meanwhile. */
  lemma AnAlertStartsItsCooldown(s: State, e: Email, sentAt: int, saved: Subscription, appliedAt: int)
    requires e in s.due && s.clock <= sentAt <= appliedAt && e in s.table && saved.email == e
    ensures var u := Next(Next(Next(s, Send(e, Sent, sentAt, true)), Save(saved)), Apply(e, appliedAt));
            u.table == s.table[e := saved.(lastNotified := Some(appliedAt))] && u.pending == s.pending
  {
    var t := Next(s, Send(e, Sent, sentAt, true));
    assert t.pending == s.pending + multiset{e} && t.pending - multiset{e} == s.pending;
  }

  // ---------------------------------------------------------------- what every run keeps

  predicate OnFile(table: Table, d: Delivery) {
    d.email in table && table[d.email].lastNotified.Some? && d.at <= table[d.email].lastNotified.value
  }

  /** The cooldown on file covers every alert delivered to the account so far. */
  predicate Recorded(s: State, e: Email) {
    forall d | d in s.log && d.email == e :: OnFile(s.table, d)
  }

  /** Alerts to the account are at least an hour apart. */
  predicate Spaced(log: seq<Delivery>, e: Email) {
    forall i, j | 0 <= i < j < |log| && log[i].email == e && log[j].email == e :: log[j].at - log[i].at >= COOLDOWN_SECS
  }

  ghost predicate InTime(s: State) {
    && s.readAt <= s.clock
    && (forall d | d in s.log :: d.at <= s.clock && d.email in s.table)
    && (forall e | e in s.table && s.table[e].lastNotified.Some? :: s.table[e].lastNotified.value <= s.clock)
  }

  /** Only delivered alerts have a cooldown write to apply. */
  ghost predicate PendingDelivered(s: State) {
    forall e | e in s.pending :: exists d | d in s.log :: d.email == e
  }

  /** An account still due was due when the cycle read, and got nothing since. */
  ghost predicate DueSinceRead(s: State) {
    && s.logged <= |s.log|
    && (forall e | e in s.due :: e in s.read && e in s.table && !InCooldown(s.read[e], s.readAt))
    && (forall e, i | e in s.due && s.logged <= i < |s.log| :: s.log[i].email != e)
  }

  ghost predicate Inv(s: State) {
    InTime(s) && PendingDelivered(s) && DueSinceRead(s)
  }

  lemma StepKeepsInTime(s: State, step: Step)
    requires InTime(s) && DueSinceRead(s)
    ensures InTime(Next(s, step))
  {
  }

  lemma StepKeepsPendingDelivered(s: State, step: Step)
    requires PendingDelivered(s)
    ensures PendingDelivered(Next(s, step))
  {
    hide PendingDelivered;
    var t := Next(s, step);
    forall e | e in t.pending
      ensures exists d | d in t.log :: d.email == e
    {
      PendingHasDelivery(s, step, e);
    }
    assert PendingDelivered(t) by { EachPendingDelivered(t); }
  }

  lemma EachPendingDelivered(s: State)
    requires forall e | e in s.pending :: exists d | d in s.log :: d.email == e
    ensures PendingDelivered(s)
  {
  }

  lemma PendingHasDelivery(s: State, step: Step, e: Email)
    requires PendingDelivered(s) && e in Next(s, step).pending
    ensures exists d | d in Next(s, step).log :: d.email == e
  {
  }

  lemma StepKeepsDueSinceRead(s: State, step: Step)
    requires DueSinceRead(s)
    ensures DueSinceRead(Next(s, step))
  {
  }

  lemma {:induction false} RunKeepsInv(steps: seq<Step>)
    ensures Inv(Run(steps))
  {
    hide Next, InTime, PendingDelivered, DueSinceRead;
    if steps != [] {
      RunKeepsInv(steps[..|steps| - 1]);
      StepKeepsPendingDelivered(Run(steps[..|steps| - 1]), steps[|steps| - 1]);
      StepKeepsInTime(Run(steps[..|steps| - 1]), steps[|steps| - 1]);
      StepKeepsDueSinceRead(Run(steps[..|steps| - 1]), steps[|steps| - 1]);
    } else {
      NothingAtStart();
    }
  }

  lemma NothingAtStart()
    ensures Inv(START)
  {
  }

  // ---------------------------------------------------------------- what puts an alert on file

  /** From a state with every alert of an account on file, a step keeps it so unless it
      delivers to that account; and a delivery is on file at once only where a write was
      applied that same second. */
  lemma DeliveryTakesTheRecordOffFile(s: State, step: Step, e: Email)
    requires Inv(s) && Recorded(s, e) && Enabled(s, step)
    ensures Recorded(Next(s, step), e) <==>
        (Delivers(step) && step.email == e ==> s.table[e].lastNotified == Some(step.at))
  {
    var t := Next(s, step);
    if Delivers(step) && step.email == e {
      assert Delivery(e, step.at) in t.log;
    } else {
      forall d | d in t.log && d.email == e
        ensures OnFile(t.table, d)
      {
        assert OnFile(s.table, d);
      }
    }
  }

  /** A cooldown moves only by a write applied for an alert that was delivered. */
  lemma OnlyDeliveryStartsACooldown(s: State, step: Step, e: Email)
    requires Inv(s) && e in s.table && Next(s, step).table[e].lastNotified != s.table[e].lastNotified
    ensures step.Apply? && step.email == e && e in s.pending
    ensures exists d | d in s.log :: d.email == e
  {
  }

  // ---------------------------------------------------------------- an hour apart

  /** A send to the account that leaves within the hour of an earlier alert, whose cooldown
      was not on file when the cycle read: dropped, or applied too late. */
  predicate RepeatsUnrecorded(s: State, step: Step, e: Email) {
    && Enabled(s, step) && Delivers(step) && step.email == e
    && exists i | 0 <= i < |s.log| && i < s.logged ::
         s.log[i].email == step.email && !OnFile(s.read, s.log[i]) && step.at - s.log[i].at < COOLDOWN_SECS
  }

  /** An earlier alert within the hour of a send was delivered before the cycle read, and
      was not on file then. */
  lemma NearAlertWasUnrecorded(s: State, step: Step, i: nat)
    requires Inv(s) && Enabled(s, step) && Delivers(step)
    requires i < |s.log| && s.log[i].email == step.email && step.at - s.log[i].at < COOLDOWN_SECS
    ensures i < s.logged && !OnFile(s.read, s.log[i])
  {
  }

  lemma StepKeepsSpacing(s: State, step: Step, e: Email)
    requires Inv(s) && Spaced(s.log, e)
    ensures Spaced(Next(s, step).log, e) <==> !RepeatsUnrecorded(s, step, e)
  {
    var t := Next(s, step);
    if RepeatsUnrecorded(s, step, e) {
      var i :| 0 <= i < |s.log| && i < s.logged && s.log[i].email == e && step.at - s.log[i].at < COOLDOWN_SECS;
      assert t.log[i] == s.log[i] && t.log[|s.log|] == Delivery(e, step.at);
    } else if Enabled(s, step) && Delivers(step) && step.email == e {
      forall i | 0 <= i < |s.log| && s.log[i].email == e
        ensures step.at - s.log[i].at >= COOLDOWN_SECS
      {
        if step.at - s.log[i].at < COOLDOWN_SECS { NearAlertWasUnrecorded(s, step, i); }
      }
    }
  }

  lemma {:induction false} LogGrows(steps: seq<Step>, n: nat)
    requires n <= |steps|
    ensures |Run(steps[..n]).log| <= |Run(steps).log| && Run(steps).log[..|Run(steps[..n]).log|] == Run(steps[..n]).log
    decreases |steps|
  {
    if n < |steps| {
      var init := steps[..|steps| - 1];
      assert init[..n] == steps[..n];
      LogGrows(init, n);
      StepGrowsLog(Run(init), steps[|steps| - 1]);
      hide Next;
    } else {
      assert steps[..n] == steps;
    }
  }

  lemma StepGrowsLog(s: State, step: Step)
    ensures |s.log| <= |Next(s, step).log| && Next(s, step).log[..|s.log|] == s.log
  {
  }

  /** Over every run and for every account: its alerts are always an hour apart exactly when
      no send to it left within the hour of an alert to it whose cooldown was not on file
      when the cycle read. Other accounts, failed sends, saved settings and the timing of
      the writer otherwise do not matter. */
  lemma {:induction false} AlertsAreAnHourApartIff(steps: seq<Step>, e: Email)
    ensures Spaced(Run(steps).log, e) <==>
        forall n | 0 <= n < |steps| :: !RepeatsUnrecorded(Run(steps[..n]), steps[n], e)
    decreases |steps|
  {
    hide Next, RepeatsUnrecorded, Spaced, Inv, Run;
    if steps == [] {
      NothingLogged(e);
    } else {
      var m := |steps| - 1;
      AlertsAreAnHourApartIff(steps[..m], e);
      RepeatsOfPrefix(steps, e);
      RunKeepsInv(steps[..m]);
      LastStep(steps);
      if Spaced(Run(steps[..m]).log, e) {
        StepKeepsSpacing(Run(steps[..m]), steps[m], e);
      } else {
        LogGrows(steps, m);
        if Spaced(Run(steps).log, e) { PrefixIsSpaced(Run(steps).log, |Run(steps[..m]).log|, e); }
      }
    }
  }

  lemma NothingLogged(e: Email)
    ensures Spaced(Run([]).log, e)
  {
  }

  lemma LastStep(steps: seq<Step>)
    requires steps != []
    ensures Run(steps) == Next(Run(steps[..|steps| - 1]), steps[|steps| - 1])
  {
  }

  lemma {:induction false} RepeatsOfPrefix(steps: seq<Step>, e: Email)
    requires steps != []
    ensures var m := |steps| - 1;
            (forall n | 0 <= n < |steps| :: !RepeatsUnrecorded(Run(steps[..n]), steps[n], e)) <==>
            (forall n | 0 <= n < |steps[..m]| :: !RepeatsUnrecorded(Run(steps[..m][..n]), steps[..m][n], e))
              && !RepeatsUnrecorded(Run(steps[..m]), steps[m], e)
  {
    hide Run, RepeatsUnrecorded;
    var m := |steps| - 1;
    assert forall n | 0 <= n < m :: steps[..m][..n] == steps[..n] && steps[..m][n] == steps[n];
  }

  lemma PrefixIsSpaced(log: seq<Delivery>, n: nat, e: Email)
    requires n <= |log| && Spaced(log, e)
    ensures Spaced(log[..n], e)
  {
  }

  /** The step starts a cycle that finds the account due. */
  predicate FindsDue(s: State, step: Step, e: Email) {
    step.Read? && e in Due(s.table, step.kp, step.wind, step.now)
  }

  /** In particular, when every cycle that finds an account due finds its alerts on file, its
      alerts are an hour apart. */
  lemma {:induction false} AlertsAreAnHourApart(steps: seq<Step>, e: Email)
    requires forall n | 0 <= n < |steps| && FindsDue(Run(steps[..n]), steps[n], e) :: Recorded(Run(steps[..n]), e)
    ensures Spaced(Run(steps).log, e)
  {
    hide Next, RepeatsUnrecorded, Run, Recorded, Spaced, ReadRecorded, FindsDue;
    AlertsAreAnHourApartIff(steps, e);
    forall n | 0 <= n < |steps|
      ensures !RepeatsUnrecorded(Run(steps[..n]), steps[n], e)
    {
      PrefixReadsRecorded(steps, n, e);
      CyclesReadRecorded(steps[..n], e);
      RecordedReadRepeatsNothing(Run(steps[..n]), steps[n], e);
    }
  }

  lemma PrefixReadsRecorded(steps: seq<Step>, n: nat, e: Email)
    requires n <= |steps|
    requires forall m | 0 <= m < |steps| && FindsDue(Run(steps[..m]), steps[m], e) :: Recorded(Run(steps[..m]), e)
    ensures forall m | 0 <= m < n && FindsDue(Run(steps[..n][..m]), steps[..n][m], e) ::
        Recorded(Run(steps[..n][..m]), e)
  {
    hide Run, Recorded, FindsDue;
    forall m | 0 <= m < n && FindsDue(Run(steps[..n][..m]), steps[..n][m], e)
      ensures Recorded(Run(steps[..n][..m]), e)
    {
      assert steps[..n][..m] == steps[..m];
    }
  }

  ghost predicate ReadRecorded(s: State, e: Email) {
    e in s.due ==>
      s.logged <= |s.log| && forall i | 0 <= i < s.logged && s.log[i].email == e :: OnFile(s.read, s.log[i])
  }

  lemma {:induction false} CyclesReadRecorded(steps: seq<Step>, e: Email)
    requires forall n | 0 <= n < |steps| && FindsDue(Run(steps[..n]), steps[n], e) :: Recorded(Run(steps[..n]), e)
    ensures ReadRecorded(Run(steps), e)
    decreases |steps|
  {
    if steps != [] {
      var m := |steps| - 1;
      PrefixReadsRecorded(steps, m, e);
      CyclesReadRecorded(steps[..m], e);
      assert FindsDue(Run(steps[..m]), steps[m], e) ==> Recorded(Run(steps[..m]), e);
      hide Next, Recorded, ReadRecorded, FindsDue;
      StepKeepsReadRecorded(Run(steps[..m]), steps[m], e);
    }
  }

  lemma StepKeepsReadRecorded(s: State, step: Step, e: Email)
    requires ReadRecorded(s, e) && (FindsDue(s, step, e) ==> Recorded(s, e))
    ensures ReadRecorded(Next(s, step), e)
  {
  }

  lemma RecordedReadRepeatsNothing(s: State, step: Step, e: Email)
    requires ReadRecorded(s, e)
    ensures !RepeatsUnrecorded(s, step, e)
  {
  }

  /** Every account and every cycle: where an alert is not on file, whether its write was
      dropped or is still waiting, a cycle within the hour that finds the account due and
      whose send leaves repeats it. */
  lemma AnUnrecordedAlertIsRepeated(s: State, d: Delivery, kp: Option<Reading>, wind: Option<Reading>, now: int,
      at: int, accepted: bool)
    requires Inv(s) && d in s.log && !OnFile(s.table, d) && s.due == {} && s.clock <= now <= at
        && at - d.at < COOLDOWN_SECS
    requires d.email in Due(s.table, kp, wind, now)
    ensures var r := Next(s, Read(now, kp, wind)); var send := Send(d.email, Sent, at, accepted);
            Enabled(r, send) && RepeatsUnrecorded(r, send, d.email) && !Spaced(Next(r, send).log, d.email)
  {
    var r := Next(s, Read(now, kp, wind));
    var send := Send(d.email, Sent, at, accepted);
    var i :| 0 <= i < |s.log| && s.log[i] == d;
    assert r.log[i] == d && i < r.logged;
    var log := Next(r, send).log;
    assert log[i] == d && log[|r.log|] == Delivery(d.email, at);
  }

  /** An alert is not on file while its own write is not applied: dropped or late, the row
      the next cycle reads still says what it said. */
  lemma UnappliedWriteLeavesAlertsOffFile(s: State, send: Step)
    requires Inv(s) && Enabled(s, send) && Delivers(send) && s.table[send.email].lastNotified != Some(send.at)
    ensures !OnFile(Next(s, send).table, Delivery(send.email, send.at))
        && Delivery(send.email, send.at) in Next(s, send).log
  {
  }

  /** The steps of two cycles a minute apart over one subscription and one storm reading. */
  function TwoCycles(e: Email, accepted: bool): seq<Step> {
    var kp := Some(Reading(0, 600));
    [Save(Subscription(e, true, 500, 7000, None)), Read(0, kp, None), Send(e, Sent, 0, accepted), Read(60, kp, None),
      Send(e, Sent, 60, accepted)]
  }

  /** Nothing but applying one of the account's writes puts an alert on file. */
  lemma {:induction false} OnFileIffApplied(steps: seq<Step>, m: nat, n: nat, d: Delivery)
    requires m <= n <= |steps| && d in Run(steps[..m]).log && !OnFile(Run(steps[..m]).table, d)
    ensures d in Run(steps[..n]).log
    ensures OnFile(Run(steps[..n]).table, d) <==>
            exists k | m <= k < n :: steps[k].Apply? && steps[k].email == d.email && Enabled(Run(steps[..k]), steps[k])
    decreases n - m
  {
    hide Next, Run, Enabled, OnFile, Inv;
    if m < n {
      OnFileIffApplied(steps, m, n - 1, d);
      RunKeepsInv(steps[..n - 1]);
      assert steps[..n][..n - 1] == steps[..n - 1];
      LastStep(steps[..n]);
      StepPutsOnFile(Run(steps[..n - 1]), steps[n - 1], d);
    }
  }

  lemma StepPutsOnFile(s: State, step: Step, d: Delivery)
    requires Inv(s) && d in s.log
    ensures d in Next(s, step).log
    ensures OnFile(Next(s, step).table, d) <==>
        OnFile(s.table, d) || (step.Apply? && step.email == d.email && Enabled(s, step))
  {
  }

  /** It can happen from the start, with the first write dropped, and also with the first
      write accepted and merely late. */
  lemma ALateOrDroppedWriteRepeatsTheAlert(e: Email, accepted: bool)
    ensures !Spaced(Run(TwoCycles(e, accepted)).log, e)
    ensures Run(TwoCycles(e, accepted)).pending == if accepted then multiset{e, e} else multiset{}
  {
    hide Next, Run, Spaced;
    RunFive(TwoCycles(e, accepted));
    FirstCycle(e, accepted);
    SecondCycle(e, accepted);
  }

  lemma RunFive(steps: seq<Step>)
    requires |steps| == 5
    ensures Run(steps) == Next(Next(Next(Next(Next(START, steps[0]), steps[1]), steps[2]), steps[3]), steps[4])
  {
    hide Next, Run;
    assert steps[..5] == steps && steps[..4][..3] == steps[..3] && steps[..3][..2] == steps[..2]
      && steps[..2][..1] == steps[..1] && steps[..1][..0] == [];
    LastStep(steps);
    LastStep(steps[..4]);
    LastStep(steps[..3]);
    LastStep(steps[..2]);
    LastStep(steps[..1]);
    RunOfNothing();
  }

  lemma RunOfNothing()
    ensures Run([]) == START
  {
  }

  function Alerted(e: Email, accepted: bool): State {
    var table := map[e := Subscription(e, true, 500, 7000, None)];
    State(table, 0, table, 0, {}, if accepted then multiset{e} else multiset{}, [Delivery(e, 0)], 0)
  }

  lemma FirstCycle(e: Email, accepted: bool)
    ensures var steps := TwoCycles(e, accepted);
            Next(Next(Next(START, steps[0]), steps[1]), steps[2]) == Alerted(e, accepted)
  {
    var kp := Some(Reading(0, 600));
    var sub := Subscription(e, true, 500, 7000, None);
    var s1 := Next(START, Save(sub));
    assert s1.table == map[e := sub];
    assert AlertLines(kp, None, sub, 0) == [KpLine(600, 500)];
    var s2 := Next(s1, Read(0, kp, None));
    assert Due(s1.table, kp, None, 0) == {e} && s2.due - {e} == {};
  }

  lemma SecondCycle(e: Email, accepted: bool)
    ensures var steps := TwoCycles(e, accepted); var s := Next(Next(Alerted(e, accepted), steps[3]), steps[4]);
            !Spaced(s.log, e) && s.pending == if accepted then multiset{e, e} else multiset{}
  {
    var kp := Some(Reading(0, 600));
    var s := Alerted(e, accepted);
    assert AlertLines(kp, None, s.table[e], 60) == [KpLine(600, 500)];
    var t := Next(s, Read(60, kp, None));
    assert e in Due(s.table, kp, None, 60) && e in t.due;
    var u := Next(t, Send(e, Sent, 60, accepted));
    assert u.log == [Delivery(e, 0), Delivery(e, 60)];
    assert u.log[0].email == u.log[1].email;
  }
}
