/** The single database writer: a bounded channel fed by fire-and-forget writes, which are
    dropped when it is full, and by requests, which wait for room and for a reply. Every
    interleaving of the callers with the writer is a sequence of steps. */
module WriterQueue {
  import opened Prelude

  const CAPACITY: nat := 1024

  /** A write in the channel; a request carries the address of its reply. */
  datatype Entry<Cmd> = Fired(cmd: Cmd) | Asked(cmd: Cmd, id: nat)
  datatype Answer<Reply> = Answer(id: nat, reply: Reply)

  /** `accepted` is history only: every write the channel took, in order. */
  datatype State<S, Cmd, Reply> = State(
    store: S,
    queue: seq<Entry<Cmd>>,
    inFlight: Option<Entry<Cmd>>,
    waiting: map<nat, Cmd>,      // requests waiting for room
    granted: map<nat, Cmd>,      // requests holding a place they have not filled yet
    nextId: nat,
    answers: seq<Answer<Reply>>,
    accepted: seq<Entry<Cmd>>)

  datatype Step<Cmd> =
    | Fire(cmd: Cmd)      // try_send
    | Ask(cmd: Cmd)       // a request starts waiting
    | Grant(id: nat)      // room is set aside for it
    | Push(id: nat)       // it enters the channel
    | GiveUp(id: nat)     // its caller goes away before that
    | Receive             // the writer takes the oldest entry
    | Complete            // and processes it, replying to a request

  type Process<!S, !Cmd, !Reply> = (S, Cmd) -> (S, Reply)

  function Init<S, Cmd, Reply>(store: S): State<S, Cmd, Reply> {
    State(store, [], None, map[], map[], 0, [], [])
  }

  predicate HasRoom<S, Cmd, Reply>(s: State<S, Cmd, Reply>) {
    |s.queue| + |s.granted| < CAPACITY
  }

  /** The effect of one step; a step that is not enabled changes nothing. */
  function Next<S, Cmd, Reply>(process: Process<S, Cmd, Reply>, s: State<S, Cmd, Reply>, step: Step<Cmd>): State<S, Cmd,
      Reply> {
    match step
    case Fire(cmd) =>
      if HasRoom(s) then s.(queue := s.queue + [Fired(cmd)], accepted := s.accepted + [Fired(cmd)]) else s
    case Ask(cmd) => s.(waiting := s.waiting[s.nextId := cmd], nextId := s.nextId + 1)
    case Grant(id) =>
      if id in s.waiting && HasRoom(s) then s.(waiting := s.waiting - {id}, granted := s.granted[id := s.waiting[id]])
        else s
    case Push(id) =>
      if id in s.granted then
        var e := Asked(s.granted[id], id);
        s.(granted := s.granted - {id}, queue := s.queue + [e], accepted := s.accepted + [e])
      else s
    case GiveUp(id) => s.(waiting := s.waiting - {id}, granted := s.granted - {id})
    case Receive =>
      if s.inFlight.None? && s.queue != [] then s.(inFlight := Some(s.queue[0]), queue := s.queue[1..]) else s
    case Complete =>
      if s.inFlight.None? then s
      else
        var (store, reply) := process(s.store, s.inFlight.value.cmd);
        s.(store := store, inFlight := None,
           answers := if s.inFlight.value.Asked? then s.answers + [Answer(s.inFlight.value.id, reply)] else s.answers)
  }

  function Run<S, Cmd, Reply>(process: Process<S, Cmd, Reply>, s: State<S, Cmd, Reply>, steps: seq<Step<Cmd>>): State<S,
      Cmd, Reply> {
    if steps == [] then s else Next(process, Run(process, s, steps[..|steps| - 1]), steps[|steps| - 1])
  }

  // ---------------------------------------------------------------- the reference meaning

  /** Processing a list of writes one after another, no queue anywhere. */
  function Replay<S, Cmd, Reply>(process: Process<S, Cmd, Reply>, store: S, es: seq<Entry<Cmd>>): S {
    if es == [] then store
    else process(Replay(process, store, es[..|es| - 1]), es[|es| - 1].cmd).0
  }

  function ReplayAnswers<S, Cmd, Reply>(process: Process<S, Cmd, Reply>, store: S,
      es: seq<Entry<Cmd>>): seq<Answer<Reply>> {
    if es == [] then []
    else
      var init, e := es[..|es| - 1], es[|es| - 1];
      ReplayAnswers(process, store, init)
      + if e.Asked? then [Answer(e.id, process(Replay(process, store, init), e.cmd).1)] else []
  }

  /** How many accepted writes have been processed. */
  function Done<S, Cmd, Reply>(s: State<S, Cmd, Reply>): int {
    |s.accepted| - |s.queue| - if s.inFlight.Some? then 1 else 0
  }

  predicate IdsFresh<Cmd>(es: seq<Entry<Cmd>>, nextId: nat) {
    && (forall i | 0 <= i < |es| && es[i].Asked? :: es[i].id < nextId)
    && (forall i, j | 0 <= i < j < |es| && es[i].Asked? && es[j].Asked? :: es[i].id != es[j].id)
  }

  /** A request is pending, or was accepted, but never both. */
  ghost predicate PendingApart<S, Cmd, Reply>(s: State<S, Cmd, Reply>) {
    && s.waiting.Keys !! s.granted.Keys
    && (forall id | id in s.waiting || id in s.granted :: id < s.nextId)
    && (forall i | 0 <= i < |s.accepted| && s.accepted[i].Asked? ::
          s.accepted[i].id !in s.waiting && s.accepted[i].id !in s.granted)
  }

  ghost predicate Inv<S, Cmd, Reply>(process: Process<S, Cmd, Reply>, store: S, s: State<S, Cmd, Reply>) {
    var n := Done(s);
    && |s.queue| + |s.granted| <= CAPACITY
    && 0 <= n <= |s.accepted|
    && s.accepted[|s.accepted| - |s.queue|..] == s.queue
    && (s.inFlight.Some? ==> s.accepted[n] == s.inFlight.value)
    && s.store == Replay(process, store, s.accepted[..n])
    && s.answers == ReplayAnswers(process, store, s.accepted[..n])
    && IdsFresh(s.accepted, s.nextId)
    && PendingApart(s)
  }

  // ---------------------------------------------------------------- every step keeps it

  lemma AcceptKeepsInv<S, Cmd, Reply>(process: Process<S, Cmd, Reply>, store: S, s: State<S, Cmd, Reply>, e: Entry<Cmd>,
      t: State<S, Cmd, Reply>)
    requires Inv(process, store, s) && PendingApart(t) && |s.queue| + 1 + |t.granted| <= CAPACITY
    requires t == s.(queue := s.queue + [e], accepted := s.accepted + [e], granted := t.granted)
    requires e.Asked? ==> e.id < s.nextId && e.id in s.granted
    ensures Inv(process, store, t)
  {
    var n := Done(s);
    assert Done(t) == n;
    assert t.accepted[..n] == s.accepted[..n];
    var k := |s.accepted| - |s.queue|;
    assert t.accepted[k..] == s.accepted[k..] + [e];
  }

  /** Steps that only move requests around outside the channel. */
  lemma PendingKeepsInv<S, Cmd, Reply>(process: Process<S, Cmd, Reply>, store: S, s: State<S, Cmd, Reply>, t: State<S,
      Cmd, Reply>)
    requires Inv(process, store, s) && PendingApart(t) && |s.queue| + |t.granted| <= CAPACITY && s.nextId <= t.nextId
    requires t == s.(waiting := t.waiting, granted := t.granted, nextId := t.nextId)
    ensures Inv(process, store, t)
  {
  }

  lemma ReceiveKeepsInv<S, Cmd, Reply>(process: Process<S, Cmd, Reply>, store: S, s: State<S, Cmd, Reply>)
    requires Inv(process, store, s) && s.inFlight.None? && s.queue != []
    ensures Inv(process, store, Next(process, s, Receive))
  {
  }

  lemma CompleteKeepsInv<S, Cmd, Reply>(process: Process<S, Cmd, Reply>, store: S, s: State<S, Cmd, Reply>)
    requires Inv(process, store, s) && s.inFlight.Some?
    ensures Inv(process, store, Next(process, s, Complete))
  {
    var n, t := Done(s), Next(process, s, Complete);
    var done := s.accepted[..n + 1];
    assert done[..n] == s.accepted[..n] && done[n] == s.inFlight.value;
    assert s.answers + [] == s.answers;
    assert t.store == Replay(process, store, done) && t.answers == ReplayAnswers(process, store, done);
    hide Replay, ReplayAnswers;
    assert Done(t) == n + 1;
  }

  lemma PushKeepsInv<S, Cmd, Reply>(process: Process<S, Cmd, Reply>, store: S, s: State<S, Cmd, Reply>, id: nat)
    requires Inv(process, store, s) && id in s.granted
    ensures Inv(process, store, Next(process, s, Push(id)))
  {
    Removed(s.granted, id);
    AcceptKeepsInv(process, store, s, Asked(s.granted[id], id), Next(process, s, Push(id)));
  }

  lemma GrantKeepsInv<S, Cmd, Reply>(process: Process<S, Cmd, Reply>, store: S, s: State<S, Cmd, Reply>, id: nat)
    requires Inv(process, store, s) && id in s.waiting && HasRoom(s)
    ensures Inv(process, store, Next(process, s, Grant(id)))
  {
  }

  lemma GiveUpKeepsInv<S, Cmd, Reply>(process: Process<S, Cmd, Reply>, store: S, s: State<S, Cmd, Reply>, id: nat)
    requires Inv(process, store, s)
    ensures Inv(process, store, Next(process, s, GiveUp(id)))
  {
  }

  lemma AskKeepsInv<S, Cmd, Reply>(process: Process<S, Cmd, Reply>, store: S, s: State<S, Cmd, Reply>, cmd: Cmd)
    requires Inv(process, store, s)
    ensures Inv(process, store, Next(process, s, Ask(cmd)))
  {
    PendingKeepsInv(process, store, s, Next(process, s, Ask(cmd)));
  }

  lemma FireKeepsInv<S, Cmd, Reply>(process: Process<S, Cmd, Reply>, store: S, s: State<S, Cmd, Reply>, cmd: Cmd)
    requires Inv(process, store, s) && HasRoom(s)
    ensures Inv(process, store, Next(process, s, Fire(cmd)))
  {
    AcceptKeepsInv(process, store, s, Fired(cmd), Next(process, s, Fire(cmd)));
  }

  lemma NextKeepsInv<S, Cmd, Reply>(process: Process<S, Cmd, Reply>, store: S, s: State<S, Cmd, Reply>, step: Step<Cmd>)
    requires Inv(process, store, s)
    ensures Inv(process, store, Next(process, s, step))
  {
    hide Inv;
    match step {
      case Fire(cmd) => if HasRoom(s) { FireKeepsInv(process, store, s, cmd); }
      case Ask(cmd) => AskKeepsInv(process, store, s, cmd);
      case Grant(id) => if id in s.waiting && HasRoom(s) { GrantKeepsInv(process, store, s, id); }
      case Push(id) => if id in s.granted { PushKeepsInv(process, store, s, id); }
      case GiveUp(id) => GiveUpKeepsInv(process, store, s, id);
      case Receive => if s.inFlight.None? && s.queue != [] { ReceiveKeepsInv(process, store, s); }
      case Complete => if s.inFlight.Some? { CompleteKeepsInv(process, store, s); }
    }
  }

  lemma Removed<K, V>(m: map<K, V>, k: K)
    ensures |m - {k}| == |m| - if k in m then 1 else 0
  {
  }

  /** In every interleaving: the store is the replay of the accepted writes processed so
      far, in acceptance order, and the channel never holds more than its capacity. */
  lemma {:induction false} EveryInterleavingIsAReplay<S, Cmd,
      Reply>(process: Process<S, Cmd, Reply>, store: S, steps: seq<Step<Cmd>>)
    ensures Inv(process, store, Run(process, Init(store), steps))
  {
    hide Inv, Next;
    if steps == [] {
      InitialInv(process, store);
    } else {
      EveryInterleavingIsAReplay(process, store, steps[..|steps| - 1]);
      NextKeepsInv(process, store, Run(process, Init(store), steps[..|steps| - 1]), steps[|steps| - 1]);
    }
  }

  lemma InitialInv<S, Cmd, Reply>(process: Process<S, Cmd, Reply>, store: S)
    ensures Inv(process, store, Init(store))
  {
    var s: State<S, Cmd, Reply> := Init(store);
    ReplayOfNothing(process, store);
    NothingPending<S, Cmd, Reply>(store);
    hide Replay, ReplayAnswers, PendingApart, IdsFresh;
    assert s.queue == [] && s.accepted == [];
    assert s.accepted[0..] == s.queue;
  }

  lemma NothingPending<S, Cmd, Reply>(store: S)
    ensures var s: State<S, Cmd, Reply> := Init(store);
        PendingApart(s) && IdsFresh(s.accepted, s.nextId) && |s.granted| == 0
  {
  }

  lemma ReplayOfNothing<S, Cmd, Reply>(process: Process<S, Cmd, Reply>, store: S)
    ensures Replay(process, store, []) == store && ReplayAnswers(process, store, []) == []
  {
  }

  // ---------------------------------------------------------------- replies

  function AnswersTo<Reply>(answers: seq<Answer<Reply>>, id: nat): seq<Reply> {
    if answers == [] then []
    else AnswersTo(answers[..|answers| - 1], id) + if answers[|answers| - 1].id == id then
      [answers[|answers| - 1].reply] else []
  }

  lemma AnswersToAppend<Reply>(answers: seq<Answer<Reply>>, a: Answer<Reply>, id: nat)
    ensures AnswersTo(answers + [a], id) == AnswersTo(answers, id) + if a.id == id then [a.reply] else []
  {
  }

  lemma {:induction false} AnswersOfReplay<S, Cmd,
      Reply>(process: Process<S, Cmd, Reply>, store: S, es: seq<Entry<Cmd>>, nextId: nat, i: nat)
    requires i < |es| && es[i].Asked? && IdsFresh(es, nextId)
    ensures AnswersTo(ReplayAnswers(process, store, es), es[i].id) ==
        [process(Replay(process, store, es[..i]), es[i].cmd).1]
    decreases |es|
  {
    var n := |es| - 1;
    var init := es[..n];
    var before := ReplayAnswers(process, store, init);
    if i < n {
      assert es[..i] == init[..i];
      AnswersOfReplay(process, store, init, nextId, i);
    } else {
      NoAnswerYet(process, store, init, es[n].id);
    }
    assert before + [] == before;
    if es[n].Asked? {
      AnswersToAppend(before, Answer(es[n].id, process(Replay(process, store, init), es[n].cmd).1), es[i].id);
    }
  }

  lemma {:induction false} NoAnswerYet<S, Cmd,
      Reply>(process: Process<S, Cmd, Reply>, store: S, es: seq<Entry<Cmd>>, id: nat)
    requires forall i | 0 <= i < |es| && es[i].Asked? :: es[i].id != id
    ensures AnswersTo(ReplayAnswers(process, store, es), id) == []
    decreases |es|
  {
    if es != [] {
      var n := |es| - 1;
      NoAnswerYet(process, store, es[..n], id);
      assert ReplayAnswers(process, store, es[..n]) + [] == ReplayAnswers(process, store, es[..n]);
      if es[n].Asked? {
        var before := Replay(process, store, es[..n]);
        AnswersToAppend(ReplayAnswers(process, store, es[..n]), Answer(es[n].id, process(before, es[n].cmd).1), id);
      }
    }
  }

  /** An accepted request is answered exactly once, when it is processed and not before,
      with the reply it gets after exactly the writes accepted ahead of it. */
  lemma {:induction false} AnsweredExactlyOnce<S, Cmd,
      Reply>(process: Process<S, Cmd, Reply>, store: S, steps: seq<Step<Cmd>>, i: nat)
    requires i < |Run(process, Init(store), steps).accepted| && Run(process, Init(store), steps).accepted[i].Asked?
    ensures var s := Run(process, Init(store), steps); var e := s.accepted[i];
            AnswersTo(s.answers, e.id) ==
            if i < Done(s) then [process(Replay(process, store, s.accepted[..i]), e.cmd).1] else []
  {
    var s := Run(process, Init(store), steps);
    EveryInterleavingIsAReplay(process, store, steps);
    var done := s.accepted[..Done(s)];
    if i < Done(s) {
      AnswersOfReplay(process, store, done, s.nextId, i);
      assert done[..i] == s.accepted[..i];
    } else {
      NoAnswerYet(process, store, done, s.accepted[i].id);
    }
  }

  /** When a reply arrives, the store holds its own write and every write accepted before
      it: what is there is the replay of those, followed by later writes only. */
  lemma {:induction false} ReplyMeansWritten<S, Cmd,
      Reply>(process: Process<S, Cmd, Reply>, store: S, steps: seq<Step<Cmd>>, i: nat)
    requires i < |Run(process, Init(store), steps).accepted| && Run(process, Init(store), steps).accepted[i].Asked?
    requires var s := Run(process, Init(store), steps); AnswersTo(s.answers, s.accepted[i].id) != []
    ensures var s := Run(process, Init(store), steps);
            && i < Done(s) <= |s.accepted|
            && s.store == Replay(process, Replay(process, store, s.accepted[..i + 1]), s.accepted[i + 1..Done(s)])
  {
    var s := Run(process, Init(store), steps);
    EveryInterleavingIsAReplay(process, store, steps);
    AnsweredExactlyOnce(process, store, steps, i);
    hide AnswersTo, Replay, ReplayAnswers, Run, PendingApart, IdsFresh;
    assert s.accepted[..Done(s)] == s.accepted[..i + 1] + s.accepted[i + 1..Done(s)];
    ReplayAppend(process, store, s.accepted[..i + 1], s.accepted[i + 1..Done(s)]);
  }

  lemma {:induction false} ReplayAppend<S, Cmd,
      Reply>(process: Process<S, Cmd, Reply>, store: S, es: seq<Entry<Cmd>>, fs: seq<Entry<Cmd>>)
    ensures Replay(process, store, es + fs) == Replay(process, Replay(process, store, es), fs)
    decreases |fs|
  {
    if fs == [] {
      assert es + fs == es;
    } else {
      var all := es + fs;
      assert all[..|all| - 1] == es + fs[..|fs| - 1];
      ReplayAppend(process, store, es, fs[..|fs| - 1]);
    }
  }

  /** A write dropped at a full channel leaves no trace, and it is dropped only then. */
  lemma DroppedFireLeavesNoTrace<S, Cmd, Reply>(process: Process<S, Cmd, Reply>, s: State<S, Cmd, Reply>, cmd: Cmd)
    ensures Next(process, s, Fire(cmd)) == s <==> |s.queue| + |s.granted| >= 1024
  {
  }

  // ---------------------------------------------------------------- the running writer

  /** What the writer does when nobody else moves: work until the channel is empty. */
  function Drained<S, Cmd, Reply>(process: Process<S, Cmd, Reply>, s: State<S, Cmd, Reply>): State<S, Cmd, Reply>
    decreases |s.queue|, if s.inFlight.Some? then 1 else 0
  {
    if s.inFlight.Some? then Drained(process, Next(process, s, Complete))
    else if s.queue != [] then Drained(process, Next(process, Next(process, s, Receive), Complete))
    else s
  }

  /** Every accepted write is processed in the end: an idle writer has done them all. */
  lemma {:induction false} DrainingFinishesEverything<S, Cmd,
      Reply>(process: Process<S, Cmd, Reply>, store: S, s: State<S, Cmd, Reply>)
    requires Inv(process, store, s)
    ensures var t := Drained(process, s);
            && Inv(process, store, t) && t.accepted == s.accepted && Done(t) == |t.accepted|
            && t.store == Replay(process, store, s.accepted) && t.answers == ReplayAnswers(process, store, s.accepted)
    decreases |s.queue|, if s.inFlight.Some? then 1 else 0
  {
    if s.inFlight.Some? {
      NextKeepsInv(process, store, s, Complete);
      DrainingFinishesEverything(process, store, Next(process, s, Complete));
    } else if s.queue != [] {
      NextKeepsInv(process, store, s, Receive);
      NextKeepsInv(process, store, Next(process, s, Receive), Complete);
      DrainingFinishesEverything(process, store, Next(process, Next(process, s, Receive), Complete));
    } else {
      assert s.accepted[..|s.accepted|] == s.accepted;
    }
  }

  // ---------------------------------------------------------------- no request is lost

  /** The commands asked for, in order: the n-th request has address n. */
  function AskedCommands<Cmd>(steps: seq<Step<Cmd>>): seq<Cmd> {
    if steps == [] then []
    else
      var last := steps[|steps| - 1];
      AskedCommands(steps[..|steps| - 1]) + if last.Ask? then [last.cmd] else []
  }

  /** The commands that entered the channel under one address. */
  function EnteredAs<Cmd>(es: seq<Entry<Cmd>>, id: nat): seq<Cmd> {
    if es == [] then []
    else
      var last := es[|es| - 1];
      EnteredAs(es[..|es| - 1], id) + if last.Asked? && last.id == id then [last.cmd] else []
  }

  /** The fired commands that entered the channel. */
  function EnteredFired<Cmd>(es: seq<Entry<Cmd>>): seq<Cmd> {
    if es == [] then []
    else
      var last := es[|es| - 1];
      EnteredFired(es[..|es| - 1]) + if last.Fired? then [last.cmd] else []
  }

  /** The request is in exactly one place: waiting for room, holding room, in the channel's
      history once and with its own command, or given up. */
  ghost predicate IsSomewhere<S, Cmd, Reply(!new)>(s: State<S, Cmd, Reply>, id: nat, cmd: Cmd, givenUp: bool) {
    || (id in s.waiting && s.waiting[id] == cmd && id !in s.granted && EnteredAs(s.accepted, id) == [])
    || (id in s.granted && s.granted[id] == cmd && id !in s.waiting && EnteredAs(s.accepted, id) == [])
    || (EnteredAs(s.accepted, id) == [cmd] && id !in s.waiting && id !in s.granted)
    || (givenUp && id !in s.waiting && id !in s.granted && EnteredAs(s.accepted, id) == [])
  }

  /** Not asked for yet: nowhere. */
  ghost predicate IsNowhere<S, Cmd, Reply(!new)>(s: State<S, Cmd, Reply>, id: nat) {
    id !in s.waiting && id !in s.granted && EnteredAs(s.accepted, id) == []
  }

  lemma EnteredAsLast<Cmd>(es: seq<Entry<Cmd>>, e: Entry<Cmd>, id: nat)
    ensures EnteredAs(es + [e], id) == EnteredAs(es, id) + if e.Asked? && e.id == id then [e.cmd] else []
    ensures EnteredFired(es + [e]) == EnteredFired(es) + if e.Fired? then [e.cmd] else []
  {
    assert (es + [e])[..|es|] == es;
  }

  lemma StepKeepsSomewhere<S, Cmd, Reply(!new)>(process: Process<S, Cmd, Reply>, s: State<S, Cmd, Reply>,
      step: Step<Cmd>, id: nat, cmd: Cmd, givenUp: bool)
    requires id < s.nextId && IsSomewhere(s, id, cmd, givenUp)
    ensures IsSomewhere(Next(process, s, step), id, cmd, givenUp || step == GiveUp(id))
  {
    if step.Push? {
      PushKeepsSomewhere(process, s, step.id, id, cmd, givenUp);
    } else if step.Fire? {
      FireKeepsSomewhere(process, s, step.cmd, id, cmd, givenUp);
    } else {
      hide EnteredAs;
    }
  }

  lemma PushKeepsSomewhere<S, Cmd, Reply(!new)>(process: Process<S, Cmd, Reply>, s: State<S, Cmd, Reply>,
      pushed: nat, id: nat, cmd: Cmd, givenUp: bool)
    requires IsSomewhere(s, id, cmd, givenUp)
    ensures IsSomewhere(Next(process, s, Push(pushed)), id, cmd, givenUp)
  {
    hide EnteredAs;
    if pushed in s.granted { EnteredAsLast(s.accepted, Asked(s.granted[pushed], pushed), id); }
    assert EnteredAs(s.accepted, id) + [] == EnteredAs(s.accepted, id);
  }

  lemma FireKeepsSomewhere<S, Cmd, Reply(!new)>(process: Process<S, Cmd, Reply>, s: State<S, Cmd, Reply>,
      fired: Cmd, id: nat, cmd: Cmd, givenUp: bool)
    requires IsSomewhere(s, id, cmd, givenUp)
    ensures IsSomewhere(Next(process, s, Fire(fired)), id, cmd, givenUp)
  {
    hide EnteredAs;
    EnteredAsLast(s.accepted, Fired(fired), id);
    assert EnteredAs(s.accepted, id) + [] == EnteredAs(s.accepted, id);
  }

  lemma StepKeepsNowhere<S, Cmd, Reply(!new)>(process: Process<S, Cmd, Reply>, s: State<S, Cmd, Reply>,
      step: Step<Cmd>, id: nat)
    requires IsNowhere(s, id) && s.nextId <= id
    ensures Next(process, s, step).nextId == s.nextId + if step.Ask? then 1 else 0
    ensures step.Ask? && s.nextId == id ==> IsSomewhere(Next(process, s, step), id, step.cmd, false)
    ensures !(step.Ask? && s.nextId == id) ==> IsNowhere(Next(process, s, step), id)
  {
    hide EnteredAs;
    if step.Fire? { EnteredAsLast(s.accepted, Fired(step.cmd), id); }
    if step.Push? && step.id in s.granted { EnteredAsLast(s.accepted, Asked(s.granted[step.id], step.id), id); }
    assert EnteredAs(s.accepted, id) + [] == EnteredAs(s.accepted, id);
  }

  lemma AskingNumbers<S, Cmd, Reply(!new)>(process: Process<S, Cmd, Reply>, s: State<S, Cmd, Reply>, step: Step<Cmd>)
    ensures Next(process, s, step).nextId == s.nextId + if step.Ask? then 1 else 0
  {
  }

  lemma {:induction false} EveryAddressIsCounted<S, Cmd, Reply(!new)>(process: Process<S, Cmd, Reply>, store: S,
      steps: seq<Step<Cmd>>)
    ensures Run(process, Init(store), steps).nextId == |AskedCommands(steps)|
  {
    hide Next;
    if steps != [] {
      var n := |steps| - 1;
      EveryAddressIsCounted(process, store, steps[..n]);
      AskingNumbers(process, Run(process, Init(store), steps[..n]), steps[n]);
    }
  }

  lemma {:induction false} NotAskedIsNowhere<S, Cmd, Reply(!new)>(process: Process<S, Cmd, Reply>, store: S,
      steps: seq<Step<Cmd>>, id: nat)
    requires |AskedCommands(steps)| <= id
    ensures IsNowhere(Run(process, Init(store), steps), id)
  {
    hide Next, IsNowhere;
    if steps == [] {
      NothingAsked<S, Cmd, Reply>(store, id);
    } else {
      var n := |steps| - 1;
      NotAskedIsNowhere(process, store, steps[..n], id);
      EveryAddressIsCounted(process, store, steps[..n]);
      StepKeepsNowhere(process, Run(process, Init(store), steps[..n]), steps[n], id);
    }
  }

  lemma NothingAsked<S, Cmd, Reply(!new)>(store: S, id: nat)
    ensures var s: State<S, Cmd, Reply> := Init(store); IsNowhere(s, id)
  {
  }

  /** Conservation: over every run every request ever asked for is in exactly one place, with
      the command it was asked with, and it is given up only by its own caller. */
  lemma {:induction false} NoRequestIsLost<S, Cmd, Reply(!new)>(process: Process<S, Cmd, Reply>, store: S,
      steps: seq<Step<Cmd>>, id: nat)
    requires id < |AskedCommands(steps)|
    ensures IsSomewhere(Run(process, Init(store), steps), id, AskedCommands(steps)[id], GiveUp(id) in steps)
    decreases |steps|
  {
    hide Next, IsSomewhere, IsNowhere;
    var n := |steps| - 1;
    var s := Run(process, Init(store), steps[..n]);
    assert steps == steps[..n] + [steps[n]];
    EveryAddressIsCounted(process, store, steps[..n]);
    if id < |AskedCommands(steps[..n])| {
      NoRequestIsLost(process, store, steps[..n], id);
      StepKeepsSomewhere(process, s, steps[n], id, AskedCommands(steps[..n])[id], GiveUp(id) in steps[..n]);
    } else {
      NotAskedIsNowhere(process, store, steps[..n], id);
      StepKeepsNowhere(process, s, steps[n], id);
      StillSomewhere(Run(process, Init(store), steps), id, AskedCommands(steps)[id], GiveUp(id) in steps);
    }
  }

  lemma StillSomewhere<S, Cmd, Reply(!new)>(s: State<S, Cmd, Reply>, id: nat, cmd: Cmd, givenUp: bool)
    requires IsSomewhere(s, id, cmd, false)
    ensures IsSomewhere(s, id, cmd, givenUp)
  {
  }

  lemma {:induction false} EnteredIsAccepted<Cmd>(es: seq<Entry<Cmd>>, id: nat, cmd: Cmd) returns (i: nat)
    requires EnteredAs(es, id) == [cmd]
    ensures i < |es| && es[i] == Asked(cmd, id)
    decreases |es|
  {
    var n := |es| - 1;
    if es[n].Asked? && es[n].id == id {
      assert EnteredAs(es[..n], id) == [] by { assert |EnteredAs(es, id)| == |EnteredAs(es[..n], id)| + 1; }
      assert es[n].cmd == EnteredAs(es, id)[0];
      i := n;
    } else {
      assert EnteredAs(es[..n], id) + [] == EnteredAs(es[..n], id);
      i := EnteredIsAccepted(es[..n], id, cmd);
    }
  }

  /** From anywhere a run can reach: a waiting request that finds room, is granted it and
      enters, is answered by the idle writer exactly once, for its own command and after
      exactly the writes accepted before it. */
  lemma {:induction false} AGrantedRequestIsAnswered<S, Cmd, Reply(!new)>(process: Process<S, Cmd, Reply>, store: S,
      steps: seq<Step<Cmd>>, id: nat)
    requires var s := Run(process, Init(store), steps); id in s.waiting && |s.queue| + |s.granted| < 1024
    ensures var s := Run(process, Init(store), steps);
            var t := Drained(process, Next(process, Next(process, s, Grant(id)), Push(id)));
            && id < |AskedCommands(steps)|
            && AnswersTo(t.answers, id) == [process(Replay(process, store, s.accepted), AskedCommands(steps)[id]).1]
  {
    var s := Run(process, Init(store), steps);
    EveryInterleavingIsAReplay(process, store, steps);
    EveryAddressIsCounted(process, store, steps);
    NoRequestIsLost(process, store, steps, id);
    var cmd := AskedCommands(steps)[id];
    WaitingCommand(s, id, cmd, GiveUp(id) in steps);
    var u := Next(process, Next(process, s, Grant(id)), Push(id));
    NextKeepsInv(process, store, s, Grant(id));
    NextKeepsInv(process, store, Next(process, s, Grant(id)), Push(id));
    GrantThenPush(process, s, id);
    DrainingFinishesEverything(process, store, u);
    hide Next, Drained, Replay, ReplayAnswers, Run, IsSomewhere, Inv;
    InvIdsFresh(process, store, u);
    AnswersOfReplay(process, store, u.accepted, u.nextId, |s.accepted|);
    assert u.accepted[..|s.accepted|] == s.accepted;
  }

  lemma InvIdsFresh<S, Cmd, Reply>(process: Process<S, Cmd, Reply>, store: S, s: State<S, Cmd, Reply>)
    requires Inv(process, store, s)
    ensures IdsFresh(s.accepted, s.nextId)
  {
  }

  lemma WaitingCommand<S, Cmd, Reply(!new)>(s: State<S, Cmd, Reply>, id: nat, cmd: Cmd, givenUp: bool)
    requires id in s.waiting && IsSomewhere(s, id, cmd, givenUp)
    ensures s.waiting[id] == cmd
  {
  }

  lemma GrantThenPush<S, Cmd, Reply(!new)>(process: Process<S, Cmd, Reply>, s: State<S, Cmd, Reply>, id: nat)
    requires id in s.waiting && |s.queue| + |s.granted| < 1024
    ensures Next(process, Next(process, s, Grant(id)), Push(id)).accepted == s.accepted + [Asked(s.waiting[id], id)]
  {
  }

  /** A fired write that finds room enters once and last; at a full channel it does not. */
  lemma AFiredWriteEntersOnce<S, Cmd, Reply(!new)>(process: Process<S, Cmd, Reply>, s: State<S, Cmd, Reply>,
      step: Step<Cmd>)
    ensures var t := Next(process, s, step);
            EnteredFired(t.accepted) == EnteredFired(s.accepted)
              + if step.Fire? && |s.queue| + |s.granted| < 1024 then [step.cmd] else []
  {
    hide EnteredFired;
    if step.Fire? { EnteredAsLast(s.accepted, Fired(step.cmd), 0); }
    if step.Push? && step.id in s.granted { EnteredAsLast(s.accepted, Asked(s.granted[step.id], step.id), 0); }
    assert EnteredFired(s.accepted) + [] == EnteredFired(s.accepted);
  }

  class Writer<S, Cmd, Reply> {
    const process: Process<S, Cmd, Reply>
    var store: S
    var queue: seq<Entry<Cmd>>
    var inFlight: Option<Entry<Cmd>>
    var waiting: map<nat, Cmd>
    var granted: map<nat, Cmd>
    var nextId: nat
    var answers: seq<Answer<Reply>>
    ghost var accepted: seq<Entry<Cmd>>

    ghost function View(): State<S, Cmd, Reply>
      reads this
    {
      State(store, queue, inFlight, waiting, granted, nextId, answers, accepted)
    }

    constructor (process: Process<S, Cmd, Reply>, store: S)
      ensures this.process == process && View() == Init(store)
    {
      this.process, this.store := process, store;
      queue, inFlight, waiting, granted, nextId, answers, accepted := [], None, map[], map[], 0, [], [];
    }

    method FireWrite(cmd: Cmd) returns (taken: bool)
      modifies this
      ensures View() == Next(process, old(View()), Fire(cmd))
      ensures taken == old(HasRoom(View()))
    {
      taken := |queue| + |granted| < CAPACITY;
      if taken {
        queue := queue + [Fired(cmd)];
        accepted := accepted + [Fired(cmd)];
      }
    }

    method StartRequest(cmd: Cmd) returns (id: nat)
      modifies this
      ensures View() == Next(process, old(View()), Ask(cmd)) && id == old(nextId)
    {
      id := nextId;
      waiting := waiting[id := cmd];
      nextId := nextId + 1;
    }

    method GrantRoom(id: nat)
      modifies this
      ensures View() == Next(process, old(View()), Grant(id))
    {
      if id in waiting && |queue| + |granted| < CAPACITY {
        granted := granted[id := waiting[id]];
        waiting := waiting - {id};
      }
    }

    method PushRequest(id: nat)
      modifies this
      ensures View() == Next(process, old(View()), Push(id))
    {
      if id in granted {
        queue := queue + [Asked(granted[id], id)];
        accepted := accepted + [Asked(granted[id], id)];
        granted := granted - {id};
      }
    }

    method CancelRequest(id: nat)
      modifies this
      ensures View() == Next(process, old(View()), GiveUp(id))
    {
      waiting := waiting - {id};
      granted := granted - {id};
    }

    method ReceiveOne()
      modifies this
      ensures View() == Next(process, old(View()), Receive)
    {
      if inFlight.None? && queue != [] {
        inFlight := Some(queue[0]);
        queue := queue[1..];
      }
    }

    method ProcessOne()
      modifies this
      ensures View() == Next(process, old(View()), Complete)
    {
      if inFlight.Some? {
        var (next, reply) := process(store, inFlight.value.cmd);
        store := next;
        if inFlight.value.Asked? {
          answers := answers + [Answer(inFlight.value.id, reply)];
        }
        inFlight := None;
      }
    }

    /** The writer's own loop, up to the moment it would wait for more. */
    method RunUntilIdle()
      modifies this
      ensures View() == Drained(process, old(View()))
    {
      ProcessOne();
      while queue != []
        invariant inFlight.None?
        invariant Drained(process, View()) == Drained(process, old(View()))
        decreases |queue|
      {
        ReceiveOne();
        ProcessOne();
      }
    }
  }
}
