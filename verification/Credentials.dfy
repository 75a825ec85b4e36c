/** Credential epochs: the token version every account carries, the copy of it cached beside
    the plan, and the tokens checked against one or the other. Handlers interleave freely;
    a run is any sequence of their atomic steps. Tokens are records nobody can forge. */
module Credentials {
  import opened Prelude

  type Email = string
  type Id = nat

  datatype Session = Session(email: Email, version: nat)
  datatype Link = Link(email: Email, version: nat)

  /** What a handler resolves a version for: to mint a session, or to check one. */
  datatype Call = Login(email: Email) | Request(session: Session)

  /** A version some handler holds, to answer its call with. */
  datatype Reading = Reading(call: Call, version: nat)

  datatype State = State(
    versions: map<Email, nat>,     // users.token_version of every account
    cache: map<Email, nat>,        // the version held in the usage counter's entries
    windows: map<Id, Email>,       // changes written whose handler has not cleared the cache
    missed: map<Id, Call>,         // resolving handlers that found no entry, before their read
    readings: map<Id, Reading>,    // and after it, before they put it in the cache and answer
    sessions: set<Session>,        // sessions minted
    links: set<Link>,              // purpose links sent out
    checked: map<Id, Link>,        // reset handlers past their check, not yet writing
    resets: seq<Link>)             // resets that succeeded, in order

  datatype Step =
    | Create(email: Email)
    | Write(id: Id, email: Email)         // password hash or second factor, and the version with it
    | Clear(id: Id)                       // clear_user_cache, after the reply
    | Drop(email: Email)                  // clear_user_cache after a plan change
    | Look(id: Id, call: Call)            // resolve_token_version looks in the cache: a hit answers
    | Read(id: Id)                        // after a miss it reads the store
    | Insert(id: Id)                      // offers the cache what it read, and answers with that
    | ApiCall(email: Email)               // check_and_increment on an API key
    | Send(email: Email)                  // a purpose link is minted
    | Check(id: Id, link: Link)           // decode_purpose_checked in reset_password
    | Abandon(id: Id)                     // the reset ends without writing
    | Commit(id: Id)                      // or writes

  function Account(call: Call): Email {
    match call
    case Login(e) => e
    case Request(session) => session.email
  }

  function Stored(s: State, e: Email): nat {
    if e in s.versions then s.versions[e] else 0
  }

  function Written(s: State, id: Id, e: Email): State {
    s.(versions := if e in s.versions then s.versions[e := s.versions[e] + 1] else s.versions,
       windows := s.windows[id := e])
  }

  /** Accounts log in, and only minted sessions can be presented. */
  predicate Permitted(s: State, call: Call) {
    match call
    case Login(e) => e in s.versions
    case Request(session) => session in s.sessions
  }

  /** The version a step answers a call with, when it answers one: the entry's on a hit, the
      handler's own reading after a miss, whatever the entry says by then. */
  function Answer(s: State, step: Step): Option<Reading> {
    match step
    case Look(id, call) =>
      if Permitted(s, call) && id !in s.missed && id !in s.readings && Account(call) in s.cache
      then Some(Reading(call, s.cache[Account(call)])) else None
    case Insert(id) => if id in s.readings then Some(s.readings[id]) else None
    case _ => None
  }

  function Minted(r: Reading): set<Session> {
    if r.call.Login? then {Session(r.call.email, r.version)} else {}
  }

  function Next(s: State, step: Step): State {
    match step
    case Create(e) => if e in s.versions then s else s.(versions := s.versions[e := 0])
    case Write(id, e) => if id in s.windows then s else Written(s, id, e)
    case Clear(id) => if id in s.windows then s.(cache := s.cache - {s.windows[id]}, windows := s.windows - {id}) else s
    case Drop(e) => s.(cache := s.cache - {e})
    case Look(id, call) =>
      if !Permitted(s, call) || id in s.missed || id in s.readings then s
      else if Account(call) in s.cache then s.(sessions := s.sessions + Minted(Reading(call, s.cache[Account(call)])))
      else s.(missed := s.missed[id := call])
    case Read(id) =>
      if id !in s.missed || id in s.readings then s
      else
        s.(missed := s.missed - {id},
           readings := s.readings[id := Reading(s.missed[id], Stored(s, Account(s.missed[id])))])
    case Insert(id) =>
      if id !in s.readings then s
      else
        var r := s.readings[id];
        var e := Account(r.call);
        s.(cache := if e in s.cache then s.cache else s.cache[e := r.version],
           readings := s.readings - {id},
           sessions := s.sessions + Minted(r))
    case ApiCall(e) => if e in s.cache then s else s.(cache := s.cache[e := 0])
    case Send(e) => if e in s.versions then s.(links := s.links + {Link(e, s.versions[e])}) else s
    case Check(id, link) =>
      if id !in s.checked && link in s.links && link.version == Stored(s, link.email)
      then s.(checked := s.checked[id := link]) else s
    case Abandon(id) => s.(checked := s.checked - {id})
    case Commit(id) =>
      if id in s.checked && id !in s.windows then
        Written(s, id, s.checked[id].email).(checked := s.checked - {id}, resets := s.resets + [s.checked[id]])
      else s
  }

  function Run(s: State, steps: seq<Step>): State {
    if steps == [] then s else Next(Run(s, steps[..|steps| - 1]), steps[|steps| - 1])
  }

  lemma RunOne(s: State, a: Step)
    ensures Run(s, [a]) == Next(s, a)
  {
  }

  lemma RunTwo(s: State, a: Step, b: Step)
    ensures Run(s, [a, b]) == Next(Next(s, a), b)
  {
    assert [a, b][..1] == [a];
    RunOne(s, a);
  }

  lemma RunThree(s: State, a: Step, b: Step, c: Step)
    ensures Run(s, [a, b, c]) == Next(Next(Next(s, a), b), c)
  {
    hide Next;
    assert [a, b, c][..2] == [a, b];
    RunTwo(s, a, b);
  }

  // ---------------------------------------------------------------- the version only grows

  /** The account a step bumps, if it bumps one. */
  function Bumps(s: State, step: Step): Option<Email> {
    match step
    case Write(id, e) => if id !in s.windows && e in s.versions then Some(e) else None
    case Commit(id) =>
      if id in s.checked && id !in s.windows && s.checked[id].email in s.versions
      then Some(s.checked[id].email) else None
    case _ => None
  }

  function BumpCount(s: State, steps: seq<Step>, e: Email): nat {
    if steps == [] then 0
    else
      var n := |steps| - 1;
      BumpCount(s, steps[..n], e) + if Bumps(Run(s, steps[..n]), steps[n]) == Some(e) then 1 else 0
  }

  /** Over any run the stored version of an account is its old version plus the number of
      changes made: it never repeats and never goes back. */
  lemma {:induction false} VersionCountsChanges(s: State, steps: seq<Step>, e: Email)
    ensures Stored(Run(s, steps), e) == Stored(s, e) + BumpCount(s, steps, e)
    ensures e in s.versions ==> e in Run(s, steps).versions
  {
    hide Next, Bumps;
    if steps != [] {
      var n := |steps| - 1;
      VersionCountsChanges(s, steps[..n], e);
      StepVersion(Run(s, steps[..n]), steps[n], e);
    }
  }

  /** Each change adds one to its own account's version; no step touches another's. */
  lemma StepVersion(s: State, step: Step, e: Email)
    ensures Stored(Next(s, step), e) == Stored(s, e) + if Bumps(s, step) == Some(e) then 1 else 0
    ensures e in s.versions ==> e in Next(s, step).versions
  {
  }

  /** A change of an account's password or second factor, once cleared, is one more version,
      no entry, and a closed window. */
  lemma ACompletedChange(s: State, id: Id, e: Email)
    requires e in s.versions && id !in s.windows
    ensures var t := Next(s, Write(id, e)); var u := Next(t, Clear(id));
            && t.versions == s.versions[e := s.versions[e] + 1] && t.cache == s.cache
            && (exists w | w in t.windows :: t.windows[w] == e)
            && u.versions == t.versions && u.cache == s.cache - {e} && u.windows == s.windows
  {
    var t := Next(s, Write(id, e));
    assert id in t.windows && t.windows[id] == e;
    assert s.windows[id := e] - {id} == s.windows;
  }

  // ---------------------------------------------------------------- nothing is ahead of the store

  ghost predicate CacheBounded(s: State) {
    && (forall e | e in s.cache :: s.cache[e] <= Stored(s, e))
    && (forall id | id in s.readings :: s.readings[id].version <= Stored(s, Account(s.readings[id].call)))
  }

  ghost predicate SessionsBounded(s: State) {
    forall x | x in s.sessions :: x.version <= Stored(s, x.email)
  }

  ghost predicate LinksBounded(s: State) {
    && (forall l | l in s.links :: l.email in s.versions && l.version <= Stored(s, l.email))
    && (forall id | id in s.checked :: s.checked[id] in s.links)
    && (forall i | 0 <= i < |s.resets| ::
          s.resets[i].email in s.versions && s.resets[i].version < Stored(s, s.resets[i].email))
  }

  /** Nothing cached, read, minted or sent is ahead of the store; a link that succeeded is
      behind it. */
  ghost predicate Bounded(s: State) {
    CacheBounded(s) && SessionsBounded(s) && LinksBounded(s)
  }

  const EMPTY: State := State(map[], map[], map[], map[], map[], {}, {}, map[], [])

  lemma StepKeepsCacheBounded(s: State, step: Step)
    requires CacheBounded(s) && forall e :: Stored(s, e) <= Stored(Next(s, step), e)
    ensures CacheBounded(Next(s, step))
  {
  }

  lemma StepKeepsSessionsBounded(s: State, step: Step)
    requires CacheBounded(s) && SessionsBounded(s) && forall e :: Stored(s, e) <= Stored(Next(s, step), e)
    ensures SessionsBounded(Next(s, step))
  {
  }

  lemma StepKeepsLinksBounded(s: State, step: Step)
    requires LinksBounded(s) && forall e ::
        Stored(s, e) <= Stored(Next(s, step), e) && (e in s.versions ==> e in Next(s, step).versions)
    ensures LinksBounded(Next(s, step))
  {
    if step.Commit? && step.id in s.checked { StepVersion(s, step, s.checked[step.id].email); }
  }

  lemma {:induction false} StepKeepsBounded(s: State, step: Step)
    requires Bounded(s)
    ensures Bounded(Next(s, step))
  {
    hide Next, CacheBounded, SessionsBounded, LinksBounded, Stored;
    forall e
      ensures Stored(s, e) <= Stored(Next(s, step), e) && (e in s.versions ==> e in Next(s, step).versions)
    {
      StepVersion(s, step, e);
    }
    StepKeepsCacheBounded(s, step);
    StepKeepsSessionsBounded(s, step);
    StepKeepsLinksBounded(s, step);
  }

  lemma {:induction false} RunKeepsBounded(s: State, steps: seq<Step>)
    requires Bounded(s)
    ensures Bounded(Run(s, steps))
  {
    hide Bounded, Next;
    if steps != [] {
      RunKeepsBounded(s, steps[..|steps| - 1]);
      StepKeepsBounded(Run(s, steps[..|steps| - 1]), steps[|steps| - 1]);
    }
  }

  // ---------------------------------------------------------------- the cache

  /** No change of the account is between its write and its clear. */
  predicate Quiet(s: State, e: Email) {
    forall id | id in s.windows :: s.windows[id] != e
  }

  /** Outside a write-to-clear window the cached version is the stored one. */
  predicate Coherent(s: State) {
    forall e | e in s.cache && Quiet(s, e) :: s.cache[e] == Stored(s, e)
  }

  /** The two ways a step can break that: an API call that finds no entry and makes one with
      version 0, and a resolve that puts back a version it read before a change. */
  predicate CachesStale(s: State, step: Step) {
    match step
    case ApiCall(e) => e !in s.cache && Quiet(s, e) && Stored(s, e) != 0
    case Insert(id) =>
      id in s.readings
      && var e := Account(s.readings[id].call); e !in s.cache && Quiet(s, e) && s.readings[id].version != Stored(s, e)
    case _ => false
  }

  /** The exact condition, for every step from every coherent state. */
  lemma StaysCoherentUnless(s: State, step: Step)
    requires Coherent(s)
    ensures Coherent(Next(s, step)) <==> !CachesStale(s, step)
  {
    hide Quiet, Coherent;
    match step {
      case Write(_, _) => ChangingStep(s, step);
      case Commit(_) => ChangingStep(s, step);
      case ApiCall(_) => CachingStep(s, step);
      case Insert(_) => CachingStep(s, step);
      case _ => OtherStep(s, step);
    }
  }

  lemma OtherStep(s: State, step: Step)
    requires Coherent(s) && !step.Write? && !step.Commit? && !step.ApiCall? && !step.Insert?
    ensures Coherent(Next(s, step))
  {
    hide Quiet, Coherent;
    if step.Clear? && step.id in s.windows {
      WindowCloses(s, Next(s, step), step.id);
    } else {
      NothingNewCached(s, Next(s, step));
    }
  }

  lemma ChangingStep(s: State, step: Step)
    requires Coherent(s) && (step.Write? || step.Commit?)
    ensures Coherent(Next(s, step))
  {
    hide Quiet, Coherent;
    var t := Next(s, step);
    if step.Write? && step.id !in s.windows { WindowOpens(s, t, step.id, step.email); }
    if step.Commit? && step.id in s.checked && step.id !in s.windows {
      WindowOpens(s, t, step.id, s.checked[step.id].email);
    }
    if t == s { NothingNewCached(s, t); }
  }

  lemma CachingStep(s: State, step: Step)
    requires Coherent(s) && (step.ApiCall? || step.Insert?)
    ensures Coherent(Next(s, step)) <==> !CachesStale(s, step)
  {
    hide Quiet, Coherent;
    var t := Next(s, step);
    if step.ApiCall? && step.email !in s.cache {
      EntryMade(s, t, step.email, 0);
    } else if step.Insert? && step.id in s.readings && Account(s.readings[step.id].call) !in s.cache {
      EntryMade(s, t, Account(s.readings[step.id].call), s.readings[step.id].version);
    } else {
      NothingNewCached(s, t);
    }
  }

  lemma NothingNewCached(s: State, t: State)
    requires Coherent(s) && t.windows == s.windows && forall e :: Stored(t, e) == Stored(s, e)
    requires forall e | e in t.cache :: e in s.cache && t.cache[e] == s.cache[e]
    ensures Coherent(t)
  {
  }

  lemma WindowCloses(s: State, t: State, id: Id)
    requires Coherent(s) && id in s.windows && t.windows == s.windows - {id}
    requires t.versions == s.versions && t.cache == s.cache - {s.windows[id]}
    ensures Coherent(t)
  {
    forall e | e in t.cache && Quiet(t, e)
      ensures Quiet(s, e)
    {
      forall other | other in s.windows
        ensures s.windows[other] != e
      {
        if other != id { assert other in t.windows; }
      }
    }
  }

  lemma EntryMade(s: State, t: State, e: Email, version: nat)
    requires Coherent(s) && e !in s.cache && t.cache == s.cache[e := version]
    requires t.versions == s.versions && t.windows == s.windows
    ensures Coherent(t) <==> !(Quiet(s, e) && version != Stored(s, e))
  {
    assert forall x :: Quiet(t, x) <==> Quiet(s, x);
    if Quiet(s, e) && version != Stored(s, e) { assert e in t.cache && Quiet(t, e); }
  }

  lemma WindowOpens(s: State, t: State, id: Id, e: Email)
    requires Coherent(s) && id !in s.windows && t.windows == s.windows[id := e] && t.cache == s.cache
    requires forall x | x != e :: Stored(t, x) == Stored(s, x)
    ensures Coherent(t)
  {
    assert id in t.windows && t.windows[id] == e;
    forall x | x in t.cache && Quiet(t, x)
      ensures t.cache[x] == Stored(t, x)
    {
      forall other | other in s.windows
        ensures s.windows[other] != x
      {
        assert other in t.windows && t.windows[other] == s.windows[other];
      }
      assert x != e && Quiet(s, x);
    }
  }

  predicate NeverStale(s: State, steps: seq<Step>) {
    forall n | 0 <= n < |steps| :: !CachesStale(Run(s, steps[..n]), steps[n])
  }

  lemma {:induction false} RunStaysCoherent(s: State, steps: seq<Step>)
    requires Coherent(s) && NeverStale(s, steps)
    ensures Coherent(Run(s, steps))
    decreases |steps|
  {
    if steps != [] {
      var n := |steps| - 1;
      forall m | 0 <= m < n
        ensures !CachesStale(Run(s, steps[..n][..m]), steps[..n][m])
      {
        assert steps[..n][..m] == steps[..m];
      }
      RunStaysCoherent(s, steps[..n]);
      StaysCoherentUnless(Run(s, steps[..n]), steps[n]);
    }
  }

  /** Over a whole run from a coherent state: the cache is right at every moment, outside
      windows, exactly when no step of the run cached a stale version. */
  lemma {:induction false} CoherentThroughoutIff(s: State, steps: seq<Step>)
    requires Coherent(s)
    ensures NeverStale(s, steps) <==> forall n | 0 <= n <= |steps| :: Coherent(Run(s, steps[..n]))
  {
    if NeverStale(s, steps) {
      forall n | 0 <= n <= |steps|
        ensures Coherent(Run(s, steps[..n]))
      {
        forall m | 0 <= m < n
          ensures !CachesStale(Run(s, steps[..n][..m]), steps[..n][m])
        {
          assert steps[..n][..m] == steps[..m];
        }
        RunStaysCoherent(s, steps[..n]);
      }
    }
    if forall n | 0 <= n <= |steps| :: Coherent(Run(s, steps[..n])) {
      forall n | 0 <= n < |steps|
        ensures !CachesStale(Run(s, steps[..n]), steps[n])
      {
        assert steps[..n + 1][..n] == steps[..n];
        assert Coherent(Run(s, steps[..n])) && Coherent(Run(s, steps[..n + 1]));
        StaysCoherentUnless(Run(s, steps[..n]), steps[n]);
      }
    }
  }

  // ---------------------------------------------------------------- moments of a run

  /** The state before step `n` of a run from the empty database. */
  function At(steps: seq<Step>, n: nat): State
    requires n <= |steps|
  {
    Run(EMPTY, steps[..n])
  }

  lemma AtNext(steps: seq<Step>, n: nat)
    requires n < |steps|
    ensures At(steps, n + 1) == Next(At(steps, n), steps[n])
  {
    hide Next;
    assert steps[..n + 1][..n] == steps[..n];
  }

  lemma {:induction false} AtEnd(steps: seq<Step>)
    ensures At(steps, |steps|) == Run(EMPTY, steps)
  {
    assert steps[..|steps|] == steps;
  }

  lemma AtIsBounded(steps: seq<Step>, n: nat)
    requires n <= |steps|
    ensures Bounded(At(steps, n))
  {
    RunKeepsBounded(EMPTY, steps[..n]);
  }

  /** Some change of the account was written at a step from `m` up to `n`. */
  ghost predicate ChangedBetween(steps: seq<Step>, m: nat, n: nat, e: Email)
    requires m <= n <= |steps|
  {
    exists k | m <= k < n :: Bumps(At(steps, k), steps[k]) == Some(e)
  }

  /** The version tells exactly whether the account was changed meanwhile. */
  lemma {:induction false} VersionTellsChange(steps: seq<Step>, m: nat, n: nat, e: Email)
    requires m <= n <= |steps|
    ensures Stored(At(steps, m), e) <= Stored(At(steps, n), e)
    ensures Stored(At(steps, m), e) < Stored(At(steps, n), e) <==> ChangedBetween(steps, m, n, e)
    decreases n - m
  {
    hide Next, Bumps, At, Stored;
    if m < n {
      VersionTellsChange(steps, m, n - 1, e);
      AtNext(steps, n - 1);
      StepVersion(At(steps, n - 1), steps[n - 1], e);
      if Bumps(At(steps, n - 1), steps[n - 1]) == Some(e) {
        assert ChangedBetween(steps, m, n, e);
      } else if ChangedBetween(steps, m, n, e) {
        var k :| m <= k < n && Bumps(At(steps, k), steps[k]) == Some(e);
        assert k < n - 1;
      }
    }
  }

  // ---------------------------------------------------------------- where an answer comes from

  /** The reading handler `id` holds before step `n` was taken at step `r`. */
  ghost predicate ReadAt(steps: seq<Step>, r: nat, n: nat, id: Id)
    requires n <= |steps|
  {
    && r < n && steps[r] == Read(id) && id in At(steps, r).missed && id !in At(steps, r).readings
    && forall q | r < q <= n :: id in At(steps, q).readings
  }

  lemma {:induction false} ReadingWasRead(steps: seq<Step>, n: nat, id: Id) returns (r: nat)
    requires n <= |steps| && id in At(steps, n).readings
    ensures ReadAt(steps, r, n, id)
    decreases n
  {
    assert n > 0;
    AtNext(steps, n - 1);
    StepReads(At(steps, n - 1), steps[n - 1], id);
    hide At, Next;
    if steps[n - 1] == Read(id) && id !in At(steps, n - 1).readings {
      r := n - 1;
    } else {
      r := ReadingWasRead(steps, n - 1, id);
    }
  }

  lemma StepReads(s: State, step: Step, id: Id)
    requires id in Next(s, step).readings
    ensures id in s.readings || (step == Read(id) && id in s.missed)
  {
  }

  lemma {:induction false} ReadingKeepsItsVersion(steps: seq<Step>, r: nat, n: nat, id: Id)
    requires n <= |steps| && ReadAt(steps, r, n, id)
    ensures id in At(steps, n).readings
    ensures var call := At(steps, r).missed[id];
            At(steps, n).readings[id] == Reading(call, Stored(At(steps, r), Account(call)))
    decreases n
  {
    hide At, Next, Stored;
    assert id in At(steps, n).readings;
    AtNext(steps, n - 1);
    if r < n - 1 {
      assert id in At(steps, n - 1).readings;
      ReadingKeepsItsVersion(steps, r, n - 1, id);
      StepKeepsReading(At(steps, n - 1), steps[n - 1], id);
    } else {
      ReadTakes(At(steps, r), id);
    }
  }

  lemma ReadTakes(s: State, id: Id)
    requires id in s.missed && id !in s.readings
    ensures id in Next(s, Read(id)).readings
    ensures Next(s, Read(id)).readings[id] == Reading(s.missed[id], Stored(s, Account(s.missed[id])))
  {
  }

  lemma StepKeepsReading(s: State, step: Step, id: Id)
    requires id in s.readings && id in Next(s, step).readings
    ensures Next(s, step).readings[id] == s.readings[id]
  {
  }

  /** The entry of account `e` before step `n` was made at step `p`. */
  ghost predicate EntryMadeAt(steps: seq<Step>, p: nat, n: nat, e: Email)
    requires n <= |steps|
  {
    && p < n && e !in At(steps, p).cache
    && forall q | p < q <= n :: e in At(steps, q).cache
  }

  lemma {:induction false} EntryWasMade(steps: seq<Step>, n: nat, e: Email) returns (p: nat)
    requires n <= |steps| && e in At(steps, n).cache
    ensures EntryMadeAt(steps, p, n, e)
    decreases n
  {
    assert n > 0;
    if e in At(steps, n - 1).cache {
      p := EntryWasMade(steps, n - 1, e);
    } else {
      p := n - 1;
    }
  }

  /** An API call makes an entry with version 0, an insert one with its handler's reading. */
  predicate Puts(s: State, step: Step, e: Email, version: nat) {
    || (step == ApiCall(e) && version == 0)
    || (step.Insert? && step.id in s.readings && Account(s.readings[step.id].call) == e
       && version == s.readings[step.id].version)
  }

  lemma {:induction false} EntryKeepsItsVersion(steps: seq<Step>, p: nat, n: nat, e: Email)
    requires n <= |steps| && EntryMadeAt(steps, p, n, e)
    ensures e in At(steps, n).cache && Puts(At(steps, p), steps[p], e, At(steps, n).cache[e])
    decreases n
  {
    AtNext(steps, n - 1);
    if p < n - 1 {
      assert e in At(steps, n - 1).cache;
      EntryKeepsItsVersion(steps, p, n - 1, e);
      StepKeepsEntry(At(steps, n - 1), steps[n - 1], e);
    } else {
      StepMakesEntry(At(steps, p), steps[p], e);
    }
  }

  lemma StepKeepsEntry(s: State, step: Step, e: Email)
    requires e in s.cache && e in Next(s, step).cache
    ensures Next(s, step).cache[e] == s.cache[e]
  {
  }

  lemma StepMakesEntry(s: State, step: Step, e: Email)
    requires e !in s.cache && e in Next(s, step).cache
    ensures Puts(s, step, e, Next(s, step).cache[e])
  {
  }

  // ---------------------------------------------------------------- sessions

  /** The step answers a request that presents the session, and accepts it. */
  predicate Accepts(s: State, step: Step, session: Session) {
    Answer(s, step) == Some(Reading(Request(session), session.version))
  }

  /** A session older than a change is one minted, in any way, before it. */
  lemma {:induction false} MintedBeforeAChangeIsOlder(steps: seq<Step>, m: nat, n: nat, session: Session)
    requires m <= n <= |steps| && session in At(steps, m).sessions && ChangedBetween(steps, m, n, session.email)
    ensures session.version < Stored(At(steps, n), session.email)
  {
    AtIsBounded(steps, m);
    VersionTellsChange(steps, m, n, session.email);
  }

  /** A handler answers with a version it read itself, at step `r`, before a change. */
  ghost predicate Overtaken(steps: seq<Step>, n: nat, id: Id, e: Email)
    requires n <= |steps|
  {
    exists r | 0 <= r < n :: ReadAt(steps, r, n, id) && ChangedBetween(steps, r, n, e)
  }

  /** The step that made an entry took its version from before a change: the 0 of an API
      call, for an account that was ever changed, or a reading taken before a change. */
  ghost predicate MadeFromOldVersion(steps: seq<Step>, p: nat, n: nat, e: Email)
    requires p < n <= |steps|
  {
    || (steps[p] == ApiCall(e) && ChangedBetween(steps, 0, n, e))
    || (steps[p].Insert? && exists r | 0 <= r < p :: ReadAt(steps, r, p, steps[p].id) && ChangedBetween(steps, r, n, e))
  }

  ghost predicate HitsStaleEntry(steps: seq<Step>, n: nat, e: Email)
    requires n <= |steps|
  {
    exists p | 0 <= p < n :: EntryMadeAt(steps, p, n, e) && MadeFromOldVersion(steps, p, n, e)
  }

  /** An entry is behind the store exactly when it was made from an old version. */
  lemma EntryTellsItsAge(steps: seq<Step>, p: nat, n: nat, e: Email)
    requires p < n <= |steps| && EntryMadeAt(steps, p, n, e)
    ensures e in At(steps, n).cache && At(steps, n).cache[e] <= Stored(At(steps, n), e)
    ensures At(steps, n).cache[e] < Stored(At(steps, n), e) <==> MadeFromOldVersion(steps, p, n, e)
  {
    hide At, Stored, Next, ChangedBetween, ReadAt, EntryMadeAt;
    EntryKeepsItsVersion(steps, p, n, e);
    CachedIsBounded(steps, n, e);
    if steps[p] == ApiCall(e) {
      NothingStoredYet(steps, e);
      VersionTellsChange(steps, 0, n, e);
    } else {
      var r := ReadingWasRead(steps, p, steps[p].id);
      ReadPrecedes(steps, r, p, steps[p].id);
      forall q: nat | q < p && ReadAt(steps, q, p, steps[p].id)
        ensures At(steps, n).cache[e] < Stored(At(steps, n), e) <==> ChangedBetween(steps, q, n, e)
      {
        ReadingKeepsItsVersion(steps, q, p, steps[p].id);
        VersionTellsChange(steps, q, n, e);
      }
    }
  }

  lemma CachedIsBounded(steps: seq<Step>, n: nat, e: Email)
    requires n <= |steps| && e in At(steps, n).cache
    ensures At(steps, n).cache[e] <= Stored(At(steps, n), e)
  {
    AtIsBounded(steps, n);
  }

  lemma NothingStoredYet(steps: seq<Step>, e: Email)
    ensures Stored(At(steps, 0), e) == 0
  {
  }

  /** Over every run: an answer is behind the stored version exactly when the entry it came
      from was made from an old version, or the handler's own reading predates a change. */
  lemma {:induction false} AnAnswerIsOldExactlyWhen(steps: seq<Step>, n: nat)
    requires n < |steps| && Answer(At(steps, n), steps[n]).Some?
    ensures var r := Answer(At(steps, n), steps[n]).value; var e := Account(r.call);
            && r.version <= Stored(At(steps, n), e)
            && (r.version < Stored(At(steps, n), e) <==>
                if steps[n].Look? then HitsStaleEntry(steps, n, e) else Overtaken(steps, n, steps[n].id, e))
  {
    hide At, Stored, Next, ChangedBetween, Puts, EntryMadeAt, ReadAt, MadeFromOldVersion;
    var s := At(steps, n);
    var a := Answer(s, steps[n]).value;
    var e := Account(a.call);
    AtIsBounded(steps, n);
    if steps[n].Look? {
      var p := EntryWasMade(steps, n, e);
      EntryPrecedes(steps, p, n, e);
      forall q: nat | q < n && EntryMadeAt(steps, q, n, e)
        ensures s.cache[e] <= Stored(s, e) && (s.cache[e] < Stored(s, e) <==> MadeFromOldVersion(steps, q, n, e))
      {
        EntryTellsItsAge(steps, q, n, e);
      }
    } else {
      var r := ReadingWasRead(steps, n, steps[n].id);
      ReadPrecedes(steps, r, n, steps[n].id);
      forall q: nat | q < n && ReadAt(steps, q, n, steps[n].id)
        ensures a.version < Stored(s, e) <==> ChangedBetween(steps, q, n, e)
      {
        ReadingKeepsItsVersion(steps, q, n, steps[n].id);
        VersionTellsChange(steps, q, n, e);
      }
    }
  }

  lemma EntryPrecedes(steps: seq<Step>, p: nat, n: nat, e: Email)
    requires n <= |steps| && EntryMadeAt(steps, p, n, e)
    ensures p < n
  {
  }

  lemma ReadPrecedes(steps: seq<Step>, r: nat, n: nat, id: Id)
    requires n <= |steps| && ReadAt(steps, r, n, id)
    ensures r < n
  {
  }

  lemma OnePut(s: State, step: Step, e: Email, a: nat, b: nat)
    requires Puts(s, step, e, a) && Puts(s, step, e, b)
    ensures a == b
  {
  }

  // ---------------------------------------------------------------- one entry, outside windows

  /** A window is closed only by clearing the account's entry. */
  lemma WindowStays(s: State, step: Step, e: Email)
    requires e in Next(s, step).cache && e in s.cache && !Quiet(s, e)
    ensures !Quiet(Next(s, step), e)
  {
    var id :| id in s.windows && s.windows[id] == e;
    assert id in Next(s, step).windows && Next(s, step).windows[id] == e;
  }

  lemma ChangeOpensWindow(s: State, step: Step, e: Email)
    requires Bumps(s, step) == Some(e)
    ensures !Quiet(Next(s, step), e)
  {
    assert step.id in Next(s, step).windows && Next(s, step).windows[step.id] == e;
  }

  /** While an entry stays and no window is open at the end, none was open and nothing was
      changed. */
  lemma {:induction false} QuietThroughout(steps: seq<Step>, q: nat, n: nat, e: Email)
    requires q <= n <= |steps| && Quiet(At(steps, n), e) && forall k | q <= k <= n :: e in At(steps, k).cache
    ensures Quiet(At(steps, q), e) && !ChangedBetween(steps, q, n, e)
    decreases n - q
  {
    hide At, Next, Quiet, Bumps;
    if q < n {
      AtNext(steps, n - 1);
      assert e in At(steps, n - 1).cache && e in At(steps, n).cache;
      if !Quiet(At(steps, n - 1), e) { WindowStays(At(steps, n - 1), steps[n - 1], e); }
      if Bumps(At(steps, n - 1), steps[n - 1]) == Some(e) { ChangeOpensWindow(At(steps, n - 1), steps[n - 1], e); }
      QuietThroughout(steps, q, n - 1, e);
    }
  }

  lemma MakingAnEntryIsQuiet(s: State, step: Step, e: Email, version: nat)
    requires Puts(s, step, e, version) && e !in s.cache
    ensures Quiet(Next(s, step), e) <==> Quiet(s, e)
    ensures Stored(Next(s, step), e) == Stored(s, e)
    ensures Quiet(s, e) ==> (CachesStale(s, step) <==> version != Stored(s, e))
  {
    assert Next(s, step).windows == s.windows;
  }

  /** Outside windows, and whatever became of any other entry: an entry is wrong exactly when
      the step that made it cached a stale version. */
  lemma {:induction false} EntryIsStaleExactlyWhen(steps: seq<Step>, p: nat, n: nat, e: Email)
    requires p < n <= |steps| && EntryMadeAt(steps, p, n, e) && Quiet(At(steps, n), e)
    ensures e in At(steps, n).cache
    ensures At(steps, n).cache[e] != Stored(At(steps, n), e) <==> CachesStale(At(steps, p), steps[p])
  {
    EntryKeepsItsVersion(steps, p, n, e);
    QuietThroughout(steps, p + 1, n, e);
    AtNext(steps, p);
    VersionTellsChange(steps, p + 1, n, e);
    hide At, Next, Stored, Quiet, CachesStale, Puts, ChangedBetween;
    MakingAnEntryIsQuiet(At(steps, p), steps[p], e, At(steps, n).cache[e]);
  }

  // ---------------------------------------------------------------- accepting a session

  /** Over every run: a request is answered with acceptance exactly when the entry it hits
      was made with the session's version, or the store had the session's version when the
      handler read it. */
  lemma {:induction false} SessionAcceptedExactlyWhen(steps: seq<Step>, n: nat, session: Session)
    requires n < |steps| && Answer(At(steps, n), steps[n]).Some?
        && Answer(At(steps, n), steps[n]).value.call == Request(session)
    ensures Accepts(At(steps, n), steps[n], session) <==>
            if steps[n].Look? then
              exists p | 0 <= p < n :: EntryMadeAt(steps, p, n, session.email)
                && Puts(At(steps, p), steps[p], session.email, session.version)
            else
              exists r | 0 <= r < n :: ReadAt(steps, r, n, steps[n].id)
                && Stored(At(steps, r), session.email) == session.version
  {
    hide At, Stored, Next, Puts, EntryMadeAt, ReadAt;
    var e := session.email;
    if steps[n].Look? {
      var p := EntryWasMade(steps, n, e);
      EntryPrecedes(steps, p, n, e);
      forall q: nat | q < n && EntryMadeAt(steps, q, n, e)
        ensures Puts(At(steps, q), steps[q], e, session.version) <==> At(steps, n).cache[e] == session.version
      {
        EntryKeepsItsVersion(steps, q, n, e);
        if Puts(At(steps, q), steps[q], e, session.version) {
          OnePut(At(steps, q), steps[q], e, session.version, At(steps, n).cache[e]);
        }
      }
    } else {
      var r := ReadingWasRead(steps, n, steps[n].id);
      ReadPrecedes(steps, r, n, steps[n].id);
      forall q: nat | q < n && ReadAt(steps, q, n, steps[n].id)
        ensures At(steps, n).readings[steps[n].id] == Reading(Request(session), Stored(At(steps, q), e))
      {
        ReadingKeepsItsVersion(steps, q, n, steps[n].id);
      }
    }
  }

  /** The answer of step `n` comes from a version that a stale caching step put in force, or
      from a reading that a change overtook. Only the entry in force is asked about. */
  ghost predicate AnswersFromBeforeAChange(steps: seq<Step>, n: nat, e: Email)
    requires n < |steps|
  {
    if steps[n].Look? then exists p | 0 <= p < n :: EntryMadeAt(steps, p, n, e) && CachesStale(At(steps, p), steps[p])
    else steps[n].Insert? && Overtaken(steps, n, steps[n].id, e)
  }

  /** Outside windows those are the only two ways an answer can be old. */
  lemma {:induction false} CompletedChangesAreAnsweredExactlyUnless(steps: seq<Step>, n: nat)
    requires n < |steps| && Answer(At(steps, n), steps[n]).Some?
    requires Quiet(At(steps, n), Account(Answer(At(steps, n), steps[n]).value.call))
    ensures var r := Answer(At(steps, n), steps[n]).value; var e := Account(r.call);
            r.version == Stored(At(steps, n), e) <==> !AnswersFromBeforeAChange(steps, n, e)
  {
    hide At, Stored, Next, EntryMadeAt, CachesStale, Overtaken, Quiet;
    var e := Account(Answer(At(steps, n), steps[n]).value.call);
    if steps[n].Look? {
      var p := EntryWasMade(steps, n, e);
      EntryPrecedes(steps, p, n, e);
      forall q: nat | q < n && EntryMadeAt(steps, q, n, e)
        ensures At(steps, n).cache[e] != Stored(At(steps, n), e) <==> CachesStale(At(steps, q), steps[q])
      {
        EntryIsStaleExactlyWhen(steps, q, n, e);
      }
    } else {
      AnAnswerIsOldExactlyWhen(steps, n);
    }
  }

  /** So a session minted before a completed change is refused at every later step, unless
      the step that made the entry it hits cached a stale version, or the handler that
      answers read the version before a change. Other accounts, other entries and entries
      since cleared do not matter. */
  lemma {:induction false} NoSessionOutlivesAChange(steps: seq<Step>, m: nat, n: nat, session: Session)
    requires m <= n < |steps| && session in At(steps, m).sessions && ChangedBetween(steps, m, n, session.email)
    requires Quiet(At(steps, n), session.email) && !AnswersFromBeforeAChange(steps, n, session.email)
    ensures !Accepts(At(steps, n), steps[n], session)
  {
    hide At, Stored, Next, Quiet, ChangedBetween, AnswersFromBeforeAChange;
    MintedBeforeAChangeIsOlder(steps, m, n, session);
    if Accepts(At(steps, n), steps[n], session) { CompletedChangesAreAnsweredExactlyUnless(steps, n); }
  }

  /** A change is completed by its clear. Until then, and for ever where the handler goes
      away or its write reports an error, the entry from before the change stays in force. */
  lemma AnUnclearedChangeKeepsItsEntry(s: State, step: Step, e: Email)
    requires e in s.cache && !Quiet(s, e)
    requires step != Drop(e) && !(step.Clear? && step.id in s.windows && s.windows[step.id] == e)
    ensures e in Next(s, step).cache && Next(s, step).cache[e] == s.cache[e] && !Quiet(Next(s, step), e)
  {
    var id :| id in s.windows && s.windows[id] == e;
    assert id in Next(s, step).windows && Next(s, step).windows[id] == e;
  }

  lemma AnUnclearedChangeKeepsItsSessions(e: Email)
    ensures var s := LoggedIn(e).(cache := map[e := 0]); var t := Next(s, Write(0, e));
            && Stored(t, e) == 1 && t.cache == map[e := 0] && !Quiet(t, e)
            && Accepts(t, Look(1, Request(Session(e, 0))), Session(e, 0))
  {
    var t := Next(LoggedIn(e).(cache := map[e := 0]), Write(0, e));
    assert 0 in t.windows && t.windows[0] == e;
  }

  /** Every login and every request with a minted session is answered: by the entry where
      there is one, else by the store as the handler reads it. A login's answer is minted. */
  lemma EveryCallIsAnswered(s: State, id: Id, call: Call)
    requires id !in s.missed && id !in s.readings
    requires if call.Login? then call.email in s.versions else call.session in s.sessions
    ensures var e := if call.Login? then call.email else call.session.email;
            if e in s.cache then
              && Answer(s, Look(id, call)) == Some(Reading(call, s.cache[e]))
              && (call.Login? ==> Session(e, s.cache[e]) in Next(s, Look(id, call)).sessions)
            else
              var t := Next(Next(s, Look(id, call)), Read(id));
              var version := if e in s.versions then s.versions[e] else 0;
              && Answer(t, Insert(id)) == Some(Reading(call, version))
              && (call.Login? ==> Session(e, version) in Next(t, Insert(id)).sessions)
              && e in Next(t, Insert(id)).cache && Next(t, Insert(id)).cache[e] == version
  {
  }

  /** A session that carries the store's version is accepted by every answer outside windows
      that is not from before a change. */
  lemma {:induction false} ACurrentSessionIsAccepted(steps: seq<Step>, n: nat, session: Session)
    requires n < |steps| && Answer(At(steps, n), steps[n]).Some?
    requires Answer(At(steps, n), steps[n]).value.call == Request(session)
    requires session.version == Stored(At(steps, n), session.email)
    requires Quiet(At(steps, n), session.email) && !AnswersFromBeforeAChange(steps, n, session.email)
    ensures Accepts(At(steps, n), steps[n], session)
  {
    hide At, Stored, Next, Quiet, AnswersFromBeforeAChange;
    CompletedChangesAreAnsweredExactlyUnless(steps, n);
  }

  /** Every session in use was the answer to some login. */
  lemma {:induction false} SessionsComeFromLogins(steps: seq<Step>, n: nat, session: Session) returns (m: nat)
    requires n <= |steps| && session in At(steps, n).sessions
    ensures m < n && Answer(At(steps, m), steps[m]) == Some(Reading(Login(session.email), session.version))
    decreases n
  {
    assert n > 0;
    AtNext(steps, n - 1);
    StepSessions(At(steps, n - 1), steps[n - 1], session);
    hide At, Next, Answer;
    if session in At(steps, n - 1).sessions {
      m := SessionsComeFromLogins(steps, n - 1, session);
    } else {
      m := n - 1;
    }
  }

  lemma StepSessions(s: State, step: Step, session: Session)
    requires session in Next(s, step).sessions
    ensures session in s.sessions || Answer(s, step) == Some(Reading(Login(session.email), session.version))
  {
  }

  ghost predicate PresentedAreMinted(s: State) {
    && (forall id | id in s.missed && s.missed[id].Request? :: s.missed[id].session in s.sessions)
    && (forall id | id in s.readings && s.readings[id].call.Request? :: s.readings[id].call.session in s.sessions)
  }

  lemma StepKeepsPresentedMinted(s: State, step: Step)
    requires PresentedAreMinted(s)
    ensures PresentedAreMinted(Next(s, step))
  {
  }

  lemma {:induction false} RunKeepsPresentedMinted(steps: seq<Step>)
    ensures PresentedAreMinted(Run(EMPTY, steps))
  {
    hide Next, PresentedAreMinted;
    if steps == [] {
      NothingPresented();
    } else {
      RunKeepsPresentedMinted(steps[..|steps| - 1]);
      StepKeepsPresentedMinted(Run(EMPTY, steps[..|steps| - 1]), steps[|steps| - 1]);
    }
  }

  lemma NothingPresented()
    ensures PresentedAreMinted(EMPTY)
  {
  }

  /** No session is ever accepted that was not minted by a login before. */
  lemma {:induction false} OnlyMintedSessionsAreAccepted(steps: seq<Step>, n: nat, session: Session) returns (m: nat)
    requires n < |steps| && Accepts(At(steps, n), steps[n], session)
    ensures m < n && Answer(At(steps, m), steps[m]) == Some(Reading(Login(session.email), session.version))
  {
    RunKeepsPresentedMinted(steps[..n]);
    AcceptedWasPresented(At(steps, n), steps[n], session);
    hide At, Answer, Next;
    m := SessionsComeFromLogins(steps, n, session);
  }

  lemma AcceptedWasPresented(s: State, step: Step, session: Session)
    requires PresentedAreMinted(s) && Accepts(s, step, session)
    ensures session in s.sessions
  {
  }

  /** A session is never minted with a version ahead of the store. */
  lemma {:induction false} MintedSessionsAreBounded(steps: seq<Step>, session: Session)
    requires session in Run(EMPTY, steps).sessions
    ensures session.version <= Stored(Run(EMPTY, steps), session.email)
  {
    RunKeepsBounded(EMPTY, steps);
  }

  /** An account with a session, and no entry, as after a plan change. */
  function LoggedIn(e: Email): State {
    EMPTY.(versions := map[e := 0], sessions := {Session(e, 0)})
  }

  lemma LoggedInIsReached(e: Email)
    ensures Next(Next(Next(Next(Next(EMPTY, Create(e)), Look(0, Login(e))), Read(0)), Insert(0)), Drop(e)) ==
        LoggedIn(e)
  {
    var s1 := Next(EMPTY, Create(e));
    var s2 := Next(s1, Look(0, Login(e)));
    var s3 := Next(s2, Read(0));
    var s4 := Next(s3, Insert(0));
    assert s3.missed == map[] && s4.readings == map[] && s4.cache - {e} == map[];
  }

  /** A stale entry can come from an API call after a completed change. The session from
      before the change is accepted again, and one from after it is refused. */
  lemma AnApiCallCanReviveASession(e: Email)
    ensures var s := LoggedIn(e); var request := Request(Session(e, 0));
            var t := Next(Next(s, Write(0, e)), Clear(0)); var u := Next(t, ApiCall(e));
            && Stored(u, e) == 1 && Quiet(u, e) && Accepts(u, Look(1, request), Session(e, 0))
            && Answer(u, Look(1, Login(e))) == Some(Reading(Login(e), 0))
            && forall id :: !Accepts(u, Look(id, Request(Session(e, 1))), Session(e, 1))
  {
  }

  /** Or from a version read before the change and inserted after it. */
  lemma ASlowReadCanReviveASession(e: Email)
    ensures var s := LoggedIn(e); var request := Request(Session(e, 0));
            var t := Next(Next(Next(Next(Next(s, Look(1, request)), Read(1)), Write(0, e)), Clear(0)), Insert(1));
            Stored(t, e) == 1 && Quiet(t, e) && Accepts(t, Look(2, request), Session(e, 0))
  {
  }

  /** And no stale entry is needed. Handler 1 reads, the account changes and the change
      completes, handler 2 fills the cache with the new version, and handler 1 answers. At
      every moment the cache is right, and the old session is accepted. */
  lemma AnOvertakenReadingRevivesASession(e: Email)
    ensures var request := Request(Session(e, 0));
            var steps := [Look(1, request), Read(1), Write(0, e), Clear(0), Look(2, request), Read(2), Insert(2)];
            var t := Run(LoggedIn(e), steps);
            && NeverStale(LoggedIn(e), steps) && BumpCount(LoggedIn(e), steps, e) == 1
            && Coherent(t) && Quiet(t, e) && t.cache == map[e := 1] && Stored(t, e) == 1
            && Next(t, Insert(1)).cache == t.cache && Accepts(t, Insert(1), Session(e, 0))
  {
    var request := Request(Session(e, 0));
    var s0 := LoggedIn(e);
    var steps := [Look(1, request), Read(1), Write(0, e), Clear(0), Look(2, request), Read(2), Insert(2)];
    hide Run, BumpCount, Next, Stored, CachesStale, Coherent, Quiet, Accepts;
    OvertakenStates(e);
    RunSeven(s0, steps);
    forall n | 0 <= n < |steps|
      ensures !CachesStale(Run(s0, steps[..n]), steps[n])
    {
      if n < 6 { OnlyTheseCache(Run(s0, steps[..n]), steps[n]); }
    }
    VersionCountsChanges(s0, steps, e);
  }

  lemma {:induction false} RunSeven(s: State, steps: seq<Step>)
    requires |steps| == 7
    ensures Run(s, steps[..6]) == Next(Next(Next(Next(Next(Next(s, steps[0]), steps[1]), steps[2]), steps[3]),
        steps[4]), steps[5])
    ensures Run(s, steps) == Next(Run(s, steps[..6]), steps[6])
  {
    hide Run, Next;
    RunOfNothing(s);
    assert steps[..0] == [] && steps[..7] == steps;
    RunLast(s, steps, 0);
    RunLast(s, steps, 1);
    RunLast(s, steps, 2);
    RunLast(s, steps, 3);
    RunLast(s, steps, 4);
    RunLast(s, steps, 5);
    RunLast(s, steps, 6);
  }

  lemma RunOfNothing(s: State)
    ensures Run(s, []) == s
  {
  }

  lemma OnlyTheseCache(s: State, step: Step)
    requires !step.ApiCall? && !step.Insert?
    ensures !CachesStale(s, step)
  {
  }

  /** Handler 1 holds version 0 of an account that has version 1 by now. */
  function AfterTheChange(e: Email): State {
    LoggedIn(e).(versions := map[e := 1], readings := map[1 := Reading(Request(Session(e, 0)), 0)])
  }

  lemma ChangeCompletes(e: Email)
    ensures Next(Next(Next(Next(LoggedIn(e), Look(1, Request(Session(e, 0)))), Read(1)), Write(0, e)), Clear(0)) ==
        AfterTheChange(e)
  {
    var s2 := Next(Next(LoggedIn(e), Look(1, Request(Session(e, 0)))), Read(1));
    assert s2.missed == map[] && s2.cache == map[] && s2.cache - {e} == map[] && s2.windows == map[];
    assert s2.windows[0 := e] - {0} == map[];
  }

  lemma SecondHandlerFills(e: Email)
    ensures var request := Request(Session(e, 0));
            var s := Next(Next(AfterTheChange(e), Look(2, request)), Read(2));
            s.windows == map[] && s.cache == map[]
              && s.readings == map[1 := Reading(request, 0), 2 := Reading(request, 1)]
            && s.versions == map[e := 1]
  {
  }

  lemma OvertakenStates(e: Email)
    ensures var request := Request(Session(e, 0));
            var s := Next(Next(Next(Next(Next(Next(LoggedIn(e), Look(1, request)), Read(1)), Write(0, e)), Clear(0)),
              Look(2, request)), Read(2));
            var t := Next(s, Insert(2));
            && !CachesStale(s, Insert(2)) && Coherent(t) && Quiet(t, e) && t.cache == map[e := 1] && Stored(t, e) == 1
               && Stored(LoggedIn(e), e) == 0
            && Next(t, Insert(1)).cache == t.cache && Accepts(t, Insert(1), Session(e, 0))
  {
    var request := Request(Session(e, 0));
    ChangeCompletes(e);
    SecondHandlerFills(e);
    hide Next, CachesStale, Coherent, Quiet, Accepts;
    var s := Next(Next(AfterTheChange(e), Look(2, request)), Read(2));
    FilledByTheSecond(s, e);
  }

  lemma FilledByTheSecond(s: State, e: Email)
    requires s.windows == map[] && s.cache == map[] && s.versions == map[e := 1]
    requires var request := Request(Session(e, 0));
        s.readings == map[1 := Reading(request, 0), 2 := Reading(request, 1)]
    ensures var t := Next(s, Insert(2));
            && !CachesStale(s, Insert(2)) && Coherent(t) && Quiet(t, e) && t.cache == map[e := 1] && Stored(t, e) == 1
            && Next(t, Insert(1)).cache == t.cache && Accepts(t, Insert(1), Session(e, 0))
  {
  }

  lemma {:induction false} RunLast(s: State, steps: seq<Step>, n: nat)
    requires n < |steps|
    ensures Run(s, steps[..n + 1]) == Next(Run(s, steps[..n]), steps[n])
  {
    hide Next;
    assert steps[..n + 1][..n] == steps[..n];
  }

  // ---------------------------------------------------------------- purpose links

  /** Purpose links are checked against the store itself. */
  predicate LinkAccepted(s: State, link: Link) {
    link in s.links && link.version == Stored(s, link.email)
  }

  /** No link survives a change of its account, in any interleaving. */
  lemma {:induction false} NoLinkOutlivesAChange(s: State, steps: seq<Step>, link: Link)
    requires Bounded(s) && link in s.links && BumpCount(s, steps, link.email) > 0
    ensures !LinkAccepted(Run(s, steps), link)
  {
    VersionCountsChanges(s, steps, link.email);
  }

  lemma SendMints(s: State, e: Email)
    requires e in s.versions
    ensures Link(e, s.versions[e]) in Next(s, Send(e)).links && Next(s, Send(e)).versions == s.versions
  {
  }

  lemma LinksStay(s: State, step: Step, link: Link)
    requires link in s.links
    ensures link in Next(s, step).links
  {
  }

  lemma {:induction false} LinksStayOverRuns(s: State, steps: seq<Step>, link: Link)
    requires link in s.links
    ensures link in Run(s, steps).links
  {
    hide Next;
    if steps != [] {
      LinksStayOverRuns(s, steps[..|steps| - 1], link);
      LinksStay(Run(s, steps[..|steps| - 1]), steps[|steps| - 1], link);
    }
  }

  /** A check lets exactly those links through that were sent and carry the version the store
      has now. */
  lemma ACheckPassesExactly(s: State, id: Id, link: Link)
    requires id !in s.checked
    ensures id in Next(s, Check(id, link)).checked <==>
        link in s.links && link.version == (if link.email in s.versions then s.versions[link.email] else 0)
    ensures id in Next(s, Check(id, link)).checked ==> Next(s, Check(id, link)).checked[id] == link
  {
  }

  /** A link sent to an account works at once, and over every later run it is let through
      exactly while the account was not changed. */
  lemma {:induction false} ASentLinkWorksUntilAChange(s: State, e: Email, steps: seq<Step>, id: Id)
    requires Bounded(s) && e in s.versions && id !in Run(Next(s, Send(e)), steps).checked
    ensures var link := Link(e, s.versions[e]);
            var t := Run(Next(s, Send(e)), steps);
            && link in Next(s, Send(e)).links
            && (id in Next(t, Check(id, link)).checked <==> BumpCount(Next(s, Send(e)), steps, e) == 0)
  {
    hide Next, Run, BumpCount, Bounded;
    var u := Next(s, Send(e));
    var link := Link(e, s.versions[e]);
    SendMints(s, e);
    LinksStayOverRuns(u, steps, link);
    VersionCountsChanges(u, steps, e);
    ACheckPassesExactly(Run(u, steps), id, link);
  }

  /** And a reset that got through writes: it uses its link, and the account has changed
      once more. */
  lemma ACheckedResetWrites(s: State, id: Id)
    requires Bounded(s) && id in s.checked && id !in s.windows
    ensures var e := s.checked[id].email; var t := Next(s, Commit(id));
            && t.resets == s.resets + [s.checked[id]] && id !in t.checked
            && e in s.versions && e in t.versions && t.versions[e] == s.versions[e] + 1
  {
  }

  /** Only links that were sent are ever let through, and each carries the version its
      account had when it was sent. */
  lemma {:induction false} LinksComeFromSends(steps: seq<Step>, n: nat, link: Link) returns (m: nat)
    requires n <= |steps| && link in At(steps, n).links
    ensures m < n && steps[m] == Send(link.email)
    ensures link.email in At(steps, m).versions && At(steps, m).versions[link.email] == link.version
    decreases n
  {
    assert n > 0;
    AtNext(steps, n - 1);
    StepLinks(At(steps, n - 1), steps[n - 1], link);
    hide At, Next;
    if link in At(steps, n - 1).links {
      m := LinksComeFromSends(steps, n - 1, link);
    } else {
      m := n - 1;
    }
  }

  lemma StepLinks(s: State, step: Step, link: Link)
    requires link in Next(s, step).links
    ensures link in s.links
      || (step == Send(link.email) && link.email in s.versions && s.versions[link.email] == link.version)
  {
  }

  /** The link a step resets a password with, when it does. */
  function Resets(s: State, step: Step): Option<Link> {
    if step.Commit? && step.id in s.checked && step.id !in s.windows then Some(s.checked[step.id]) else None
  }

  /** The link succeeded at most once. */
  predicate UsedOnce(s: State, link: Link) {
    forall i, j | 0 <= i < j < |s.resets| :: !(s.resets[i] == link && s.resets[j] == link)
  }

  /** From step `i` to step `j` handler `id` is past its check and has not written. */
  ghost predicate HoldsThrough(steps: seq<Step>, id: Id, i: nat, j: nat)
    requires j <= |steps|
  {
    forall q | i <= q <= j :: id in At(steps, q).checked
  }

  /** Step `i` resets with a link another handler is holding, and that handler goes on, at
      step `j`, to reset a password too. */
  ghost predicate OvertakesAHolder(steps: seq<Step>, i: nat, j: nat)
    requires i < j < |steps|
  {
    && Resets(At(steps, i), steps[i]).Some? && Resets(At(steps, j), steps[j]).Some?
    && steps[j].id != steps[i].id && HoldsThrough(steps, steps[j].id, i, j)
    && At(steps, i).checked[steps[j].id] == Resets(At(steps, i), steps[i]).value
  }

  /** Over every run and for every link, whatever happens to other links: it resets a
      password at most once exactly when no reset with it goes ahead of a handler that holds
      it too and writes later. */
  lemma {:induction false} ALinkResetsAtMostOnceIff(steps: seq<Step>, link: Link)
    ensures UsedOnce(Run(EMPTY, steps), link) <==>
            forall i, j | 0 <= i < j < |steps|
              && Resets(At(steps, i), steps[i]) == Some(link) :: !OvertakesAHolder(steps, i, j)
  {
    hide OvertakesAHolder, Next, At, UsedOnce, Resets;
    forall i, j | 0 <= i < j < |steps| && Resets(At(steps, i), steps[i]) == Some(link) && OvertakesAHolder(steps, i, j)
      ensures !UsedOnce(Run(EMPTY, steps), link)
    {
      OvertakenHolderRepeats(steps, i, j, link);
    }
    if !UsedOnce(Run(EMPTY, steps), link) {
      var i, j := RepeatOvertakes(steps, link);
      assert OvertakesAHolder(steps, i, j);
    }
  }

  lemma {:induction false} HolderKeepsItsLink(steps: seq<Step>, id: Id, i: nat, j: nat)
    requires i <= j <= |steps| && HoldsThrough(steps, id, i, j)
    ensures id in At(steps, i).checked && id in At(steps, j).checked
    ensures At(steps, j).checked[id] == At(steps, i).checked[id]
    decreases j - i
  {
    hide At;
    assert id in At(steps, i).checked;
    if i < j {
      HolderKeepsItsLink(steps, id, i, j - 1);
      assert id in At(steps, j).checked;
      AtNext(steps, j - 1);
      StepKeepsChecked(At(steps, j - 1), steps[j - 1], id);
    }
  }

  lemma StepKeepsChecked(s: State, step: Step, id: Id)
    requires id in s.checked && id in Next(s, step).checked
    ensures Next(s, step).checked[id] == s.checked[id]
  {
  }

  /** Resets are only ever added, and by the steps that reset. */
  lemma StepResets(s: State, step: Step)
    ensures Next(s, step).resets == s.resets + match Resets(s, step) case Some(link) => [link] case None => []
  {
    assert s.resets + [] == s.resets;
  }

  lemma {:induction false} ResetsGrow(steps: seq<Step>, m: nat, n: nat)
    requires m <= n <= |steps|
    ensures |At(steps, m).resets| <= |At(steps, n).resets|
        && At(steps, n).resets[..|At(steps, m).resets|] == At(steps, m).resets
    decreases n - m
  {
    hide At, Next, Resets;
    if m < n {
      ResetsGrow(steps, m, n - 1);
      AtNext(steps, n - 1);
      StepResets(At(steps, n - 1), steps[n - 1]);
    }
  }

  lemma {:induction false} OvertakenHolderRepeats(steps: seq<Step>, i: nat, j: nat, link: Link)
    requires i < j < |steps| && Resets(At(steps, i), steps[i]) == Some(link) && OvertakesAHolder(steps, i, j)
    ensures !UsedOnce(Run(EMPTY, steps), link)
  {
    hide At, Next;
    HolderKeepsItsLink(steps, steps[j].id, i, j);
    ResetIsRecorded(steps, i);
    ResetIsRecorded(steps, j);
    ResetsGrow(steps, i + 1, j);
    AtEnd(steps);
    assert Run(EMPTY, steps).resets[|At(steps, i).resets|] == Run(EMPTY, steps).resets[|At(steps, j).resets|];
  }

  lemma ResetIsRecorded(steps: seq<Step>, i: nat)
    requires i < |steps| && Resets(At(steps, i), steps[i]).Some?
    ensures |At(steps, i + 1).resets| == |At(steps, i).resets| + 1
    ensures var k := |At(steps, i).resets|;
        k < |Run(EMPTY, steps).resets| && Run(EMPTY, steps).resets[k] == Resets(At(steps, i), steps[i]).value
  {
    hide At, Next, Resets;
    AtNext(steps, i);
    StepResets(At(steps, i), steps[i]);
    ResetsGrow(steps, i + 1, |steps|);
    AtEnd(steps);
    var k := |At(steps, i).resets|;
    assert At(steps, |steps|).resets[..k + 1][k] == At(steps, i + 1).resets[k];
  }

  lemma {:induction false} RecordedResetHappened(steps: seq<Step>, n: nat, k: nat) returns (i: nat)
    requires n <= |steps| && k < |At(steps, n).resets|
    ensures i < n && |At(steps, i).resets| == k && Resets(At(steps, i), steps[i]) == Some(At(steps, n).resets[k])
    decreases n
  {
    hide Next, Resets;
    assert n > 0;
    AtNext(steps, n - 1);
    StepResets(At(steps, n - 1), steps[n - 1]);
    if k < |At(steps, n - 1).resets| {
      i := RecordedResetHappened(steps, n - 1, k);
    } else {
      i := n - 1;
    }
  }

  lemma {:induction false} RepeatOvertakes(steps: seq<Step>, link: Link) returns (i: nat, j: nat)
    requires !UsedOnce(Run(EMPTY, steps), link)
    ensures i < j < |steps| && Resets(At(steps, i), steps[i]) == Some(link) && OvertakesAHolder(steps, i, j)
  {
    hide At, Next;
    AtEnd(steps);
    var end := Run(EMPTY, steps).resets;
    var a, b :| 0 <= a < b < |end| && end[a] == link && end[b] == link;
    i := RecordedResetHappened(steps, |steps|, a);
    j := RecordedResetHappened(steps, |steps|, b);
    var id := steps[j].id;
    if j <= i { ResetsGrow(steps, j, i); }
    assert i != j;
    forall q | i <= q <= j
      ensures id in At(steps, q).checked && At(steps, q).checked[id] == end[a] && (q == i ==> id != steps[i].id)
    {
      HeldSinceTheFirst(steps, i, j, id, q);
    }
  }

  /** A link once used is behind the store, so it passes no later check: whoever resets with
      it again was holding it when it was first used. */
  lemma {:induction false} HeldSinceTheFirst(steps: seq<Step>, i: nat, j: nat, id: Id, q: nat)
    requires i <= q <= j < |steps| && i < j
    requires Resets(At(steps, i), steps[i]).Some? && id in At(steps, j).checked
        && At(steps, j).checked[id] == Resets(At(steps, i), steps[i]).value
    ensures id in At(steps, q).checked && At(steps, q).checked[id] == Resets(At(steps, i), steps[i]).value
    ensures q == i ==> id != steps[i].id
    decreases j - q
  {
    hide At, Next, Stored, Resets;
    var link := Resets(At(steps, i), steps[i]).value;
    if q < j {
      HeldSinceTheFirst(steps, i, j, id, q + 1);
      AtNext(steps, q);
      CheckedBefore(At(steps, q), steps[q], id, link);
      if i < q { UsedLinkIsBehind(steps, i, q); }
    }
  }

  /** What a handler holds after a step it held before, unless the step is a check that
      passed; a reset lets go of its own link only. */
  lemma CheckedBefore(s: State, step: Step, id: Id, link: Link)
    requires id in Next(s, step).checked && Next(s, step).checked[id] == link
    ensures link.version == Stored(s, link.email) || (id in s.checked && s.checked[id] == link)
    ensures Resets(s, step).Some? ==> id in s.checked && s.checked[id] == link && id != step.id
  {
  }

  lemma UsedLinkIsBehind(steps: seq<Step>, i: nat, q: nat)
    requires i < q <= |steps| && Resets(At(steps, i), steps[i]).Some?
    ensures var link := Resets(At(steps, i), steps[i]).value; link.version < Stored(At(steps, q), link.email)
  {
    hide At, Stored;
    var link := Resets(At(steps, i), steps[i]).value;
    AtIsBounded(steps, i);
    VersionTellsChange(steps, i, q, link.email);
    assert Bumps(At(steps, i), steps[i]) == Some(link.email);
    assert ChangedBetween(steps, i, q, link.email);
  }

  /** A reset overlaps a change when the version moved between its check and its write. */
  predicate CommitOverlaps(s: State, step: Step) {
    step.Commit? && step.id in s.checked && s.checked[step.id].version != Stored(s, s.checked[step.id].email)
  }

  /** In particular, when no version moves between a check of the link and its write, the
      link resets a password at most once. */
  lemma {:induction false} ALinkResetsAtMostOnce(steps: seq<Step>, link: Link)
    requires forall n | 0 <= n < |steps| && Resets(At(steps, n), steps[n]) == Some(link) ::
        !CommitOverlaps(At(steps, n), steps[n])
    ensures UsedOnce(Run(EMPTY, steps), link)
  {
    hide CommitOverlaps, At;
    ALinkResetsAtMostOnceIff(steps, link);
    forall i, j | 0 <= i < j < |steps| && Resets(At(steps, i), steps[i]) == Some(link)
      ensures !OvertakesAHolder(steps, i, j)
    {
      if OvertakesAHolder(steps, i, j) { HolderOverlaps(steps, i, j); }
    }
  }

  lemma HolderOverlaps(steps: seq<Step>, i: nat, j: nat)
    requires i < j < |steps| && OvertakesAHolder(steps, i, j)
    ensures CommitOverlaps(At(steps, j), steps[j]) && Resets(At(steps, j), steps[j]) == Resets(At(steps, i), steps[i])
  {
    hide At, Stored;
    HolderKeepsItsLink(steps, steps[j].id, i, j);
    UsedLinkIsBehind(steps, i, j);
  }

  /** That is not needed: a reset may overlap a password change and still be its link's only
      one. */
  lemma AnOverlapCanBeHarmless(e: Email)
    ensures var link := Link(e, 0); var s := Next(Next(Next(EMPTY, Create(e)), Send(e)), Check(0, link));
            var t := Next(s, Write(1, e));
            CommitOverlaps(t, Commit(0)) && Next(t, Commit(0)).resets == [link] && UsedOnce(Next(t, Commit(0)), link)
  {
  }

  /** Two handlers that check one link before either writes both succeed. */
  lemma TwoOverlappingResetsBothSucceed(e: Email)
    ensures var link := Link(e, 0); var s := Next(Next(EMPTY, Create(e)), Send(e));
            var t := Next(Next(Next(Next(s, Check(0, link)), Check(1, link)), Commit(0)), Commit(1));
            t.resets == [link, link]
  {
  }

  // ---------------------------------------------------------------- the handlers

  /** The users table and the version cache. What is in flight is bookkeeping, so that each
      method can be stated as the step it takes. */
  class AuthState {
    var versions: map<Email, nat>
    var cache: map<Email, nat>
    ghost var windows: map<Id, Email>
    ghost var missed: map<Id, Call>
    var readings: map<Id, Reading>
    var sessions: set<Session>
    var links: set<Link>
    ghost var checked: map<Id, Link>
    ghost var resets: seq<Link>

    ghost function View(): State
      reads this
    {
      State(versions, cache, windows, missed, readings, sessions, links, checked, resets)
    }

    constructor ()
      ensures View() == EMPTY
    {
      versions, cache, readings, sessions, links := map[], map[], map[], {}, {};
      windows, missed, checked, resets := map[], map[], map[], [];
    }

    /** The UPDATE behind update_password_hash, enable_totp and disable_totp. */
    method BumpVersion(e: Email)
      modifies this`versions
      ensures versions == if e in old(versions) then old(versions)[e := old(versions)[e] + 1] else old(versions)
    {
      if e in versions {
        versions := versions[e := versions[e] + 1];
      }
    }

    /** set_second_factor, and the tail of change_password: write, and clear the cache when
        the writer replied. */
    method ChangeCredentials(id: Id, e: Email, replied: bool)
      requires id !in windows
      modifies this
      ensures View() == if replied then Run(old(View()), [Write(id, e), Clear(id)]) else Next(old(View()), Write(id, e))
    {
      RunTwo(View(), Write(id, e), Clear(id));
      BumpVersion(e);
      windows := windows[id := e];
      if replied {
        ClearUserCache(id, e);
      }
    }

    method ClearUserCache(id: Id, e: Email)
      requires id in windows && windows[id] == e
      modifies this
      ensures View() == Next(old(View()), Clear(id))
    {
      cache := cache - {e};
      windows := windows - {id};
    }

    /** The check and the write of reset_password. */
    method CheckLink(id: Id, link: Link) returns (ok: bool)
      requires id !in checked
      modifies this
      ensures ok == old(LinkAccepted(View(), link))
      ensures View() == Next(old(View()), Check(id, link))
      ensures ok ==> id in checked && checked[id] == link
    {
      ok := link in links && link.version == if link.email in versions then versions[link.email] else 0;
      if ok {
        checked := checked[id := link];
      }
    }

    method CommitReset(id: Id, link: Link)
      requires id !in windows && id in checked && checked[id] == link
      modifies this
      ensures View() == Next(old(View()), Commit(id)) && id in windows && windows[id] == link.email
    {
      BumpVersion(link.email);
      windows := windows[id := link.email];
      resets := resets + [link];
      checked := checked - {id};
    }

    /** reset_password without interruption. */
    method ResetPassword(id: Id, link: Link) returns (ok: bool)
      requires id !in windows && id !in checked
      modifies this
      ensures ok == old(LinkAccepted(View(), link))
      ensures View() == if ok then Run(old(View()), [Check(id, link), Commit(id), Clear(id)]) else old(View())
    {
      RunThree(View(), Check(id, link), Commit(id), Clear(id));
      ok := CheckLink(id, link);
      if ok {
        CommitReset(id, link);
        ClearUserCache(id, link.email);
      }
    }

    /** The first part of resolve_token_version: on a hit it returns the entry's version. */
    method LookUp(id: Id, call: Call) returns (hit: Option<nat>)
      requires Permitted(View(), call) && id !in missed && id !in readings
      modifies this
      ensures View() == Next(old(View()), Look(id, call))
      ensures hit == match old(Answer(View(), Look(id, call))) case Some(r) => Some(r.version) case None => None
      ensures hit.None? ==> id in missed && missed[id] == call
    {
      if Account(call) in cache {
        hit := Some(cache[Account(call)]);
        if call.Login? {
          sessions := sessions + {Session(call.email, hit.value)};
        }
      } else {
        hit := None;
        missed := missed[id := call];
      }
    }

    /** After a miss, under the database lock. */
    method ReadVersion(id: Id, call: Call)
      requires id in missed && missed[id] == call && id !in readings
      modifies this
      ensures View() == Next(old(View()), Read(id)) && id in readings && readings[id].call == call
    {
      readings := readings[id := Reading(call, if Account(call) in versions then versions[Account(call)] else 0)];
      missed := missed - {id};
    }

    /** And with the lock released: the entry is made only if there is none by now, and what
        is returned is the handler's own reading either way. */
    method InsertVersion(id: Id) returns (version: nat)
      requires id in readings
      modifies this
      ensures View() == Next(old(View()), Insert(id))
      ensures Some(Reading(old(readings)[id].call, version)) == old(Answer(View(), Insert(id)))
    {
      var r := readings[id];
      version := r.version;
      if Account(r.call) !in cache {
        cache := cache[Account(r.call) := version];
      }
      if r.call.Login? {
        sessions := sessions + {Session(r.call.email, version)};
      }
      readings := readings - {id};
    }

    /** The end of the session extractor, at any later moment: the session is compared with
        the handler's own reading. */
    method FinishExtract(id: Id, session: Session) returns (accepted: bool)
      requires id in readings && readings[id].call == Request(session)
      modifies this
      ensures View() == Next(old(View()), Insert(id))
      ensures accepted == old(Accepts(View(), Insert(id), session))
    {
      var version := InsertVersion(id);
      accepted := session.version == version;
    }

    /** The session extractor without interruption: accepted exactly when the session's
        version is the entry's, or the store's where there is no entry. */
    method ExtractSession(id: Id, session: Session) returns (accepted: bool)
      requires session in sessions && id !in missed && id !in readings
      modifies this
      ensures accepted <==>
          session.version == old(if session.email in cache then cache[session.email] else Stored(View(), session.email))
      ensures View() == if session.email in old(cache) then Next(old(View()), Look(id, Request(session)))
                        else Run(old(View()), [Look(id, Request(session)), Read(id), Insert(id)])
    {
      RunThree(View(), Look(id, Request(session)), Read(id), Insert(id));
      var hit := LookUp(id, Request(session));
      if hit.Some? {
        accepted := session.version == hit.value;
      } else {
        ReadVersion(id, Request(session));
        accepted := FinishExtract(id, session);
      }
    }

    /** check_and_increment, as far as the version it caches: an entry it has to make carries
        version 0 until something clears it. */
    method CheckAndIncrement(e: Email)
      modifies this`cache
      ensures View() == Next(old(View()), ApiCall(e))
    {
      if e !in cache {
        cache := cache[e := 0];
      }
    }
  }
}
