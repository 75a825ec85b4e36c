/** The webhook delivery log, trimmed to the newest hundred attempts of a webhook after
    every insert. Attempt times may tie, and the database may break a tie any way. */
module DeliveryLog {
  import opened Prelude
  import opened Collections

  const KEPT: nat := 100

  datatype Attempt = Attempt(webhook: string, at: int, status: Option<int>, success: bool, error: Option<string>)

  /** Rows by the id drawn from the sequence. */
  type Table = map<int, Attempt>

  // ---------------------------------------------------------------- the newest n, as times

  /** `top` holds the `n` largest members of `all`, or all of them when there are fewer. */
  ghost predicate IsTop(n: nat, all: multiset<int>, top: multiset<int>) {
    && top <= all
    && |top| == (if |all| < n then |all| else n)
    && forall x, y | top[x] > 0 && all[y] > top[y] :: y <= x
  }

  /** Ties make the rows ambiguous but never the times. */
  lemma TopIsUnique(n: nat, all: multiset<int>, a: multiset<int>, b: multiset<int>)
    requires IsTop(n, all, a) && IsTop(n, all, b)
    ensures a == b
  {
    if a != b {
      if a <= b { ProperlyInside(a, b); } else if b <= a { ProperlyInside(b, a); }
      var x := Excess(a, b);
      var y := Excess(b, a);
    }
  }

  /** Trimming early loses nothing: the newest of (the newest so far and one more) are the
      newest of everything. */
  lemma TopIsIncremental(n: nat, all: multiset<int>, top: multiset<int>, x: int, next: multiset<int>)
    requires IsTop(n, all, top) && IsTop(n, top + multiset{x}, next)
    ensures IsTop(n, all + multiset{x}, next)
  {
    var more := all + multiset{x};
    assert next <= more;
    if |all| <= n && top != all { ProperlyInside(top, all); }
    forall u, y | next[u] > 0 && more[y] > next[y]
      ensures y <= u
    {
      if (top + multiset{x})[y] == next[y] && top[u] == 0 {
        assert u == x && all[y] > top[y];
        if top <= next { ProperlyInside(top, next); }
        var t := Excess(top, next);
        assert top[t] > 0 && (top + multiset{x})[t] > next[t];
      }
    }
  }

  // ---------------------------------------------------------------- times of a set of rows

  ghost function Times(t: Table, ids: set<int>): multiset<int>
    requires ids <= t.Keys
    decreases |ids|
  {
    if ids == {} then multiset{}
    else
      var i := Pick(ids);
      multiset{t[i].at} + Times(t, ids - {i})
  }

  lemma {:induction false} TimesPick(t: Table, ids: set<int>, i: int)
    requires ids <= t.Keys && i in ids
    ensures Times(t, ids) == multiset{t[i].at} + Times(t, ids - {i})
    decreases |ids|
  {
    var j := Pick(ids);
    if j != i {
      TimesPick(t, ids - {j}, i);
      TimesPick(t, ids - {i}, j);
      assert ids - {j} - {i} == ids - {i} - {j};
    }
  }

  lemma {:induction false} TimesSplit(t: Table, a: set<int>, b: set<int>)
    requires a <= t.Keys && b <= t.Keys && a !! b
    ensures Times(t, a + b) == Times(t, a) + Times(t, b)
    decreases |a|
  {
    hide Times;
    if a == {} {
      assert a + b == b;
      NoTimes(t);
    } else {
      var i := Pick(a);
      var rest := a - {i};
      TimesSplit(t, rest, b);
      TimesPick(t, a, i);
      TimesPick(t, a + b, i);
      assert (a + b) - {i} == rest + b;
    }
  }

  lemma NoTimes(t: Table)
    ensures Times(t, {}) == multiset{}
  {
  }

  lemma {:induction false} TimesSize(t: Table, ids: set<int>)
    requires ids <= t.Keys
    ensures |Times(t, ids)| == |ids|
    decreases |ids|
  {
    if ids != {} { TimesSize(t, ids - {Pick(ids)}); }
  }

  lemma {:induction false} TimesMember(t: Table, ids: set<int>, x: int) returns (i: int)
    requires ids <= t.Keys && x in Times(t, ids)
    ensures i in ids && t[i].at == x
    decreases |ids|
  {
    i := Pick(ids);
    if t[i].at != x { i := TimesMember(t, ids - {i}, x); }
  }

  lemma {:induction false} TimesSame(t: Table, u: Table, ids: set<int>)
    requires ids <= t.Keys && ids <= u.Keys && forall i | i in ids :: t[i] == u[i]
    ensures Times(t, ids) == Times(u, ids)
    decreases |ids|
  {
    if ids != {} {
      var i := Pick(ids);
      TimesPick(t, ids, i);
      TimesPick(u, ids, i);
      TimesSame(t, u, ids - {i});
    }
  }

  function IdsOf(t: Table, webhook: string): set<int> {
    set i | i in t && t[i].webhook == webhook
  }

  ghost function TimesOf(t: Table, webhook: string): multiset<int> {
    Times(t, IdsOf(t, webhook))
  }

  // ---------------------------------------------------------------- the insert

  /** `s` may be the first `n` of `ids` in the order "newest first". */
  ghost predicate IsNewest(t: Table, ids: set<int>, n: nat, s: set<int>)
    requires ids <= t.Keys
  {
    && s <= ids
    && |s| == (if |ids| < n then |ids| else n)
    && forall i, j | i in s && j in ids && j !in s :: t[j].at <= t[i].at
  }

  lemma {:induction false} NewestExists(t: Table, ids: set<int>, n: nat) returns (s: set<int>)
    requires ids <= t.Keys
    ensures IsNewest(t, ids, n, s)
    decreases n
  {
    if n == 0 || ids == {} {
      s := {};
    } else {
      var m := LatestId(t, ids);
      var rest := NewestExists(t, ids - {m}, n - 1);
      s := rest + {m};
    }
  }

  lemma {:induction false} LatestId(t: Table, ids: set<int>) returns (m: int)
    requires ids != {} && ids <= t.Keys
    ensures m in ids && forall j | j in ids :: t[j].at <= t[m].at
    decreases |ids|
  {
    m := Pick(ids);
    if ids != {m} {
      var k := LatestId(t, ids - {m});
      if t[k].at > t[m].at { m := k; }
    }
  }

  /** One insert and its trim, for some answer of the database. */
  ghost predicate Inserted(before: Table, id: int, a: Attempt, after: Table) {
    && id !in before
    && exists newest {:trigger Trimmed(before[id := a], a.webhook, newest)} ::
      && IsNewest(before[id := a], IdsOf(before[id := a], a.webhook), KEPT, newest)
      && after == Trimmed(before[id := a], a.webhook, newest)
  }

  function Trimmed(t: Table, webhook: string, newest: set<int>): Table {
    map i | i in t && (t[i].webhook != webhook || i in newest) :: t[i]
  }

  class Store {
    var rows: Table
    var nextId: int

    ghost predicate Valid()
      reads this
    {
      forall i | i in rows :: i < nextId
    }

    constructor ()
      ensures Valid() && rows == map[]
    {
      rows, nextId := map[], 1;
    }

    /** `newest` is the database's answer to the query inside the trim. */
    method InsertWebhookDelivery(a: Attempt, newest: set<int>)
      requires Valid()
      requires IsNewest(rows[nextId := a], IdsOf(rows[nextId := a], a.webhook), KEPT, newest)
      modifies this
      ensures Valid() && nextId == old(nextId) + 1
      ensures Inserted(old(rows), old(nextId), a, rows)
    {
      var id := nextId;
      nextId := nextId + 1;
      rows := rows[id := a];
      rows := Trimmed(rows, a.webhook, newest);
    }
  }

  // ---------------------------------------------------------------- what a run keeps

  lemma NewestTimesAreTop(t: Table, ids: set<int>, newest: set<int>)
    requires ids <= t.Keys && IsNewest(t, ids, KEPT, newest)
    ensures IsTop(KEPT, Times(t, ids), Times(t, newest))
  {
    hide Times;
    TimesSplit(t, newest, ids - newest);
    assert newest + (ids - newest) == ids;
    TimesSize(t, newest);
    TimesSize(t, ids);
    forall x, y | Times(t, newest)[x] > 0 && Times(t, ids)[y] > Times(t, newest)[y]
      ensures y <= x
    {
      var i := TimesMember(t, newest, x);
      var j := TimesMember(t, ids - newest, y);
    }
  }

  /** The webhook's times after an insert are a top hundred of its times before and the
      new one; no other webhook's row is touched. */
  lemma InsertKeepsNewest(before: Table, id: int, a: Attempt, after: Table)
    requires Inserted(before, id, a, after)
    ensures IsTop(KEPT, TimesOf(before, a.webhook) + multiset{a.at}, TimesOf(after, a.webhook))
    ensures forall i | i in before && before[i].webhook != a.webhook :: i in after && after[i] == before[i]
    ensures forall i | i in after && i != id :: i in before && after[i] == before[i]
  {
    hide Times, IsTop;
    var t := before[id := a];
    var ids := IdsOf(t, a.webhook);
    var newest :| IsNewest(t, ids, KEPT, newest) && after == Trimmed(t, a.webhook, newest);
    NewestTimesAreTop(t, ids, newest);
    TimesAfterInsert(before, id, a);
    assert IdsOf(after, a.webhook) == newest;
    TimesSame(t, after, newest);
  }

  /** Row by row: the new row is the attempt as it was given, other rows are as they were;
      a webhook with fewer than a hundred rows loses none, another is left with a hundred,
      and a row that is lost is no newer than any that is kept. */
  lemma InsertRowByRow(before: Table, id: int, a: Attempt, after: Table)
    requires Inserted(before, id, a, after)
    ensures forall i | i in after :: if i == id then after[i] == a else i in before && after[i] == before[i]
    ensures forall i | i in before && before[i].webhook != a.webhook :: i in after
    ensures |set i | i in before && before[i].webhook == a.webhook| < 100 ==> after == before[id := a]
    ensures |set i | i in before && before[i].webhook == a.webhook| >= 100 ==>
        |set i | i in after && after[i].webhook == a.webhook| == 100
    ensures forall i, j | i in after && after[i].webhook == a.webhook && j in before && j !in after ::
        before[j].at <= after[i].at
    ensures id !in after ==> forall i | i in after && after[i].webhook == a.webhook :: a.at <= after[i].at
  {
    hide IsNewest;
    var t := before[id := a];
    var ids := IdsOf(t, a.webhook);
    var newest :| IsNewest(t, ids, KEPT, newest) && after == Trimmed(t, a.webhook, newest);
    NewestAmong(t, ids, newest);
    KeptIds(before, id, a, newest);
    assert IdsOf(before, a.webhook) == set i | i in before && before[i].webhook == a.webhook;
    if |IdsOf(before, a.webhook)| < 100 {
      AllOf(newest, ids);
      assert after == t;
    }
  }

  lemma NewestAmong(t: Table, ids: set<int>, newest: set<int>)
    requires ids <= t.Keys && IsNewest(t, ids, KEPT, newest)
    ensures newest <= ids && |newest| == (if |ids| < 100 then |ids| else 100)
    ensures forall i, j | i in newest && j in ids && j !in newest :: t[j].at <= t[i].at
  {
  }

  lemma KeptIds(before: Table, id: int, a: Attempt, newest: set<int>)
    requires id !in before && newest <= IdsOf(before[id := a], a.webhook)
    ensures |IdsOf(before[id := a], a.webhook)| == |IdsOf(before, a.webhook)| + 1
    ensures var after := Trimmed(before[id := a], a.webhook, newest);
            newest == set i | i in after && after[i].webhook == a.webhook
  {
    assert IdsOf(before[id := a], a.webhook) == IdsOf(before, a.webhook) + {id};
  }

  lemma AllOf(s: set<int>, ids: set<int>)
    requires s <= ids && |s| == |ids|
    ensures s == ids
  {
    assert ids == s + (ids - s);
  }

  lemma TimesAfterInsert(before: Table, id: int, a: Attempt)
    requires id !in before
    ensures TimesOf(before[id := a], a.webhook) == TimesOf(before, a.webhook) + multiset{a.at}
  {
    hide Times;
    var t := before[id := a];
    var ids := IdsOf(t, a.webhook);
    TimesPick(t, ids, id);
    assert ids - {id} == IdsOf(before, a.webhook);
    TimesSame(t, before, IdsOf(before, a.webhook));
  }

  lemma OtherTimesUnchanged(before: Table, id: int, a: Attempt, after: Table, webhook: string)
    requires Inserted(before, id, a, after) && webhook != a.webhook
    ensures TimesOf(after, webhook) == TimesOf(before, webhook)
  {
    InsertKeepsNewest(before, id, a, after);
    assert IdsOf(after, webhook) == IdsOf(before, webhook) by {
      var newest :| after == Trimmed(before[id := a], a.webhook, newest);
    }
    TimesSame(after, before, IdsOf(after, webhook));
  }

  /** A run of inserts: one table per prefix, ids drawn anyhow, ties broken anyhow. */
  ghost predicate IsRun(attempts: seq<Attempt>, tables: seq<Table>, ids: seq<int>) {
    && |tables| == |attempts| + 1 && |ids| == |attempts|
    && tables[0] == map[]
    && forall n | 0 <= n < |attempts| :: Inserted(tables[n], ids[n], attempts[n], tables[n + 1])
  }

  /** Every attempt time of a webhook, trimmed never. */
  function AllTimes(attempts: seq<Attempt>, webhook: string): multiset<int> {
    if attempts == [] then multiset{}
    else
      var last := attempts[|attempts| - 1];
      AllTimes(attempts[..|attempts| - 1], webhook) + if last.webhook == webhook then multiset{last.at} else multiset{}
  }

  function AttemptsAt(attempts: seq<Attempt>, webhook: string, at: int): set<int> {
    set n | 0 <= n < |attempts| && attempts[n].webhook == webhook && attempts[n].at == at
  }

  /** Every attempt of the webhook at a time counts once. */
  lemma {:induction false} AllTimesAreCounted(attempts: seq<Attempt>, webhook: string, at: int)
    ensures AllTimes(attempts, webhook)[at] == |AttemptsAt(attempts, webhook, at)|
  {
    if attempts != [] {
      var n := |attempts| - 1;
      AllTimesAreCounted(attempts[..n], webhook, at);
      LastAttemptAt(attempts, webhook, at);
      hide AttemptsAt;
    }
  }

  lemma LastAttemptAt(attempts: seq<Attempt>, webhook: string, at: int)
    requires attempts != []
    ensures var n := |attempts| - 1; var before := AttemptsAt(attempts[..n], webhook, at);
            |AttemptsAt(attempts, webhook, at)| ==
              |before| + if attempts[n].webhook == webhook && attempts[n].at == at then 1 else 0
  {
    var n := |attempts| - 1;
    var before, all := AttemptsAt(attempts[..n], webhook, at), AttemptsAt(attempts, webhook, at);
    assert forall i | 0 <= i < n :: attempts[..n][i] == attempts[i];
    assert all - {n} == before;
    if n in all { assert all == before + {n}; }
  }

  /** An attempt's own time, or a newer one, is among the newest hundred. */
  lemma NoNewestIsMissing(all: multiset<int>, top: multiset<int>, at: int)
    requires IsTop(KEPT, all, top) && all[at] > 0
    ensures exists x | x in top :: x >= at
  {
    if top[at] == 0 {
      assert all == multiset{at} + (all - multiset{at});
      assert top != multiset{};
      var x := Excess(top, multiset{});
      assert top[x] > 0 && all[at] > top[at];
    }
  }

  /** After any run, each webhook holds exactly the hundred newest times of all its
      attempts: trimming after every insert is trimming the full log once. */
  lemma {:induction false} RunHoldsTheNewest(attempts: seq<Attempt>, tables: seq<Table>, ids: seq<int>, webhook: string)
    requires IsRun(attempts, tables, ids)
    ensures IsTop(KEPT, AllTimes(attempts, webhook), TimesOf(tables[|attempts|], webhook))
    decreases |attempts|
  {
    var n := |attempts| - 1;
    if n >= 0 {
      hide Times, IsTop;
      assert IsRun(attempts[..n], tables[..n + 1], ids[..n]) by {
        forall k | 0 <= k < n
          ensures Inserted(tables[..n + 1][k], ids[..n][k], attempts[..n][k], tables[..n + 1][k + 1])
        {
          assert Inserted(tables[k], ids[k], attempts[k], tables[k + 1]);
        }
      }
      RunHoldsTheNewest(attempts[..n], tables[..n + 1], ids[..n], webhook);
      assert Inserted(tables[n], ids[n], attempts[n], tables[n + 1]);
      InsertKeepsNewest(tables[n], ids[n], attempts[n], tables[n + 1]);
      if attempts[n].webhook == webhook {
        TopIsIncremental(KEPT, AllTimes(attempts[..n], webhook), TimesOf(tables[n], webhook), attempts[n].at,
          TimesOf(tables[n + 1], webhook));
      } else {
        OtherTimesUnchanged(tables[n], ids[n], attempts[n], tables[n + 1], webhook);
        assert AllTimes(attempts, webhook) == AllTimes(attempts[..n], webhook);
      }
    }
  }

  /** Two runs of the same attempts agree on every webhook's times, however ties fell. */
  lemma TiesNeverShowInTheTimes(attempts: seq<Attempt>, t1: seq<Table>, ids1: seq<int>, t2: seq<Table>, ids2: seq<int>,
      webhook: string)
    requires IsRun(attempts, t1, ids1) && IsRun(attempts, t2, ids2)
    ensures TimesOf(t1[|attempts|], webhook) == TimesOf(t2[|attempts|], webhook)
  {
    RunHoldsTheNewest(attempts, t1, ids1, webhook);
    RunHoldsTheNewest(attempts, t2, ids2, webhook);
    TopIsUnique(KEPT, AllTimes(attempts, webhook), TimesOf(t1[|attempts|], webhook), TimesOf(t2[|attempts|], webhook));
  }

  // ---------------------------------------------------------------- runs of one database

  /** The database's answers to the query inside the trim, whatever decides its ties. */
  type Choice = (Table, string) -> set<int>

  ghost predicate Answers(choose: Choice) {
    forall t, webhook :: IsNewest(t, IdsOf(t, webhook), KEPT, choose(t, webhook))
  }

  datatype Log = Log(rows: Table, nextId: int)

  function Logged(choose: Choice, log: Log, a: Attempt): Log {
    var t := log.rows[log.nextId := a];
    Log(Trimmed(t, a.webhook, choose(t, a.webhook)), log.nextId + 1)
  }

  function AfterAttempts(choose: Choice, attempts: seq<Attempt>): Log {
    if attempts == [] then Log(map[], 1) else Logged(choose, AfterAttempts(choose, attempts[..|attempts| - 1]),
      attempts[|attempts| - 1])
  }

  lemma {:induction false} AttemptsHoldTheNewest(choose: Choice, attempts: seq<Attempt>, webhook: string)
    requires Answers(choose)
    ensures IsTop(KEPT, AllTimes(attempts, webhook), TimesOf(AfterAttempts(choose, attempts).rows, webhook))
    ensures forall i | i in AfterAttempts(choose, attempts).rows :: i < AfterAttempts(choose, attempts).nextId
  {
    hide Times, IsTop, IsNewest;
    if attempts == [] {
      NothingIsTop(webhook);
    } else {
      var n := |attempts| - 1;
      var before, a := AfterAttempts(choose, attempts[..n]), attempts[n];
      var after := AfterAttempts(choose, attempts);
      AttemptsHoldTheNewest(choose, attempts[..n], webhook);
      var t := before.rows[before.nextId := a];
      assert IsNewest(t, IdsOf(t, a.webhook), KEPT, choose(t, a.webhook));
      assert Inserted(before.rows, before.nextId, a, after.rows);
      if a.webhook == webhook {
        InsertKeepsNewest(before.rows, before.nextId, a, after.rows);
        TopIsIncremental(KEPT, AllTimes(attempts[..n], webhook), TimesOf(before.rows, webhook), a.at,
          TimesOf(after.rows, webhook));
      } else {
        OtherTimesUnchanged(before.rows, before.nextId, a, after.rows, webhook);
        assert AllTimes(attempts, webhook) == AllTimes(attempts[..n], webhook);
      }
    }
  }

  /** Every attempt of a run, or one of the same webhook at least as new, is in the log. */
  lemma {:induction false} NewestIsLogged(choose: Choice, attempts: seq<Attempt>, a: Attempt)
    requires Answers(choose) && a in attempts
    ensures var t := AfterAttempts(choose, attempts).rows;
            exists i | i in t :: t[i].webhook == a.webhook && t[i].at >= a.at
  {
    hide IsTop, AfterAttempts, Answers;
    var t := AfterAttempts(choose, attempts).rows;
    var n :| 0 <= n < |attempts| && attempts[n] == a;
    AttemptsHoldTheNewest(choose, attempts, a.webhook);
    AllTimesAreCounted(attempts, a.webhook, a.at);
    assert n in AttemptsAt(attempts, a.webhook, a.at);
    NoNewestIsMissing(AllTimes(attempts, a.webhook), TimesOf(t, a.webhook), a.at);
    var x :| x in TimesOf(t, a.webhook) && x >= a.at;
    var i := TimesMember(t, IdsOf(t, a.webhook), x);
  }

  lemma NothingIsTop(webhook: string)
    ensures IsTop(KEPT, multiset{}, TimesOf(map[], webhook))
  {
  }

  ghost function SomeNewest(t: Table, webhook: string): (newest: set<int>)
    ensures IsNewest(t, IdsOf(t, webhook), KEPT, newest)
  {
    NewestIsThere(t, webhook);
    var newest :| IsNewest(t, IdsOf(t, webhook), KEPT, newest);
    newest
  }

  /** There is such a database. */
  lemma AnswersExist() returns (choose: Choice)
    ensures Answers(choose)
  {
    choose := (t, webhook) => SomeNewest(t, webhook);
  }

  lemma NewestIsThere(t: Table, webhook: string)
    ensures exists newest :: IsNewest(t, IdsOf(t, webhook), KEPT, newest)
  {
    var newest := NewestExists(t, IdsOf(t, webhook), KEPT);
  }
}
