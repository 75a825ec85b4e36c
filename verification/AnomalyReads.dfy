/** The three readers of the anomaly table, what each account may see through them, and the
    paging of the event list. A query's ORDER BY leaves equal times in any order, so the
    results are relations: every answer the database may give. */
module AnomalyReads {
  import opened Prelude
  import opened Collections

  const GLOBAL_LIMIT: nat := 100
  const OWN_LIMIT: nat := 50

  datatype Key = Key(anomalyType: string, sourceRef: string)
  datatype Row = Row(at: int, severity: string, message: string, owner: Option<string>)
  type Table = map<Key, Row>

  predicate VisibleTo(r: Row, user: string) {
    r.owner.None? || r.owner == Some(user)
  }

  /** The rows that are global or the caller's own. */
  function View(t: Table, user: string): Table {
    map k | k in t && VisibleTo(t[k], user) :: t[k]
  }

  // ---------------------------------------------------------------- queries

  datatype Filter = Filter(since: int, anomalyType: Option<string>, severity: Option<string>)

  predicate Passes(k: Key, r: Row, f: Filter) {
    && r.at > f.since
    && (f.anomalyType.None? || f.anomalyType.value == k.anomalyType)
    && (f.severity.None? || f.severity.value == r.severity)
  }

  function Matching(t: Table, user: string, f: Filter): set<Key> {
    set k | k in t && VisibleTo(t[k], user) && Passes(k, t[k], f)
  }

  function Globals(t: Table): set<Key> {
    set k | k in t && t[k].owner.None?
  }

  function OwnedBy(t: Table, user: string): set<Key> {
    set k | k in t && t[k].owner == Some(user)
  }

  /** An answer to "these rows, newest first". */
  ghost predicate IsOrdered(t: Table, s: set<Key>, o: seq<Key>)
    requires s <= t.Keys
  {
    && (forall k :: k in o <==> k in s)
    && (forall i, j | 0 <= i < j < |o| :: o[i] != o[j])
    && (forall i, j | 0 <= i < j < |o| :: o[i] in s && o[j] in s ==> t[o[i]].at >= t[o[j]].at)
  }

  function Min(a: nat, b: nat): nat {
    if a < b then a else b
  }

  function Offset(pages: nat, size: nat): nat {
    pages * size
  }

  /** How many pages of `size` list `total` rows. */
  function PageCount(total: nat, size: nat): nat
    requires size > 0
  {
    (total + size - 1) / size
  }

  /** LIMIT `size` OFFSET by whole pages; pages below 1 read as the first. */
  function Page(o: seq<Key>, page: int, size: nat): seq<Key> {
    var offset := Offset(if page < 1 then 0 else page - 1, size);
    o[Min(offset, |o|)..Min(offset + size, |o|)]
  }

  /** get_events_page: the page, the total, and the filtered rows behind both. */
  ghost predicate IsEventsPage(t: Table, user: string, f: Filter, page: int, size: nat, rows: seq<Key>, total: nat) {
    && total == |Matching(t, user, f)|
    && exists o :: IsOrdered(t, Matching(t, user, f), o) && rows == Page(o, page, size)
  }

  datatype Labelled = Labelled(key: Key, own: bool)

  /** The two windows taken together and ordered, given how the database ordered each. */
  ghost predicate IsMerged(t: Table, g: seq<Key>, o: seq<Key>, result: seq<Labelled>) {
    && (forall x :: x in result <==> x.key in if x.own then o[..Min(OWN_LIMIT, |o|)] else g[..Min(GLOBAL_LIMIT, |g|)])
    && (forall i, j | 0 <= i < j < |result| :: result[i] != result[j])
    && (forall i, j | 0 <= i < j < |result| :: result[i].key in t && result[j].key in t ==>
       t[result[i].key].at >= t[result[j].key].at)
  }

  /** get_anomalies_recent: globals and own rows windowed apart, then ordered together. */
  ghost predicate IsRecent(t: Table, user: string, result: seq<Labelled>) {
    exists g, o :: IsOrdered(t, Globals(t), g) && IsOrdered(t, OwnedBy(t, user), o) && IsMerged(t, g, o, result)
  }

  /** The anomaly count on the Reports card. */
  function ReportCount(t: Table, user: string, cutoff: int): nat {
    |set k | k in t && t[k].at > cutoff && VisibleTo(t[k], user)|
  }

  // ---------------------------------------------------------------- what a caller can learn

  lemma OrderedInView(t: Table, user: string, s: set<Key>, o: seq<Key>)
    requires s <= View(t, user).Keys
    ensures IsOrdered(t, s, o) <==> IsOrdered(View(t, user), s, o)
  {
  }

  lemma SetsInView(t: Table, user: string, f: Filter)
    ensures Matching(View(t, user), user, f) == Matching(t, user, f) <= View(t, user).Keys
    ensures Globals(View(t, user)) == Globals(t) <= View(t, user).Keys
    ensures OwnedBy(View(t, user), user) == OwnedBy(t, user) <= View(t, user).Keys
  {
  }

  lemma EventsPageInView(t: Table, user: string, f: Filter, page: int, size: nat,
      rows: seq<Key>, total: nat)
    ensures IsEventsPage(t, user, f, page, size, rows, total) <==>
        IsEventsPage(View(t, user), user, f, page, size, rows, total)
  {
    SetsInView(t, user, f);
    forall o
      ensures IsOrdered(t, Matching(t, user, f), o) <==> IsOrdered(View(t, user), Matching(t, user, f), o)
    {
      OrderedInView(t, user, Matching(t, user, f), o);
    }
  }

  lemma RecentInView(t: Table, user: string, result: seq<Labelled>)
    ensures IsRecent(t, user, result) <==> IsRecent(View(t, user), user, result)
  {
    var v := View(t, user);
    SetsInView(t, user, Filter(0, None, None));
    forall g, o
      ensures IsOrdered(t, Globals(t), g) && IsOrdered(t, OwnedBy(t, user), o) && IsMerged(t, g, o, result)
              <==> IsOrdered(v, Globals(v), g) && IsOrdered(v, OwnedBy(v, user), o) && IsMerged(v, g, o, result)
    {
      OrderedInView(t, user, Globals(t), g);
      OrderedInView(t, user, OwnedBy(t, user), o);
      if IsOrdered(t, Globals(t), g) && IsOrdered(t, OwnedBy(t, user), o) { MergedInView(t, user, g, o, result); }
    }
  }

  lemma MergedInView(t: Table, user: string, g: seq<Key>, o: seq<Key>, result: seq<Labelled>)
    requires IsOrdered(t, Globals(t), g) && IsOrdered(t, OwnedBy(t, user), o)
    ensures IsMerged(t, g, o, result) <==> IsMerged(View(t, user), g, o, result)
  {
    var v := View(t, user);
    if forall x :: x in result <==> x.key in if x.own then o[..Min(OWN_LIMIT, |o|)] else g[..Min(GLOBAL_LIMIT, |g|)] {
      forall x | x in result
        ensures x.key in v && x.key in t && v[x.key] == t[x.key]
      {
        assert x.key in if x.own then o else g;
      }
    }
  }

  /** Two tables that agree on the global rows and the caller's own give all three readers
      the same answers, so nothing another account's rules raised can reach the caller. */
  lemma ReadersSeeOnlyTheCallersRows(t: Table, u: Table, user: string, f: Filter, page: int, size: nat,
                                     rows: seq<Key>, total: nat, result: seq<Labelled>)
    requires View(t, user) == View(u, user)
    ensures IsEventsPage(t, user, f, page, size, rows, total) <==> IsEventsPage(u, user, f, page, size, rows, total)
    ensures IsRecent(t, user, result) <==> IsRecent(u, user, result)
    ensures ReportCount(t, user, f.since) == ReportCount(u, user, f.since)
  {
    hide IsEventsPage, IsRecent, ReportCount, View;
    EventsPageInView(t, user, f, page, size, rows, total);
    EventsPageInView(u, user, f, page, size, rows, total);
    RecentInView(t, user, result);
    RecentInView(u, user, result);
    CountInView(t, user, f.since);
    CountInView(u, user, f.since);
  }

  lemma CountInView(t: Table, user: string, cutoff: int)
    ensures ReportCount(t, user, cutoff) == ReportCount(View(t, user), user, cutoff)
  {
    var v := View(t, user);
    assert (set k | k in t && t[k].at > cutoff && VisibleTo(t[k], user)) ==
      (set k | k in v && v[k].at > cutoff && VisibleTo(v[k], user));
  }

  // ---------------------------------------------------------------- on the rows themselves

  /** What the event list may show: the row is nobody's or the caller's own, after the
      cutoff, of the type and severity asked for. */
  lemma MatchingExactly(t: Table, user: string, f: Filter, k: Key)
    ensures k in Matching(t, user, f) <==>
            && k in t && (t[k].owner == None || t[k].owner == Some(user)) && t[k].at > f.since
            && (f.anomalyType == None || f.anomalyType == Some(k.anomalyType))
            && (f.severity == None || f.severity == Some(t[k].severity))
  {
  }

  /** Every row of an events page is one the caller may see and asked for, no row is on it
      twice, the newest come first, and the total counts exactly those rows. */
  lemma {:induction false} EventsPageHoldsOnly(t: Table, user: string, f: Filter, page: int, size: nat,
      rows: seq<Key>, total: nat)
    requires IsEventsPage(t, user, f, page, size, rows, total)
    ensures forall k | k in rows ::
              && k in t && (t[k].owner == None || t[k].owner == Some(user)) && t[k].at > f.since
              && (f.anomalyType == None || f.anomalyType == Some(k.anomalyType))
              && (f.severity == None || f.severity == Some(t[k].severity))
    ensures |rows| <= size && forall i, j | 0 <= i < j < |rows| :: rows[i] != rows[j]
    ensures forall i, j | 0 <= i < j < |rows| && rows[i] in t && rows[j] in t :: t[rows[i]].at >= t[rows[j]].at
    ensures total == |set k | k in t && (t[k].owner == None || t[k].owner == Some(user)) && t[k].at > f.since
                && (f.anomalyType == None || f.anomalyType == Some(k.anomalyType))
                && (f.severity == None || f.severity == Some(t[k].severity))|
  {
    var s := Matching(t, user, f);
    MatchingIsASet(t, user, f);
    var o :| IsOrdered(t, s, o) && rows == Page(o, page, size);
    hide Matching, Offset;
    forall k | k in rows
      ensures k in s
    {
      assert k in o;
    }
    forall k | k in rows
      ensures && k in t && (t[k].owner == None || t[k].owner == Some(user)) && t[k].at > f.since
              && (f.anomalyType == None || f.anomalyType == Some(k.anomalyType))
              && (f.severity == None || f.severity == Some(t[k].severity))
    {
      MatchingExactly(t, user, f, k);
    }
  }

  lemma MatchingIsASet(t: Table, user: string, f: Filter)
    ensures Matching(t, user, f) ==
            set k | k in t && (t[k].owner == None || t[k].owner == Some(user)) && t[k].at > f.since
              && (f.anomalyType == None || f.anomalyType == Some(k.anomalyType))
              && (f.severity == None || f.severity == Some(t[k].severity))
  {
  }

  /** The recent feed holds rows of nobody as global and the caller's own as own, and of each
      kind as many as its window lets through. */
  lemma RecentHoldsOnly(t: Table, user: string, result: seq<Labelled>, x: Labelled)
    requires IsRecent(t, user, result) && x in result
    ensures x.key in t && t[x.key].owner == if x.own then Some(user) else None
  {
    var g, o :| IsOrdered(t, Globals(t), g) && IsOrdered(t, OwnedBy(t, user), o) && IsMerged(t, g, o, result);
    assert x.key in if x.own then o[..Min(OWN_LIMIT, |o|)] else g[..Min(GLOBAL_LIMIT, |g|)];
    assert x.own ==> x.key in o;
    assert !x.own ==> x.key in g;
  }

  /** A row that may be shown is shown unless its window is full of rows at least as new. */
  lemma {:induction false} RecentLeavesOutOnly(t: Table, user: string, result: seq<Labelled>, k: Key, own: bool)
    requires IsRecent(t, user, result) && k in t && t[k].owner == if own then Some(user) else None
    requires Labelled(k, own) !in result
    ensures exists newer: set<Key> ::
              && |newer| == (if own then 50 else 100)
              && forall n | n in newer :: Labelled(n, own) in result && n in t && t[n].at >= t[k].at
  {
    var g, o :| IsOrdered(t, Globals(t), g) && IsOrdered(t, OwnedBy(t, user), o) && IsMerged(t, g, o, result);
    if own {
      LeftOutOfWindow(t, OwnedBy(t, user), o, OWN_LIMIT, k);
    } else {
      LeftOutOfWindow(t, Globals(t), g, GLOBAL_LIMIT, k);
    }
    var w := if own then o else g;
    var limit := if own then OWN_LIMIT else GLOBAL_LIMIT;
    var newer := Members(w[..limit]);
    hide IsOrdered, Globals, OwnedBy;
    forall n | n in newer
      ensures Labelled(n, own) in result
    {
      assert n in w[..Min(limit, |w|)];
    }
  }

  lemma LeftOutOfWindow(t: Table, s: set<Key>, o: seq<Key>, limit: nat, k: Key)
    requires s <= t.Keys && IsOrdered(t, s, o) && k in s && k !in o[..Min(limit, |o|)]
    ensures |o| > limit && |Members(o[..limit])| == limit
    ensures forall n | n in Members(o[..limit]) :: n in t && t[n].at >= t[k].at
  {
    var i :| 0 <= i < |o| && o[i] == k;
    assert o[..|o|] == o;
    assert forall j | 0 <= j < Min(limit, |o|) :: o[..Min(limit, |o|)][j] == o[j];
    DistinctSize(o[..limit]);
    forall n | n in Members(o[..limit])
      ensures n in t && t[n].at >= t[k].at
    {
      var j :| 0 <= j < limit && o[j] == n;
      assert o[j] in s && o[i] in s;
    }
  }

  /** The report counts exactly the rows after the cutoff that are nobody's or the caller's. */
  lemma ReportCountsExactly(t: Table, user: string, cutoff: int)
    ensures ReportCount(t, user, cutoff) ==
            |set k | k in t && t[k].at > cutoff && (t[k].owner == None || t[k].owner == Some(user))|
  {
    assert (set k | k in t && t[k].at > cutoff && VisibleTo(t[k], user)) ==
      set k | k in t && t[k].at > cutoff && (t[k].owner == None || t[k].owner == Some(user));
  }

  /** The row belongs to some other account. */
  predicate IsAnothers(r: Row, user: string) {
    r.owner != None && r.owner != Some(user)
  }

  lemma SameView(t: Table, u: Table, user: string)
    requires forall k | k in t && (t[k].owner == None || t[k].owner == Some(user)) :: k in u && u[k] == t[k]
    requires forall k | k in u && (u[k].owner == None || u[k].owner == Some(user)) :: k in t && t[k] == u[k]
    ensures View(t, user) == View(u, user)
  {
  }

  /** Whatever is done to the rows of other accounts, added, changed, handed on or deleted, no
      answer of any reader to the caller changes. */
  lemma {:induction false} OtherAccountsRowsNeverShow(t: Table, u: Table, user: string, f: Filter, page: int, size: nat,
      rows: seq<Key>, total: nat, result: seq<Labelled>)
    requires forall k | k in t && !IsAnothers(t[k], user) :: k in u && u[k] == t[k]
    requires forall k | k in u && !IsAnothers(u[k], user) :: k in t && t[k] == u[k]
    ensures IsEventsPage(t, user, f, page, size, rows, total) <==> IsEventsPage(u, user, f, page, size, rows, total)
    ensures IsRecent(t, user, result) <==> IsRecent(u, user, result)
    ensures ReportCount(t, user, f.since) == ReportCount(u, user, f.since)
  {
    SameView(t, u, user);
    hide IsEventsPage, IsRecent, ReportCount, View;
    ReadersSeeOnlyTheCallersRows(t, u, user, f, page, size, rows, total, result);
  }

  /** The global rows of an answer. */
  function GlobalPart(result: seq<Labelled>): set<Key> {
    set x | x in result && !x.own :: x.key
  }

  // ---- an order always exists

  ghost predicate IsDescending<T(!new)>(s: set<T>, o: seq<T>, at: T -> int) {
    && (forall x :: x in o <==> x in s)
    && (forall i, j | 0 <= i < j < |o| :: o[i] != o[j] && at(o[i]) >= at(o[j]))
  }

  lemma {:induction false} Latest<T>(s: set<T>, at: T -> int) returns (m: T)
    requires s != {}
    ensures m in s && forall x | x in s :: at(x) <= at(m)
    decreases |s|
  {
    m := Pick(s);
    if s != {m} {
      var k := Latest(s - {m}, at);
      if at(k) > at(m) { m := k; }
    }
  }

  lemma {:induction false} Descending<T(!new)>(s: set<T>, at: T -> int) returns (o: seq<T>)
    ensures IsDescending(s, o, at)
    decreases |s|
  {
    if s == {} {
      o := [];
    } else {
      var m := Latest(s, at);
      var rest := Descending(s - {m}, at);
      o := [m] + rest;
    }
  }

  /** The detection time of a row; any number where there is none. */
  function TimeOf(t: Table, k: Key): int {
    if k in t then t[k].at else 0
  }

  lemma SomeOrder(t: Table, s: set<Key>) returns (o: seq<Key>)
    requires s <= t.Keys
    ensures IsOrdered(t, s, o)
  {
    o := Descending(s, k => TimeOf(t, k));
  }

  lemma SomeMerge(t: Table, g: seq<Key>, o: seq<Key>) returns (result: seq<Labelled>)
    ensures IsMerged(t, g, o, result)
  {
    var globals := set k | k in g[..Min(GLOBAL_LIMIT, |g|)] :: Labelled(k, false);
    var own := set k | k in o[..Min(OWN_LIMIT, |o|)] :: Labelled(k, true);
    result := Descending(globals + own, (x: Labelled) => TimeOf(t, x.key));
    forall x: Labelled
      ensures x in globals + own <==> x.key in if x.own then o[..Min(OWN_LIMIT, |o|)] else g[..Min(GLOBAL_LIMIT, |g|)]
    {
    }
  }

  /** The same global rows, whatever else the tables hold. */
  predicate SameGlobals(t: Table, u: Table) {
    Globals(t) == Globals(u) && forall k | k in Globals(t) :: t[k] == u[k]
  }

  lemma GlobalOrderCarries(t: Table, u: Table, g: seq<Key>)
    requires SameGlobals(t, u) && IsOrdered(t, Globals(t), g)
    ensures IsOrdered(u, Globals(u), g)
  {
  }

  lemma MergedGlobals(t: Table, g: seq<Key>, o: seq<Key>, result: seq<Labelled>, k: Key)
    requires IsMerged(t, g, o, result)
    ensures k in GlobalPart(result) <==> k in g[..Min(GLOBAL_LIMIT, |g|)]
  {
    assert Labelled(k, false) in result <==> k in g[..Min(GLOBAL_LIMIT, |g|)];
  }

  /** Owned rows never push a global row out of the feed, nor let one in. Change the owned
      rows of the table in any way and ask as any caller: every answer to the first question
      has an answer to the second with the same global rows. */
  lemma {:induction false} OwnedRowsNeverStarveGlobalOnes(t: Table, u: Table, a: string, b: string,
      result: seq<Labelled>) returns (other: seq<Labelled>)
    requires SameGlobals(t, u) && IsRecent(t, a, result)
    ensures IsRecent(u, b, other) && GlobalPart(other) == GlobalPart(result)
  {
    hide IsOrdered, IsMerged, GlobalPart, Globals, OwnedBy;
    WindowsAreRows(t, a);
    WindowsAreRows(u, b);
    var g, o :| IsOrdered(t, Globals(t), g) && IsOrdered(t, OwnedBy(t, a), o) && IsMerged(t, g, o, result);
    GlobalOrderCarries(t, u, g);
    var p := SomeOrder(u, OwnedBy(u, b));
    other := SomeMerge(u, g, p);
    forall k
      ensures k in GlobalPart(other) <==> k in GlobalPart(result)
    {
      MergedGlobals(t, g, o, result, k);
      MergedGlobals(u, g, p, other, k);
    }
  }

  lemma WindowsAreRows(t: Table, user: string)
    ensures OwnedBy(t, user) <= t.Keys && Globals(t) <= t.Keys
  {
  }

  // ---------------------------------------------------------------- paging

  predicate TimesDistinct(t: Table, s: set<Key>)
    requires s <= t.Keys
  {
    forall a, b | a in s && b in s && a != b :: t[a].at != t[b].at
  }

  /** Distinct times leave the database one order only. */
  lemma {:induction false} OrderIsUnique(t: Table, s: set<Key>, a: seq<Key>, b: seq<Key>)
    requires s <= t.Keys && TimesDistinct(t, s) && IsOrdered(t, s, a) && IsOrdered(t, s, b)
    ensures a == b
    decreases |a|
  {
    OrderedSize(t, s, a);
    OrderedSize(t, s, b);
    if a != [] {
      hide IsOrdered;
      NewestLeads(t, s, a);
      NewestLeads(t, s, b);
      TailIsOrdered(t, s, a);
      TailIsOrdered(t, s, b);
      OrderIsUnique(t, s - {a[0]}, a[1..], b[1..]);
      assert a == [a[0]] + a[1..] && b == [b[0]] + b[1..];
    }
  }

  lemma NewestLeads(t: Table, s: set<Key>, o: seq<Key>)
    requires s <= t.Keys && TimesDistinct(t, s) && IsOrdered(t, s, o) && o != []
    ensures o[0] in s && forall k | k in s && k != o[0] :: t[k].at < t[o[0]].at
  {
  }

  lemma TailIsOrdered(t: Table, s: set<Key>, o: seq<Key>)
    requires s <= t.Keys && o != [] && IsOrdered(t, s, o)
    ensures IsOrdered(t, s - {o[0]}, o[1..])
  {
  }

  lemma {:induction false} OrderedSize(t: Table, s: set<Key>, o: seq<Key>)
    requires s <= t.Keys && IsOrdered(t, s, o)
    ensures |o| == |s|
    decreases |o|
  {
    if o == [] {
      assert s == {} || Pick(s) in s;
    } else {
      assert o[0] in s;
      TailIsOrdered(t, s, o);
      OrderedSize(t, s - {o[0]}, o[1..]);
    }
  }

  function Flatten(pages: seq<seq<Key>>): seq<Key> {
    if pages == [] then [] else Flatten(pages[..|pages| - 1]) + pages[|pages| - 1]
  }

  lemma {:induction false} PagesTileTheOrder(o: seq<Key>, pages: seq<seq<Key>>, size: nat)
    requires size > 0 && forall p | 0 <= p < |pages| :: pages[p] == Page(o, p + 1, size)
    ensures Flatten(pages) == o[..Min(Offset(|pages|, size), |o|)]
  {
    hide Offset;
    OffsetSteps(0, size);
    if pages != [] {
      var n := |pages| - 1;
      PagesTileTheOrder(o, pages[..n], size);
      OffsetSteps(n, size);
      SliceJoin(o, Offset(n, size), size);
    }
  }

  lemma OffsetSteps(n: nat, size: nat)
    ensures Offset(0, size) == 0 && Offset(n + 1, size) == Offset(n, size) + size
  {
  }

  lemma SliceJoin(o: seq<Key>, a: nat, size: nat)
    ensures o[..Min(a, |o|)] + o[Min(a, |o|)..Min(a + size, |o|)] == o[..Min(a + size, |o|)]
  {
  }

  /** With distinct times, fetching pages 1 to ceil(total / size), each by its own query,
      lists every matching row exactly once, newest first. */
  lemma {:induction false} PagingListsEverythingOnce(t: Table, user: string, f: Filter, size: nat, pages: seq<seq<Key>>,
      totals: seq<nat>, o: seq<Key>)
    requires TimesDistinct(t, Matching(t, user, f)) && size > 0 && |pages| == |totals|
    requires forall p | 0 <= p < |pages| :: IsEventsPage(t, user, f, p + 1, size, pages[p], totals[p])
    requires |pages| == PageCount(|Matching(t, user, f)|, size)
    requires IsOrdered(t, Matching(t, user, f), o)
    ensures Flatten(pages) == o
    ensures forall p | 0 <= p < |pages| :: totals[p] == |o|
  {
    hide Offset, Page, PageCount, Flatten, IsOrdered;
    var s := Matching(t, user, f);
    OrderedSize(t, s, o);
    forall p | 0 <= p < |pages|
      ensures pages[p] == Page(o, p + 1, size) && totals[p] == |o|
    {
      var own :| IsOrdered(t, s, own) && pages[p] == Page(own, p + 1, size);
      OrderIsUnique(t, s, own, o);
    }
    PagesMakeTheOrder(o, size, pages);
  }

  lemma CeilingCovers(n: nat, size: nat)
    requires size > 0
    ensures Offset(PageCount(n, size), size) >= n
  {
  }

  /** Some page boundary of the order falls between two rows of equal time. */
  ghost predicate SplitsATie(t: Table, o: seq<Key>, size: nat)
    requires forall k | k in o :: k in t
  {
    exists p: nat :: 0 < Offset(p, size) < |o| && t[o[Offset(p, size) - 1]].at == t[o[Offset(p, size)]].at
  }

  /** Pages 1 to ceil(total / size), each an answer of its own query. */
  ghost predicate ArePages(t: Table, s: set<Key>, size: nat, pages: seq<seq<Key>>)
    requires s <= t.Keys && size > 0
  {
    && |pages| == PageCount(|s|, size)
    && forall p | 0 <= p < |pages| :: exists o :: IsOrdered(t, s, o) && pages[p] == Page(o, p + 1, size)
  }

  /** Equal times are harmless exactly where no page boundary falls inside them: then, and
      only then, every answer the database may give lists every row exactly once. */
  lemma {:induction false} PagingIsExactUnlessATieIsSplit(t: Table, s: set<Key>, size: nat, o: seq<Key>)
    requires s <= t.Keys && size > 0 && IsOrdered(t, s, o)
    ensures (forall pages :: ArePages(t, s, size, pages) ==> multiset(Flatten(pages)) == multiset(s)) <==>
        !SplitsATie(t, o, size)
  {
    if SplitsATie(t, o, size) {
      var p: nat :| 0 < Offset(p, size) < |o| && t[o[Offset(p, size) - 1]].at == t[o[Offset(p, size)]].at;
      var pages := SplitPages(t, s, size, o, p);
    } else {
      forall pages | ArePages(t, s, size, pages)
        ensures multiset(Flatten(pages)) == multiset(s)
      {
        WholePages(t, s, size, o, pages);
      }
    }
  }

  // ---- no boundary inside a tie

  function Members(o: seq<Key>): set<Key> {
    set k | k in o
  }

  predicate Distinct(o: seq<Key>) {
    forall i, j | 0 <= i < j < |o| :: o[i] != o[j]
  }

  lemma {:induction false} DistinctSize(o: seq<Key>)
    requires Distinct(o)
    ensures |Members(o)| == |o| && multiset(o) == multiset(Members(o))
    decreases |o|
  {
    if o != [] {
      FirstMember(o);
      hide Distinct, Members;
      DistinctSize(o[1..]);
      AddMember(Members(o[1..]), o[0]);
      FirstCounted(o);
    } else {
      assert Members(o) == {};
    }
  }

  lemma AddMember(s: set<Key>, k: Key)
    requires k !in s
    ensures |{k} + s| == |s| + 1 && multiset({k} + s) == multiset{k} + multiset(s)
  {
  }

  lemma FirstCounted(o: seq<Key>)
    requires o != []
    ensures multiset(o) == multiset{o[0]} + multiset(o[1..])
  {
    assert o == [o[0]] + o[1..];
  }

  lemma FirstMember(o: seq<Key>)
    requires Distinct(o) && o != []
    ensures Distinct(o[1..]) && Members(o) == {o[0]} + Members(o[1..]) && o[0] !in Members(o[1..])
  {
    assert o == [o[0]] + o[1..];
  }

  lemma SameSizeSame(a: set<Key>, b: set<Key>)
    requires a <= b && |a| == |b|
    ensures a == b
  {
    assert |b - a| == |b| - |a|;
  }

  /** A prefix that ends outside every tie has the same members in every order. */
  lemma PrefixIsDetermined(t: Table, s: set<Key>, a: seq<Key>, b: seq<Key>, n: nat)
    requires s <= t.Keys && IsOrdered(t, s, a) && IsOrdered(t, s, b) && |a| == |b| && n <= |a|
    requires 0 < n < |a| ==> a[n - 1] in t && a[n] in t && t[a[n - 1]].at != t[a[n]].at
    ensures Members(a[..n]) == Members(b[..n])
  {
    forall k | k in b[..n]
      ensures k in a[..n]
    {
      if k !in a[..n] { LateKeyComesLater(t, s, a, b, n, k); }
    }
    DistinctSize(a[..n]);
    DistinctSize(b[..n]);
    SameSizeSame(Members(b[..n]), Members(a[..n]));
  }

  lemma LateKeyComesLater(t: Table, s: set<Key>, a: seq<Key>, b: seq<Key>, n: nat, k: Key)
    requires s <= t.Keys && IsOrdered(t, s, a) && IsOrdered(t, s, b) && n <= |a| == |b|
    requires 0 < n < |a| ==> a[n - 1] in t && a[n] in t && t[a[n - 1]].at != t[a[n]].at
    requires k in s && k !in a[..n]
    ensures k !in b[..n]
  {
    forall m | 0 <= m < n
      ensures a[m] != k
    {
      assert a[..n][m] == a[m];
    }
    var i :| 0 <= i < |a| && a[i] == k;
    forall j | 0 <= j < |b| && b[j] == k
      ensures n <= j
    {
      LatePosition(t, s, a, b, n, i, j);
    }
  }

  lemma LatePosition(t: Table, s: set<Key>, a: seq<Key>, b: seq<Key>, n: nat, i: nat, j: nat)
    requires s <= t.Keys && IsOrdered(t, s, a) && IsOrdered(t, s, b) && |a| == |b| && n <= i < |a| && j < |b|
        && b[j] == a[i]
    requires 0 < n ==> a[n - 1] in t && a[n] in t && t[a[n - 1]].at != t[a[n]].at
    ensures n <= j
  {
    forall x | x in a[..n]
      ensures x in b[..j]
    {
      EarlierInBoth(t, s, a, b, n, i, j, x);
    }
    DistinctSize(a[..n]);
    DistinctSize(b[..j]);
    SubsetSize(Members(a[..n]), Members(b[..j]));
  }

  lemma SubsetSize(a: set<Key>, b: set<Key>)
    requires a <= b
    ensures |a| <= |b|
  {
    assert b == a + (b - a);
  }

  lemma EarlierInBoth(t: Table, s: set<Key>, a: seq<Key>, b: seq<Key>, n: nat, i: nat, j: nat, x: Key)
    requires s <= t.Keys && IsOrdered(t, s, a) && IsOrdered(t, s, b)
    requires 0 < n <= i < |a| && a[n - 1] in t && a[n] in t && t[a[n - 1]].at != t[a[n]].at
    requires j < |b| && b[j] == a[i] && x in a[..n]
    ensures x in b[..j]
  {
  }

  lemma {:induction false} PageIsDetermined(t: Table, s: set<Key>, size: nat, a: seq<Key>, b: seq<Key>, p: nat)
    requires s <= t.Keys && size > 0 && IsOrdered(t, s, a) && IsOrdered(t, s, b) && |a| == |b|
        && !SplitsATie(t, a, size)
    ensures multiset(Page(a, p + 1, size)) == multiset(Page(b, p + 1, size))
  {
    OrderMembers(t, s, a);
    OrderMembers(t, s, b);
    BoundaryIsClear(t, a, size, p);
    BoundaryIsClear(t, a, size, p + 1);
    hide Offset, IsOrdered, SplitsATie, Distinct, Members, Page;
    OffsetSteps(p, size);
    var lo, hi := Min(Offset(p, size), |a|), Min(Offset(p + 1, size), |a|);
    PrefixIsDetermined(t, s, a, b, lo);
    PrefixIsDetermined(t, s, a, b, hi);
    SlicesAgree(a, b, lo, hi);
    PageIsASlice(a, p, size);
    PageIsASlice(b, p, size);
  }

  lemma PageIsASlice(o: seq<Key>, p: nat, size: nat)
    ensures Page(o, p + 1, size) == o[Min(Offset(p, size), |o|)..Min(Offset(p, size) + size, |o|)]
  {
    hide Offset;
  }

  lemma SlicesAgree(a: seq<Key>, b: seq<Key>, lo: nat, hi: nat)
    requires Distinct(a) && Distinct(b) && lo <= hi <= |a| == |b|
    requires Members(a[..lo]) == Members(b[..lo]) && Members(a[..hi]) == Members(b[..hi])
    ensures multiset(a[lo..hi]) == multiset(b[lo..hi])
  {
    hide Distinct, Members;
    SliceMembers(a, lo, hi);
    SliceMembers(b, lo, hi);
  }

  lemma BoundaryIsClear(t: Table, o: seq<Key>, size: nat, p: nat)
    requires (forall k | k in o :: k in t) && !SplitsATie(t, o, size)
    ensures var n := Min(Offset(p, size), |o|); 0 < n < |o| ==> t[o[n - 1]].at != t[o[n]].at
  {
  }

  lemma SliceMembers(o: seq<Key>, lo: nat, hi: nat)
    requires Distinct(o) && lo <= hi <= |o|
    ensures Members(o[lo..hi]) == Members(o[..hi]) - Members(o[..lo])
    ensures multiset(o[lo..hi]) == multiset(Members(o[lo..hi]))
  {
    SliceIsTheRest(o, lo, hi);
    DistinctSlice(o, lo, hi);
    hide Distinct, Members;
    DistinctSize(o[lo..hi]);
  }

  lemma DistinctSlice(o: seq<Key>, lo: nat, hi: nat)
    requires Distinct(o) && lo <= hi <= |o|
    ensures Distinct(o[lo..hi])
  {
  }

  lemma SliceIsTheRest(o: seq<Key>, lo: nat, hi: nat)
    requires Distinct(o) && lo <= hi <= |o|
    ensures Members(o[lo..hi]) == Members(o[..hi]) - Members(o[..lo])
  {
    assert o[..hi] == o[..lo] + o[lo..hi];
    forall k | k in o[lo..hi]
      ensures k !in o[..lo]
    {
      var i :| lo <= i < hi && o[i] == k;
    }
  }

  lemma {:induction false} SameFlattened(a: seq<seq<Key>>, b: seq<seq<Key>>)
    requires |a| == |b| && forall p | 0 <= p < |a| :: multiset(a[p]) == multiset(b[p])
    ensures multiset(Flatten(a)) == multiset(Flatten(b))
  {
    if a != [] {
      var n := |a| - 1;
      SameFlattened(a[..n], b[..n]);
      assert multiset(a[n]) == multiset(b[n]);
    }
  }

  lemma {:induction false} WholePages(t: Table, s: set<Key>, size: nat, o: seq<Key>, pages: seq<seq<Key>>)
    requires s <= t.Keys && size > 0 && IsOrdered(t, s, o) && !SplitsATie(t, o, size) && ArePages(t, s, size, pages)
    ensures multiset(Flatten(pages)) == multiset(s)
  {
    hide IsOrdered, SplitsATie, Page;
    var own := seq(|pages|, p requires 0 <= p < |pages| => Page(o, p + 1, size));
    OrderedSize(t, s, o);
    forall p | 0 <= p < |pages|
      ensures multiset(pages[p]) == multiset(own[p])
    {
      var other :| IsOrdered(t, s, other) && pages[p] == Page(other, p + 1, size);
      OrderedSize(t, s, other);
      PageIsDetermined(t, s, size, o, other, p);
    }
    SameFlattened(pages, own);
    PagesMakeTheOrder(o, size, own);
    OrderMembers(t, s, o);
  }

  lemma {:induction false} PagesMakeTheOrder(o: seq<Key>, size: nat, pages: seq<seq<Key>>)
    requires size > 0 && |pages| == PageCount(|o|, size)
    requires forall p | 0 <= p < |pages| :: pages[p] == Page(o, p + 1, size)
    ensures Flatten(pages) == o
  {
    PagesTileTheOrder(o, pages, size);
    CeilingCovers(|o|, size);
    hide Offset, Page, PageCount, Flatten;
    assert o[..|o|] == o;
  }

  lemma OrderMembers(t: Table, s: set<Key>, o: seq<Key>)
    requires s <= t.Keys && IsOrdered(t, s, o)
    ensures Distinct(o) && Members(o) == s && multiset(o) == multiset(s)
    ensures forall k | k in o :: k in t
  {
    DistinctSize(o);
  }

  // ---- a boundary inside a tie

  lemma SwapTied(t: Table, s: set<Key>, o: seq<Key>, b: nat) returns (swapped: seq<Key>)
    requires s <= t.Keys && IsOrdered(t, s, o) && 0 < b < |o| && o[b - 1] in t && o[b] in t
        && t[o[b - 1]].at == t[o[b]].at
    ensures IsOrdered(t, s, swapped) && |swapped| == |o| && swapped[b] == o[b - 1]
  {
    swapped := o[b - 1 := o[b]][b := o[b - 1]];
    forall k
      ensures k in swapped <==> k in o
    {
      if k in o {
        var i :| 0 <= i < |o| && o[i] == k;
        assert swapped[if i == b then b - 1 else if i == b - 1 then b else i] == k;
      }
    }
  }

  /** The pages before the boundary from one order, those after it from the order with the
      tied neighbours exchanged: the row before the boundary is listed twice. */
  lemma {:induction false} SplitPages(t: Table, s: set<Key>, size: nat, o: seq<Key>, p: nat)
      returns (pages: seq<seq<Key>>)
    requires s <= t.Keys && size > 0 && IsOrdered(t, s, o)
    requires 0 < Offset(p, size) < |o| && t[o[Offset(p, size) - 1]].at == t[o[Offset(p, size)]].at
    ensures ArePages(t, s, size, pages) && multiset(Flatten(pages)) != multiset(s)
  {
    hide Offset, Page, PageCount, Flatten, ArePages;
    var b := Offset(p, size);
    assert o[b - 1] in o && o[b] in o;
    hide IsOrdered;
    var swapped := SwapTied(t, s, o, b);
    var n := PageCount(|s|, size);
    pages := seq(n, i requires 0 <= i < n => Page(if i < p then o else swapped, i + 1, size));
    OrderedSize(t, s, o);
    BoundaryPages(o, swapped, size, p, n);
    CountTwice(pages, p - 1, p, o[b - 1]);
    OnlyOnce(s, o[b - 1]);
    TwoOrdersAnswer(t, s, size, o, swapped, p, pages);
  }

  lemma OnlyOnce(s: set<Key>, k: Key)
    ensures multiset(s)[k] <= 1
  {
  }

  lemma TwoOrdersAnswer(t: Table, s: set<Key>, size: nat, o: seq<Key>, swapped: seq<Key>, p: nat, pages: seq<seq<Key>>)
    requires s <= t.Keys && size > 0 && IsOrdered(t, s, o) && IsOrdered(t, s, swapped)
        && |pages| == PageCount(|s|, size)
    requires forall i | 0 <= i < |pages| :: pages[i] == Page(if i < p then o else swapped, i + 1, size)
    ensures ArePages(t, s, size, pages)
  {
    hide Page, IsOrdered, PageCount;
  }

  lemma BoundaryPages(o: seq<Key>, swapped: seq<Key>, size: nat, p: nat, n: nat)
    requires size > 0 && 0 < Offset(p, size) < |o| == |swapped| && swapped[Offset(p, size)] == o[Offset(p, size) - 1]
    requires n == PageCount(|o|, size)
    ensures 0 < p < n
    ensures o[Offset(p, size) - 1] in Page(o, p, size) && o[Offset(p, size) - 1] in Page(swapped, p + 1, size)
  {
    OffsetSteps(p, size);
    CeilingCovers(|o|, size);
    OffsetSteps(0, size);
    OffsetOrder(n, p, size);
    OffsetSteps(p - 1, size);
    hide Offset;
    var b := Offset(p, size);
    assert Page(o, p, size)[size - 1] == o[b - 1];
    assert Page(swapped, p + 1, size)[0] == swapped[b];
  }

  lemma OffsetOrder(a: nat, b: nat, size: nat)
    ensures a <= b ==> Offset(a, size) <= Offset(b, size)
  {
  }

  lemma {:induction false} CountTwice(pages: seq<seq<Key>>, i: nat, j: nat, k: Key)
    requires i < j < |pages| && k in pages[i] && k in pages[j]
    ensures multiset(Flatten(pages))[k] >= 2
    decreases |pages|
  {
    var n := |pages| - 1;
    if j < n {
      CountTwice(pages[..n], i, j, k);
    } else {
      CountOnce(pages[..n], i, k);
      assert k in multiset(pages[n]);
    }
  }

  lemma {:induction false} CountOnce(pages: seq<seq<Key>>, i: nat, k: Key)
    requires i < |pages| && k in pages[i]
    ensures k in multiset(Flatten(pages))
    decreases |pages|
  {
    var n := |pages| - 1;
    if i < n { CountOnce(pages[..n], i, k); } else { assert k in multiset(pages[n]); }
  }

  /** The smallest instance, over every table with two matching rows of one time: the first
      page and the second may hold the same row. */
  lemma TiesCanRepeatARow(t: Table, user: string, f: Filter, a: Key, b: Key)
    requires a != b && Matching(t, user, f) == {a, b} && t[a].at == t[b].at
    ensures IsEventsPage(t, user, f, 1, 1, [a], 2) && IsEventsPage(t, user, f, 2, 1, [a], 2)
  {
    TiedOrder(t, a, b);
    TiedOrder(t, b, a);
    PagesOfTwo(a, b);
    hide Matching, Page, IsOrdered, IsEventsPage;
    assert {b, a} == {a, b} && |{a, b}| == 2;
    EventsPage(t, user, f, 1, 1, [a, b]);
    EventsPage(t, user, f, 2, 1, [b, a]);
  }

  /** There is such a table. */
  lemma TwoTiedRows(a: Key, b: Key)
    requires a != b
    ensures Matching(map[a := Row(10, [], [], None), b := Row(10, [], [], None)], [], Filter(0, None, None)) == {a, b}
  {
  }

  lemma PagesOfTwo(a: Key, b: Key)
    ensures Page([a, b], 1, 1) == [a] && Page([b, a], 2, 1) == [a]
  {
  }

  lemma EventsPage(t: Table, user: string, f: Filter, page: int, size: nat, o: seq<Key>)
    requires IsOrdered(t, Matching(t, user, f), o)
    ensures IsEventsPage(t, user, f, page, size, Page(o, page, size), |Matching(t, user, f)|)
  {
    hide Matching, Page, IsOrdered;
  }

  lemma TiedOrder(t: Table, a: Key, b: Key)
    requires a in t && b in t && a != b && t[a].at == t[b].at
    ensures IsOrdered(t, {a, b}, [a, b])
  {
  }
}
