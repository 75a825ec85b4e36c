/** The batch writers of the single-source feeds: `dst` and `kp_3h` upsert the whole window,
    `kp` and `xray` first drop everything not newer than the newest stored tag, and
    `starlink` replaces its table by the batch. */
module FeedWriters {
  import opened Prelude
  import opened TextOrder

  // ---------------------------------------------------------------- upserts in general

  datatype Put<K, V> = Put(key: K, value: V)

  /** One ON CONFLICT DO UPDATE statement, run for each record in turn. */
  function Absorb<K, V>(t: map<K, V>, ps: seq<Put<K, V>>, merge: (V, V) -> V): map<K, V> {
    if ps == [] then t
    else
      var before, p := Absorb(t, ps[..|ps| - 1], merge), ps[|ps| - 1];
      before[p.key := if p.key in before then merge(before[p.key], p.value) else p.value]
  }

  /** The values offered for one key, in order. */
  function Offered<K(==), V>(ps: seq<Put<K, V>>, k: K): seq<V> {
    if ps == [] then []
    else Offered(ps[..|ps| - 1], k) + if ps[|ps| - 1].key == k then [ps[|ps| - 1].value] else []
  }

  function Fold<V>(v: V, vs: seq<V>, merge: (V, V) -> V): V {
    if vs == [] then v else merge(Fold(v, vs[..|vs| - 1], merge), vs[|vs| - 1])
  }

  /** The table after a run of upserts, key by key. */
  lemma {:induction false} AbsorbAt<K, V>(t: map<K, V>, ps: seq<Put<K, V>>, merge: (V, V) -> V, k: K)
    ensures k in Absorb(t, ps, merge) <==> k in t || Offered(ps, k) != []
    ensures k in t ==> Absorb(t, ps, merge)[k] == Fold(t[k], Offered(ps, k), merge)
    ensures k !in t && Offered(ps, k) != [] ==>
        Absorb(t, ps, merge)[k] == Fold(Offered(ps, k)[0], Offered(ps, k)[1..], merge)
  {
    if ps != [] {
      var init, p := ps[..|ps| - 1], ps[|ps| - 1];
      AbsorbAt(t, init, merge, k);
      if p.key == k {
        var vs := Offered(init, k);
        assert (vs + [p.value])[..|vs|] == vs;
        if vs != [] {
          assert (vs + [p.value])[1..] == vs[1..] + [p.value];
          assert (vs[1..] + [p.value])[..|vs| - 1] == vs[1..];
        }
      } else {
        assert Offered(ps, k) == Offered(init, k);
      }
    }
  }

  lemma {:induction false} AbsorbAppend<K, V>(t: map<K, V>, ps: seq<Put<K, V>>, qs: seq<Put<K, V>>, merge: (V, V) -> V)
    ensures Absorb(t, ps + qs, merge) == Absorb(Absorb(t, ps, merge), qs, merge)
    decreases |qs|
  {
    if qs == [] {
      assert ps + qs == ps;
    } else {
      var all := ps + qs;
      assert all[..|all| - 1] == ps + qs[..|qs| - 1];
      AbsorbAppend(t, ps, qs[..|qs| - 1], merge);
    }
  }

  lemma {:induction false} OfferedKey<K, V>(ps: seq<Put<K, V>>, k: K)
    ensures Offered(ps, k) != [] <==> exists i | 0 <= i < |ps| :: ps[i].key == k
  {
    if ps != [] {
      var n := |ps| - 1;
      OfferedKey(ps[..n], k);
      if i :| 0 <= i < n && ps[..n][i].key == k { assert ps[i].key == k; }
      if i :| 0 <= i < n && ps[i].key == k { assert ps[..n][i].key == k; }
    }
  }

  function Replace<V>(stored: V, offered: V): V {
    offered
  }

  lemma FoldReplace<V>(v: V, vs: seq<V>)
    ensures Fold(v, vs, Replace) == if vs == [] then v else vs[|vs| - 1]
  {
  }

  /** A transaction that runs the statement for every record; None when one is refused and
      everything is rolled back. */
  method Execute<K, V>(t: map<K, V>, ps: seq<Put<K, V>>, merge: (V, V) -> V, accepted: K -> bool)
      returns (r: Option<map<K, V>>)
    ensures r == if forall i | 0 <= i < |ps| :: accepted(ps[i].key) then Some(Absorb(t, ps, merge)) else None
  {
    var rows := t;
    for i := 0 to |ps|
      invariant forall j | 0 <= j < i :: accepted(ps[j].key)
      invariant rows == Absorb(t, ps[..i], merge)
    {
      if !accepted(ps[i].key) {
        return None;
      }
      assert ps[..i + 1][..i] == ps[..i];
      var p := ps[i];
      rows := rows[p.key := if p.key in rows then merge(rows[p.key], p.value) else p.value];
    }
    assert ps[..|ps|] == ps;
    return Some(rows);
  }

  // ---------------------------------------------------------------- rows

  datatype ValueRow = ValueRow(value: Option<int>, fetchedAt: int)
  datatype KpRow = KpRow(kpIndex: int, estimatedE2: int, fetchedAt: int)
  datatype XrayKey = XrayKey(tag: string, energy: string, satellite: int)
  datatype XrayRow = XrayRow(fluxE12: int, observedFluxE12: int, fetchedAt: int)
  datatype SatId = SatId(norad: int)
  datatype SatRow = SatRow(name: string, line1: string, line2: string, fetchedAt: int)

  /** A revision replaces a stored Kp value only where it is positive. */
  function KpMerge(stored: KpRow, offered: KpRow): KpRow {
    KpRow(if offered.kpIndex > 0 then offered.kpIndex else stored.kpIndex,
          if offered.estimatedE2 > 0 then offered.estimatedE2 else stored.estimatedE2,
          offered.fetchedAt)
  }

  // ---------------------------------------------------------------- newer than everything stored

  predicate NewerThanAll(tags: set<string>, tag: string) {
    forall stored | stored in tags :: Less(stored, tag)
  }

  /** SELECT MAX(time_tag). */
  method MaxTag(tags: set<string>) returns (m: Option<string>)
    ensures m.None? <==> tags == {}
    ensures m.Some? ==> m.value in tags && forall tag :: Less(m.value, tag) <==> NewerThanAll(tags, tag)
  {
    m := None;
    var left := tags;
    while left != {}
      invariant left <= tags
      invariant m.None? <==> left == tags
      invariant m.Some? ==> m.value in tags && forall x | x in tags - left :: x == m.value || Less(x, m.value)
      decreases left
    {
      var x :| x in left;
      if m.None? || Less(m.value, x) {
        forall y | m.Some? && y in tags - left
          ensures Less(y, x)
        {
          if y != m.value { LessIsTransitive(y, m.value, x); }
        }
        m := Some(x);
      } else {
        LessIsTotal(m.value, x);
      }
      left := left - {x};
    }
    if m.Some? {
      forall tag | Less(m.value, tag)
        ensures NewerThanAll(tags, tag)
      {
        forall x | x in tags
          ensures Less(x, tag)
        {
          if x != m.value { LessIsTransitive(x, m.value, tag); }
        }
      }
    }
  }

  /** The records of a batch that are newer than everything stored. */
  function Newer<K, V>(tags: set<string>, ps: seq<Put<K, V>>, tagOf: K -> string): seq<Put<K, V>> {
    if ps == [] then []
    else
      var p := ps[|ps| - 1];
      Newer(tags, ps[..|ps| - 1], tagOf) + if NewerThanAll(tags, tagOf(p.key)) then [p] else []
  }

  lemma {:induction false} NewerMembers<K, V>(tags: set<string>, ps: seq<Put<K, V>>, tagOf: K -> string, p: Put<K, V>)
    ensures p in Newer(tags, ps, tagOf) <==> p in ps && NewerThanAll(tags, tagOf(p.key))
  {
    if ps != [] {
      NewerMembers(tags, ps[..|ps| - 1], tagOf, p);
      assert ps == ps[..|ps| - 1] + [ps[|ps| - 1]];
    }
  }

  method KeepNewer<K, V>(tags: set<string>, ps: seq<Put<K, V>>, tagOf: K -> string) returns (kept: seq<Put<K, V>>)
    ensures kept == Newer(tags, ps, tagOf)
  {
    var max := MaxTag(tags);
    kept := [];
    for i := 0 to |ps|
      invariant kept == Newer(tags, ps[..i], tagOf)
    {
      assert ps[..i + 1][..i] == ps[..i];
      if max.None? || Less(max.value, tagOf(ps[i].key)) {
        kept := kept + [ps[i]];
      }
    }
    assert ps[..|ps|] == ps;
  }

  /** The tags a tagged table stores. */
  function Tags<K, V>(t: map<K, V>, tagOf: K -> string): set<string> {
    set k | k in t :: tagOf(k)
  }

  /** What `kp` and `xray` do with a batch none of whose tags the database refuses. */
  function Incremental<K, V>(t: map<K, V>, ps: seq<Put<K, V>>, tagOf: K -> string, merge: (V, V) -> V): map<K, V> {
    Absorb(t, Newer(Tags(t, tagOf), ps, tagOf), merge)
  }

  /** The database can cast every record's tag. */
  predicate AllCast<K, V>(castable: string -> bool, ps: seq<Put<K, V>>, tagOf: K -> string) {
    forall i | 0 <= i < |ps| :: castable(tagOf(ps[i].key))
  }

  /** What is left of the table by such a batch, refused or not. */
  function AfterIncremental<K, V>(castable: string -> bool, t: map<K, V>, ps: seq<Put<K, V>>, tagOf: K -> string,
      merge: (V, V) -> V): map<K, V> {
    if AllCast(castable, Newer(Tags(t, tagOf), ps, tagOf), tagOf) then Incremental(t, ps, tagOf, merge) else t
  }

  /** And by a batch that is upserted whole. */
  function AfterUpsert<V>(castable: string -> bool, t: map<string, V>, ps: seq<Put<string, V>>): map<string, V> {
    if AllCast(castable, ps, Tag) then Absorb(t, ps, Replace) else t
  }

  // ---------------------------------------------------------------- the writers

  class Store {
    /** Tags the database can cast to a timestamp. */
    const castable: string -> bool
    var dst: map<string, ValueRow>
    var kp3h: map<string, ValueRow>
    var kp: map<string, KpRow>
    var xray: map<XrayKey, XrayRow>
    var starlink: map<SatId, SatRow>

    constructor (castable: string -> bool)
      ensures this.castable == castable
      ensures dst == map[] && kp3h == map[] && kp == map[] && xray == map[] && starlink == map[]
    {
      this.castable := castable;
      dst, kp3h, kp, xray, starlink := map[], map[], map[], map[], map[];
    }

    method InsertDstBatch(ps: seq<Put<string, ValueRow>>) returns (ok: bool)
      modifies this`dst
      ensures ok <==> AllCast(castable, ps, Tag)
      ensures dst == AfterUpsert(castable, old(dst), ps)
    {
      if ps == [] {
        return true;
      }
      var r := Execute(dst, ps, Replace, castable);
      if r.Some? {
        dst := r.value;
      }
      return r.Some?;
    }

    method InsertKp3hBatch(ps: seq<Put<string, ValueRow>>) returns (ok: bool)
      modifies this`kp3h
      ensures ok <==> AllCast(castable, ps, Tag)
      ensures kp3h == AfterUpsert(castable, old(kp3h), ps)
    {
      if ps == [] {
        return true;
      }
      var r := Execute(kp3h, ps, Replace, castable);
      if r.Some? {
        kp3h := r.value;
      }
      return r.Some?;
    }

    method InsertKpBatch(ps: seq<Put<string, KpRow>>) returns (ok: bool)
      modifies this`kp
      ensures ok <==> AllCast(castable, Newer(Tags(old(kp), Tag), ps, Tag), Tag)
      ensures kp == AfterIncremental(castable, old(kp), ps, Tag, KpMerge)
    {
      if ps == [] {
        return true;
      }
      var kept := KeepNewer(Tags(kp, Tag), ps, Tag);
      if kept == [] {
        return true;
      }
      var r := Execute(kp, kept, KpMerge, castable);
      if r.Some? {
        kp := r.value;
      }
      return r.Some?;
    }

    method InsertXrayBatch(ps: seq<Put<XrayKey, XrayRow>>) returns (ok: bool)
      modifies this`xray
      ensures ok <==> AllCast(castable, Newer(Tags(old(xray), XrayTag), ps, XrayTag), XrayTag)
      ensures xray == AfterIncremental(castable, old(xray), ps, XrayTag, Replace)
    {
      if ps == [] {
        return true;
      }
      var kept := KeepNewer(Tags(xray, XrayTag), ps, XrayTag);
      if kept == [] {
        return true;
      }
      var r := Execute(xray, kept, Replace, (k: XrayKey) => castable(k.tag));
      if r.Some? {
        xray := r.value;
      }
      return r.Some?;
    }

    /** Upsert everything in the batch, then delete everything that is not. */
    method InsertStarlinkBatch(ps: seq<Put<SatId, SatRow>>)
      modifies this`starlink
      ensures starlink == if ps == [] then old(starlink) else Absorb(map[], ps, Replace)
    {
      if ps == [] {
        return;
      }
      var r := Execute(starlink, ps, Replace, _ => true);
      var seen := set i | 0 <= i < |ps| :: ps[i].key;
      UpsertThenDelete(starlink, ps, seen);
      starlink := map k | k in r.value && k in seen :: r.value[k];
    }
  }

  /** kp, dst and kp_3h are keyed on the tag itself. */
  function Tag(tag: string): string {
    tag
  }

  function XrayTag(k: XrayKey): string {
    k.tag
  }

  /** Upserting a batch and deleting every id outside it is replacing the table by it. */
  lemma UpsertThenDelete(t: map<SatId, SatRow>, ps: seq<Put<SatId, SatRow>>, seen: set<SatId>)
    requires forall k :: k in seen <==> exists i | 0 <= i < |ps| :: ps[i].key == k
    ensures (map k | k in Absorb(t, ps, Replace) && k in seen :: Absorb(t, ps, Replace)[k]) ==
        Absorb(map[], ps, Replace)
  {
    forall k: SatId
      ensures k in seen && k in Absorb(t, ps, Replace) <==> k in Absorb(map[], ps, Replace)
      ensures k in Absorb(map[], ps, Replace) ==> Absorb(t, ps, Replace)[k] == Absorb(map[], ps, Replace)[k]
    {
      LastWriteWins(t, ps, k);
      LastWriteWins(map[], ps, k);
      OfferedKey(ps, k);
    }
  }

  // ---------------------------------------------------------------- last write wins

  /** dst, kp_3h: each key holds the last value ever offered for it; nothing else changes. */
  lemma {:induction false} LastWriteWins<K, V>(t: map<K, V>, ps: seq<Put<K, V>>, k: K)
    ensures var u, vs := Absorb(t, ps, Replace), Offered(ps, k);
            if vs != [] then k in u && u[k] == vs[|vs| - 1]
            else (k in u <==> k in t) && (k in t ==> u[k] == t[k])
  {
    AbsorbAt(t, ps, Replace, k);
    var vs := Offered(ps, k);
    if k in t { FoldReplace(t[k], vs); }
    if vs != [] { FoldReplace(vs[0], vs[1..]); }
  }

  /** starlink: after any run the table is the last batch that was not empty. */
  function StarlinkRun(batches: seq<seq<Put<SatId, SatRow>>>): map<SatId, SatRow> {
    if batches == [] then map[]
    else
      var last := batches[|batches| - 1];
      if last == [] then StarlinkRun(batches[..|batches| - 1]) else Absorb(map[], last, Replace)
  }

  lemma {:induction false} StarlinkIsTheLastBatch(batches: seq<seq<Put<SatId, SatRow>>>, n: nat)
    requires n < |batches| && batches[n] != [] && forall m | n < m < |batches| :: batches[m] == []
    ensures forall k ::
              var vs := Offered(batches[n], k); var t := StarlinkRun(batches);
              (k in t <==> vs != []) && (vs != [] ==> t[k] == vs[|vs| - 1])
    decreases |batches|
  {
    if n < |batches| - 1 {
      StarlinkIsTheLastBatch(batches[..|batches| - 1], n);
    } else {
      forall k: SatId
        ensures var vs := Offered(batches[n], k); var t := StarlinkRun(batches);
                (k in t <==> vs != []) && (vs != [] ==> t[k] == vs[|vs| - 1])
      {
        LastWriteWins(map[], batches[n], k);
      }
    }
  }

  // ---------------------------------------------------------------- runs

  /** dst, kp_3h: the table after a run of batches, each accepted or refused. */
  function UpsertRun<V>(castable: string -> bool, batches: seq<seq<Put<string, V>>>): map<string, V> {
    if batches == [] then map[]
    else AfterUpsert(castable, UpsertRun(castable, batches[..|batches| - 1]), batches[|batches| - 1])
  }

  /** The records of the accepted batches, in order. */
  function AcceptedPuts<V>(castable: string -> bool, batches: seq<seq<Put<string, V>>>): seq<Put<string, V>> {
    if batches == [] then []
    else
      var last := batches[|batches| - 1];
      AcceptedPuts(castable, batches[..|batches| - 1]) + if AllCast(castable, last, Tag) then last else []
  }

  /** However the accepted records were cut into batches, the table is one batch of them,
      so each key holds the last value accepted for it. */
  lemma {:induction false} UpsertRunIsOneBatch<V>(castable: string -> bool, batches: seq<seq<Put<string, V>>>)
    ensures UpsertRun(castable, batches) == Absorb(map[], AcceptedPuts(castable, batches), Replace)
  {
    if batches != [] {
      var n := |batches| - 1;
      UpsertRunIsOneBatch(castable, batches[..n]);
      var before := AcceptedPuts(castable, batches[..n]);
      assert before + [] == before;
      AbsorbAppend(map[], before, batches[n], Replace);
    }
  }

  /** kp, xray: the same. */
  function IncrementalRun<K, V>(castable: string -> bool, batches: seq<seq<Put<K, V>>>, tagOf: K -> string,
      merge: (V, V) -> V): map<K, V> {
    if batches == [] then map[]
    else AfterIncremental(castable, IncrementalRun(castable, batches[..|batches| - 1], tagOf, merge),
      batches[|batches| - 1], tagOf, merge)
  }

  // ---------------------------------------------------------------- incremental writers

  /** kp, xray: no stored row ever changes, whatever the batch carries. A correction of a
      stored reading, or a late reading at or below the newest stored tag, is dropped. */
  lemma StoredRowsNeverChange<K, V>(t: map<K, V>, ps: seq<Put<K, V>>, tagOf: K -> string, merge: (V, V) -> V, k: K)
    ensures k in t ==> k in Incremental(t, ps, tagOf, merge) && Incremental(t, ps, tagOf, merge)[k] == t[k]
    ensures k in Incremental(t, ps, tagOf, merge) && k !in t ==> NewerThanAll(Tags(t, tagOf), tagOf(k))
  {
    var kept := Newer(Tags(t, tagOf), ps, tagOf);
    AbsorbAt(t, kept, merge, k);
    OfferedKey(kept, k);
    if Offered(kept, k) != [] {
      var i :| 0 <= i < |kept| && kept[i].key == k;
      NewerMembers(Tags(t, tagOf), ps, tagOf, kept[i]);
      LessIsTotal(tagOf(k), tagOf(k));
    }
  }

  /** Offering an absorbed batch again, in whole or in part, changes nothing. */
  lemma ReplayIsANoOp<K, V>(t: map<K, V>, ps: seq<Put<K, V>>, again: seq<Put<K, V>>, tagOf: K -> string,
      merge: (V, V) -> V)
    requires forall p | p in again :: p in ps
    ensures Incremental(Incremental(t, ps, tagOf, merge), again, tagOf, merge) == Incremental(t, ps, tagOf, merge)
  {
    var u := Incremental(t, ps, tagOf, merge);
    var kept := Newer(Tags(u, tagOf), again, tagOf);
    if kept != [] {
      var p := kept[0];
      NewerMembers(Tags(u, tagOf), again, tagOf, p);
      forall tag | tag in Tags(t, tagOf)
        ensures tag in Tags(u, tagOf)
      {
        var k :| k in t && tagOf(k) == tag;
        StoredRowsNeverChange(t, ps, tagOf, merge, k);
      }
      NewerMembers(Tags(t, tagOf), ps, tagOf, p);
      var i :| 0 <= i < |Newer(Tags(t, tagOf), ps, tagOf)| && Newer(Tags(t, tagOf), ps, tagOf)[i] == p;
      AbsorbAt(t, Newer(Tags(t, tagOf), ps, tagOf), merge, p.key);
      OfferedKey(Newer(Tags(t, tagOf), ps, tagOf), p.key);
      assert p.key in u;
      LessIsTotal(tagOf(p.key), tagOf(p.key));
    }
  }

  /** The last positive value offered, or the first of all when none after it is positive. */
  function LastPositive(first: int, rest: seq<int>): int {
    if rest == [] then first
    else if rest[|rest| - 1] > 0 then rest[|rest| - 1]
    else LastPositive(first, rest[..|rest| - 1])
  }

  function Indices(vs: seq<KpRow>): seq<int> {
    seq(|vs|, i requires 0 <= i < |vs| => vs[i].kpIndex)
  }

  function Estimates(vs: seq<KpRow>): seq<int> {
    seq(|vs|, i requires 0 <= i < |vs| => vs[i].estimatedE2)
  }

  /** kp: inside the one batch that creates a row, each column settles on its own last
      positive value. */
  lemma {:induction false} KpColumnsSettle(first: KpRow, rest: seq<KpRow>)
    ensures Fold(first, rest, KpMerge).kpIndex == LastPositive(first.kpIndex, Indices(rest))
    ensures Fold(first, rest, KpMerge).estimatedE2 == LastPositive(first.estimatedE2, Estimates(rest))
    ensures Fold(first, rest, KpMerge).fetchedAt == (if rest == [] then first else rest[|rest| - 1]).fetchedAt
  {
    if rest != [] {
      var n := |rest| - 1;
      KpColumnsSettle(first, rest[..n]);
      assert Indices(rest)[..n] == Indices(rest[..n]);
      assert Estimates(rest)[..n] == Estimates(rest[..n]);
    }
  }

  // ---------------------------------------------------------------- batches, record by record

  /** Record i is the last of the batch for its key. */
  predicate IsLastFor<K(==), V>(ps: seq<Put<K, V>>, k: K, i: nat) {
    i < |ps| && ps[i].key == k && forall j | i < j < |ps| :: ps[j].key != k
  }

  predicate IsFirstFor<K(==), V>(ps: seq<Put<K, V>>, k: K, i: nat) {
    i < |ps| && ps[i].key == k && forall j | 0 <= j < i :: ps[j].key != k
  }

  predicate IsOffered<K(==), V>(ps: seq<Put<K, V>>, k: K) {
    exists i | 0 <= i < |ps| :: ps[i].key == k
  }

  lemma {:induction false} ReplacedRowByRow<K, V>(t: map<K, V>, ps: seq<Put<K, V>>, k: K)
    ensures k in Absorb(t, ps, Replace) <==> k in t || IsOffered(ps, k)
    ensures forall i: nat | IsLastFor(ps, k, i) :: Absorb(t, ps, Replace)[k] == ps[i].value
    ensures k in t && !IsOffered(ps, k) ==> Absorb(t, ps, Replace)[k] == t[k]
  {
    if ps != [] {
      var n := |ps| - 1;
      ReplacedRowByRow(t, ps[..n], k);
      assert forall i | 0 <= i < n :: ps[..n][i] == ps[i];
      assert IsOffered(ps, k) <==> IsOffered(ps[..n], k) || ps[n].key == k;
      forall i: nat | IsLastFor(ps, k, i)
        ensures Absorb(t, ps, Replace)[k] == ps[i].value
      {
        if i < n { assert IsLastFor(ps[..n], k, i); }
      }
    }
  }

  /** dst, kp_3h: a batch with a tag the database cannot cast changes nothing; any other puts
      the last record of each of its keys in the table and leaves the other rows. */
  lemma {:induction false} AnUpsertedBatchExactly<V>(castable: string -> bool, t: map<string, V>,
      ps: seq<Put<string, V>>, k: string)
    ensures var u := AfterUpsert(castable, t, ps);
            if exists i | 0 <= i < |ps| :: !castable(ps[i].key) then u == t
            else
              && (k in u <==> k in t || IsOffered(ps, k))
              && (forall i: nat | IsLastFor(ps, k, i) :: u[k] == ps[i].value)
              && (k in t && !IsOffered(ps, k) ==> u[k] == t[k])
  {
    ReplacedRowByRow(t, ps, k);
  }

  /** starlink: after any run a satellite is there exactly when the last batch that was not
      empty names it, with the last record that does. */
  lemma {:induction false} StarlinkHoldsExactly(batches: seq<seq<Put<SatId, SatRow>>>, n: nat, k: SatId)
    requires n < |batches| && batches[n] != [] && forall m | n < m < |batches| :: batches[m] == []
    ensures k in StarlinkRun(batches) <==> IsOffered(batches[n], k)
    ensures forall i: nat | IsLastFor(batches[n], k, i) :: StarlinkRun(batches)[k] == batches[n][i].value
    decreases |batches|
  {
    if n < |batches| - 1 {
      StarlinkHoldsExactly(batches[..|batches| - 1], n, k);
    } else {
      ReplacedRowByRow(map[], batches[n], k);
    }
  }

  /** The record's tag is above every stored one. */
  predicate IsAboveAll<K, V>(t: map<K, V>, tagOf: K -> string, tag: string) {
    forall s | s in t :: Less(tagOf(s), tag)
  }

  lemma AboveAll<K, V>(t: map<K, V>, tagOf: K -> string, tag: string)
    ensures NewerThanAll(Tags(t, tagOf), tag) <==> IsAboveAll(t, tagOf, tag)
  {
    if NewerThanAll(Tags(t, tagOf), tag) {
      assert forall s | s in t :: tagOf(s) in Tags(t, tagOf);
    }
  }

  /** Some record above every stored one has a tag the database cannot cast. */
  predicate IsRefused<K, V>(castable: string -> bool, t: map<K, V>, ps: seq<Put<K, V>>, tagOf: K -> string) {
    exists i | 0 <= i < |ps| :: IsAboveAll(t, tagOf, tagOf(ps[i].key)) && !castable(tagOf(ps[i].key))
  }

  lemma {:induction false} RefusedByANewTag<K, V>(castable: string -> bool, t: map<K, V>, ps: seq<Put<K, V>>,
      tagOf: K -> string)
    ensures AllCast(castable, Newer(Tags(t, tagOf), ps, tagOf), tagOf) <==> !IsRefused(castable, t, ps, tagOf)
  {
    hide Newer, Tags, IsAboveAll;
    var kept := Newer(Tags(t, tagOf), ps, tagOf);
    forall p
      ensures p in kept <==> p in ps && IsAboveAll(t, tagOf, tagOf(p.key))
    {
      NewerMembers(Tags(t, tagOf), ps, tagOf, p);
      AboveAll(t, tagOf, tagOf(p.key));
    }
    if IsRefused(castable, t, ps, tagOf) {
      var i :| 0 <= i < |ps| && IsAboveAll(t, tagOf, tagOf(ps[i].key)) && !castable(tagOf(ps[i].key));
      assert ps[i] in kept;
      var j :| 0 <= j < |kept| && kept[j] == ps[i];
    }
    if !AllCast(castable, kept, tagOf) {
      var j :| 0 <= j < |kept| && !castable(tagOf(kept[j].key));
      assert kept[j] in ps;
    }
  }

  /** Which keys an incremental batch adds, and that what it puts there is what the same
      records put into a table without the key. */
  lemma {:induction false} IncrementalKeys<K, V>(castable: string -> bool, t: map<K, V>, ps: seq<Put<K, V>>,
      tagOf: K -> string, merge: (V, V) -> V, k: K)
    ensures var u := AfterIncremental(castable, t, ps, tagOf, merge);
            && (k in t ==> k in u && u[k] == t[k])
            && (k !in t ==>
                 (k in u <==>
                   !IsRefused(castable, t, ps, tagOf) && IsAboveAll(t, tagOf, tagOf(k)) && IsOffered(ps, k)))
            && (k !in t && k in u ==> k in Absorb(map[], ps, merge) && u[k] == Absorb(map[], ps, merge)[k])
  {
    hide Newer, Tags, IsAboveAll, IsRefused, AllCast, Absorb, NewerThanAll;
    RefusedByANewTag(castable, t, ps, tagOf);
    StoredRowsNeverChange(t, ps, tagOf, merge, k);
    AboveAll(t, tagOf, tagOf(k));
    NewerOffered(Tags(t, tagOf), ps, tagOf, k);
    OfferedKey(ps, k);
    AbsorbAt(t, Newer(Tags(t, tagOf), ps, tagOf), merge, k);
    AbsorbAt(map[], ps, merge, k);
  }

  /** xray: a stored row is never touched. Another key is added exactly when some record has
      it, its tag is above every stored tag, and no record above every stored tag has one
      the database cannot cast; it gets the last record it has. */
  lemma {:induction false} AnXrayBatchExactly(castable: string -> bool, t: map<XrayKey, XrayRow>,
      ps: seq<Put<XrayKey, XrayRow>>, k: XrayKey)
    ensures var u := AfterIncremental(castable, t, ps, XrayTag, Replace);
            && (k in t ==> k in u && u[k] == t[k])
            && (k !in t ==> (k in u <==>
                  && IsOffered(ps, k) && (forall s | s in t :: Less(s.tag, k.tag))
                  && forall i | 0 <= i < |ps| && (forall s | s in t :: Less(s.tag, ps[i].key.tag)) ::
                      castable(ps[i].key.tag)))
            && (k !in t && k in u ==> forall i: nat | IsLastFor(ps, k, i) :: u[k] == ps[i].value)
  {
    hide AfterIncremental;
    IncrementalKeys(castable, t, ps, XrayTag, Replace, k);
    ReplacedRowByRow(map[], ps, k);
    assert forall tag :: IsAboveAll(t, XrayTag, tag) <==> forall s | s in t :: Less(s.tag, tag);
  }

  function KpIndex(r: KpRow): int {
    r.kpIndex
  }

  function Estimate(r: KpRow): int {
    r.estimatedE2
  }

  predicate IsLastPositiveFor(ps: seq<Put<string, KpRow>>, k: string, column: KpRow -> int, i: nat) {
    && i < |ps| && ps[i].key == k && column(ps[i].value) > 0
    && forall j | i < j < |ps| && ps[j].key == k :: column(ps[j].value) <= 0
  }

  /** A column that settles: the last positive value offered for the key, or where none is
      positive the first. */
  ghost predicate IsSettled(ps: seq<Put<string, KpRow>>, k: string, column: KpRow -> int, v: int) {
    && (forall i: nat | IsLastPositiveFor(ps, k, column, i) :: v == column(ps[i].value))
    && ((forall i: nat :: !IsLastPositiveFor(ps, k, column, i)) ==>
          forall i: nat | IsFirstFor(ps, k, i) :: v == column(ps[i].value))
  }

  lemma {:induction false} ColumnsSettle(ps: seq<Put<string, KpRow>>, k: string, column: KpRow -> int)
    requires forall a, b {:trigger column(KpMerge(a, b))} ::
        column(KpMerge(a, b)) == if column(b) > 0 then column(b) else column(a)
    ensures k in Absorb(map[], ps, KpMerge) <==> IsOffered(ps, k)
    ensures IsOffered(ps, k) ==> IsSettled(ps, k, column, column(Absorb(map[], ps, KpMerge)[k]))
  {
    if ps != [] {
      hide KpMerge, IsOffered, IsSettled;
      var n := |ps| - 1;
      ColumnsSettle(ps[..n], k, column);
      if IsOffered(ps[..n], k) {
        SettlesFurther(ps, k, column, column(Absorb(map[], ps[..n], KpMerge)[k]));
      } else {
        SettlesFirst(ps, k, column);
      }
    } else {
      assert !IsOffered(ps, k);
    }
  }

  lemma SettlesFurther(ps: seq<Put<string, KpRow>>, k: string, column: KpRow -> int, v: int)
    requires ps != [] && IsOffered(ps[..|ps| - 1], k) && IsSettled(ps[..|ps| - 1], k, column, v)
    ensures var p := ps[|ps| - 1];
            && IsOffered(ps, k)
            && IsSettled(ps, k, column, if p.key == k && column(p.value) > 0 then column(p.value) else v)
  {
    hide IsOffered, IsFirstFor, IsLastPositiveFor;
    OfferedSoFar(ps, k, column);
  }

  lemma SettlesFirst(ps: seq<Put<string, KpRow>>, k: string, column: KpRow -> int)
    requires ps != [] && !IsOffered(ps[..|ps| - 1], k)
    ensures IsOffered(ps, k) <==> ps[|ps| - 1].key == k
    ensures IsOffered(ps, k) ==> IsSettled(ps, k, column, column(ps[|ps| - 1].value))
  {
    OfferedSoFar(ps, k, column);
    var n := |ps| - 1;
    assert forall i | 0 <= i < n :: ps[..n][i].key != k;
  }

  lemma OfferedSoFar(ps: seq<Put<string, KpRow>>, k: string, column: KpRow -> int)
    requires ps != []
    ensures var n := |ps| - 1;
            && (IsOffered(ps, k) <==> IsOffered(ps[..n], k) || ps[n].key == k)
            && (forall i: nat | i < n :: IsFirstFor(ps, k, i) <==> IsFirstFor(ps[..n], k, i))
            && (forall i: nat | i > n :: !IsFirstFor(ps, k, i) && !IsLastPositiveFor(ps, k, column, i))
            && (forall i: nat | i >= n :: !IsFirstFor(ps[..n], k, i) && !IsLastPositiveFor(ps[..n], k, column, i))
            && (forall i | 0 <= i < n :: ps[..n][i] == ps[i])
            && (forall i: nat | i < n :: IsLastPositiveFor(ps, k, column, i) <==>
                  IsLastPositiveFor(ps[..n], k, column, i) && !(ps[n].key == k && column(ps[n].value) > 0))
            && (IsFirstFor(ps, k, n) <==> ps[n].key == k && !IsOffered(ps[..n], k))
            && (IsLastPositiveFor(ps, k, column, n) <==> ps[n].key == k && column(ps[n].value) > 0)
  {
    var n := |ps| - 1;
    assert forall i | 0 <= i < n :: ps[..n][i] == ps[i];
  }

  lemma {:induction false} LastFetched(ps: seq<Put<string, KpRow>>, k: string)
    ensures k in Absorb(map[], ps, KpMerge) <==> IsOffered(ps, k)
    ensures forall i: nat | IsLastFor(ps, k, i) :: Absorb(map[], ps, KpMerge)[k].fetchedAt == ps[i].value.fetchedAt
  {
    if ps != [] {
      var n := |ps| - 1;
      LastFetched(ps[..n], k);
      OfferedSoFar(ps, k, KpIndex);
      forall i: nat | IsLastFor(ps, k, i)
        ensures Absorb(map[], ps, KpMerge)[k].fetchedAt == ps[i].value.fetchedAt
      {
        if i < n { assert IsLastFor(ps[..n], k, i); }
      }
    }
  }

  /** kp: the same keys as for xray, on the tag itself; a row that is added has in each
      column the last positive value of the batch, or the first where none is positive, and
      the time of the last. */
  lemma {:induction false} AKpBatchExactly(castable: string -> bool, t: map<string, KpRow>,
      ps: seq<Put<string, KpRow>>, k: string)
    ensures var u := AfterIncremental(castable, t, ps, Tag, KpMerge);
            && (k in t ==> k in u && u[k] == t[k])
            && (k !in t ==> (k in u <==>
                  && IsOffered(ps, k) && (forall s | s in t :: Less(s, k))
                  && forall i | 0 <= i < |ps| && (forall s | s in t :: Less(s, ps[i].key)) :: castable(ps[i].key)))
            && (k !in t && k in u ==>
                  && IsSettled(ps, k, KpIndex, u[k].kpIndex) && IsSettled(ps, k, Estimate, u[k].estimatedE2)
                  && forall i: nat | IsLastFor(ps, k, i) :: u[k].fetchedAt == ps[i].value.fetchedAt)
  {
    hide AfterIncremental, IsSettled;
    IncrementalKeys(castable, t, ps, Tag, KpMerge, k);
    ColumnsSettle(ps, k, KpIndex);
    ColumnsSettle(ps, k, Estimate);
    LastFetched(ps, k);
    assert forall tag :: IsAboveAll(t, Tag, tag) <==> forall s | s in t :: Less(s, tag);
  }

  /** Batch b has every tag cast, and a record of the key. */
  predicate Stores<V>(castable: string -> bool, batches: seq<seq<Put<string, V>>>, k: string, b: nat)
  {
    b < |batches| && IsOffered(batches[b], k) && forall i | 0 <= i < |batches[b]| :: castable(batches[b][i].key)
  }

  /** dst, kp_3h, over any run: a key is there exactly when some batch without a refused tag
      has it, and it holds the last record of the last such batch. */
  lemma {:induction false} ARunHoldsTheLastStored<V>(castable: string -> bool, batches: seq<seq<Put<string, V>>>,
      k: string)
    ensures k in UpsertRun(castable, batches) <==> exists b: nat :: Stores(castable, batches, k, b)
    ensures forall b: nat, i: nat | Stores(castable, batches, k, b) && IsLastFor(batches[b], k, i)
                && (forall c: nat | c > b :: !Stores(castable, batches, k, c)) ::
              UpsertRun(castable, batches)[k] == batches[b][i].value
  {
    if batches != [] {
      hide AfterUpsert, IsOffered, IsLastFor, Stores;
      var n := |batches| - 1;
      ARunHoldsTheLastStored(castable, batches[..n], k);
      AnUpsertedBatchExactly(castable, UpsertRun(castable, batches[..n]), batches[n], k);
      StoresLast(castable, batches, k);
    }
  }

  lemma StoresLast<V>(castable: string -> bool, batches: seq<seq<Put<string, V>>>, k: string)
    requires batches != []
    ensures var n := |batches| - 1;
            && (forall b: nat | b < n :: Stores(castable, batches, k, b) <==> Stores(castable, batches[..n], k, b))
            && (forall b: nat | b >= n :: !Stores(castable, batches[..n], k, b))
            && (forall b: nat | b > n :: !Stores(castable, batches, k, b))
            && (Stores(castable, batches, k, n) <==>
                 IsOffered(batches[n], k) && forall i | 0 <= i < |batches[n]| :: castable(batches[n][i].key))
            && (forall b | 0 <= b < n :: batches[..n][b] == batches[b])
  {
  }

  /** kp, xray: however a batch is filtered, of a batch whose tags the database can cast no
      reading newer than everything stored is lost. After any run a tag at least as new as
      each of its readings is stored. */
  lemma {:induction false} NoNewerReadingIsLost<K, V>(castable: string -> bool, batches: seq<seq<Put<K, V>>>,
      tagOf: K -> string, merge: (V, V) -> V, b: nat, i: nat)
    requires b < |batches| && i < |batches[b]| && AllCast(castable, batches[b], tagOf)
    ensures exists k | k in IncrementalRun(castable, batches, tagOf, merge) :: !Less(tagOf(k), tagOf(batches[b][i].key))
    decreases |batches|
  {
    hide AfterIncremental, Less;
    var n := |batches| - 1;
    var before := IncrementalRun(castable, batches[..n], tagOf, merge);
    var after := IncrementalRun(castable, batches, tagOf, merge);
    var p := batches[b][i];
    forall k | k in before
      ensures k in after
    {
      IncrementalKeys(castable, before, batches[n], tagOf, merge, k);
    }
    if b < n {
      NoNewerReadingIsLost(castable, batches[..n], tagOf, merge, b, i);
    } else if IsAboveAll(before, tagOf, tagOf(p.key)) {
      IncrementalKeys(castable, before, batches[n], tagOf, merge, p.key);
      assert IsOffered(batches[n], p.key);
      assert p.key in after;
      LessIsTotal(tagOf(p.key), tagOf(p.key));
    }
  }

  // ---------------------------------------------------------------- cutting a batch in two

  /** A record of the second half that its own tag would admit, and that the first half has
      overtaken: newer than everything stored before the batch, but not than everything
      stored after the first half. */
  predicate CutOff<K, V>(t: map<K, V>, u: map<K, V>, tagOf: K -> string, k: K) {
    NewerThanAll(Tags(t, tagOf), tagOf(k)) && !NewerThanAll(Tags(u, tagOf), tagOf(k))
  }

  lemma {:induction false} NewerOffered<K, V>(tags: set<string>, ps: seq<Put<K, V>>, tagOf: K -> string, k: K)
    ensures Offered(Newer(tags, ps, tagOf), k) == if NewerThanAll(tags, tagOf(k)) then Offered(ps, k) else []
  {
    if ps != [] {
      var n := |ps| - 1;
      var kept := Newer(tags, ps[..n], tagOf);
      NewerOffered(tags, ps[..n], tagOf, k);
      OfferedLast(kept, ps[n], k);
      assert kept + [] == kept && Offered(ps[..n], k) + [] == Offered(ps[..n], k);
    }
  }

  lemma OfferedLast<K, V>(ps: seq<Put<K, V>>, p: Put<K, V>, k: K)
    ensures Offered(ps + [p], k) == Offered(ps, k) + if p.key == k then [p.value] else []
  {
  }

  lemma {:induction false} NewerAppend<K,
      V>(tags: set<string>, a: seq<Put<K, V>>, b: seq<Put<K, V>>, tagOf: K -> string)
    ensures Newer(tags, a + b, tagOf) == Newer(tags, a, tagOf) + Newer(tags, b, tagOf)
    decreases |b|
  {
    if b == [] {
      assert a + b == a;
      assert Newer(tags, a, tagOf) + [] == Newer(tags, a, tagOf);
    } else {
      var n := |b| - 1;
      assert (a + b)[..|a + b| - 1] == a + b[..n];
      NewerAppend(tags, a, b[..n], tagOf);
    }
  }

  /** What the second half would add to the table of the first, were it not filtered again. */
  lemma WholeIsAbsorbed<K, V>(t: map<K, V>, a: seq<Put<K, V>>, b: seq<Put<K, V>>, tagOf: K -> string,
      merge: (V, V) -> V)
    ensures Incremental(t, a + b, tagOf, merge) ==
        Absorb(Incremental(t, a, tagOf, merge), Newer(Tags(t, tagOf), b, tagOf), merge)
  {
    NewerAppend(Tags(t, tagOf), a, b, tagOf);
    AbsorbAppend(t, Newer(Tags(t, tagOf), a, tagOf), Newer(Tags(t, tagOf), b, tagOf), merge);
  }

  /** Filtering by more tags admits less. */
  lemma StillNewer<K, V>(t: map<K, V>, a: seq<Put<K, V>>, tagOf: K -> string, merge: (V, V) -> V, tag: string)
    ensures NewerThanAll(Tags(Incremental(t, a, tagOf, merge), tagOf), tag) ==> NewerThanAll(Tags(t, tagOf), tag)
  {
    var u := Incremental(t, a, tagOf, merge);
    forall k | k in t
      ensures k in u
    {
      StoredRowsNeverChange(t, a, tagOf, merge, k);
    }
    assert forall k | k in t :: tagOf(k) in Tags(u, tagOf);
  }

  /** One key, both ways: they differ only where the key was cut off, and there the single
      batch folds the offers in and the second of two leaves the row as it was. */
  lemma CutAt<K, V>(t: map<K, V>, a: seq<Put<K, V>>, b: seq<Put<K, V>>, tagOf: K -> string, merge: (V, V) -> V, k: K)
    ensures var u := Incremental(t, a, tagOf, merge);
            var cut, whole, vs := Incremental(u, b, tagOf, merge), Incremental(t, a + b, tagOf, merge), Offered(b, k);
            if CutOff(t, u, tagOf, k) then
              && (k in cut <==> k in u) && (k in u ==> cut[k] == u[k])
              && (k in whole <==> k in u || vs != []) && (k in u ==> whole[k] == Fold(u[k], vs, merge))
            else (k in cut <==> k in whole) && (k in cut ==> cut[k] == whole[k])
  {
    var u := Incremental(t, a, tagOf, merge);
    WholeIsAbsorbed(t, a, b, tagOf, merge);
    StillNewer(t, a, tagOf, merge, tagOf(k));
    NewerOffered(Tags(t, tagOf), b, tagOf, k);
    NewerOffered(Tags(u, tagOf), b, tagOf, k);
    hide NewerThanAll, Tags, Newer;
    AbsorbAt(u, Newer(Tags(t, tagOf), b, tagOf), merge, k);
    AbsorbAt(u, Newer(Tags(u, tagOf), b, tagOf), merge, k);
  }

  /** Cutting a batch in two keeps the same readings exactly when the first half stores every
      reading of the second that it overtakes. */
  lemma CutKeepsEveryRecordWhen<K, V>(t: map<K, V>, a: seq<Put<K, V>>, b: seq<Put<K, V>>, tagOf: K -> string,
      merge: (V, V) -> V)
    ensures var u := Incremental(t, a, tagOf, merge);
            Incremental(u, b, tagOf, merge).Keys == Incremental(t, a + b, tagOf, merge).Keys
            <==> forall p | p in b && CutOff(t, u, tagOf, p.key) :: p.key in u
  {
    hide Incremental, CutOff;
    var u := Incremental(t, a, tagOf, merge);
    var cut, whole := Incremental(u, b, tagOf, merge), Incremental(t, a + b, tagOf, merge);
    forall k
      ensures CutOff(t, u, tagOf, k) ==> (k in cut <==> k in u) && (k in whole <==> k in u || Offered(b, k) != [])
      ensures !CutOff(t, u, tagOf, k) ==> (k in cut <==> k in whole)
    {
      CutAt(t, a, b, tagOf, merge, k);
    }
    if cut.Keys == whole.Keys {
      forall p | p in b && CutOff(t, u, tagOf, p.key)
        ensures p.key in u
      {
        OfferedKey(b, p.key);
        assert p.key in whole.Keys;
      }
    }
    if forall p | p in b && CutOff(t, u, tagOf, p.key) :: p.key in u {
      forall k
        ensures k in cut <==> k in whole
      {
        if Offered(b, k) != [] { var p := OfferOf(b, k); }
      }
      SameKeys(cut, whole);
    }
  }

  lemma SameKeys<K, V>(a: map<K, V>, b: map<K, V>)
    requires forall k :: k in a <==> k in b
    ensures a.Keys == b.Keys
  {
  }

  lemma OfferOf<K, V>(b: seq<Put<K, V>>, k: K) returns (p: Put<K, V>)
    requires Offered(b, k) != []
    ensures p in b && p.key == k
  {
    OfferedKey(b, k);
    var i :| 0 <= i < |b| && b[i].key == k;
    p := b[i];
  }

  /** And the same table exactly when, besides, what it overtakes would change nothing: the
      offers of the second half, merged into the row the first half stored, leave it. */
  lemma CutIsExactWhen<K, V>(t: map<K, V>, a: seq<Put<K, V>>, b: seq<Put<K, V>>, tagOf: K -> string, merge: (V, V) -> V)
    ensures var u := Incremental(t, a, tagOf, merge);
            Incremental(u, b, tagOf, merge) == Incremental(t, a + b, tagOf, merge)
            <==> forall p | p in b && CutOff(t, u, tagOf, p.key) ::
                p.key in u && Fold(u[p.key], Offered(b, p.key), merge) == u[p.key]
  {
    hide Incremental, CutOff, Fold, Offered;
    var u := Incremental(t, a, tagOf, merge);
    var cut, whole := Incremental(u, b, tagOf, merge), Incremental(t, a + b, tagOf, merge);
    forall p | p in b && CutOff(t, u, tagOf, p.key)
      ensures cut == whole ==> p.key in u && Fold(u[p.key], Offered(b, p.key), merge) == u[p.key]
    {
      CutAt(t, a, b, tagOf, merge, p.key);
      OfferedKey(b, p.key);
    }
    if forall p | p in b && CutOff(t, u, tagOf, p.key) ::
        p.key in u && Fold(u[p.key], Offered(b, p.key), merge) == u[p.key] {
      forall k
        ensures k in cut <==> k in whole
        ensures k in cut ==> cut[k] == whole[k]
      {
        CutAt(t, a, b, tagOf, merge, k);
        NothingToFold(u, b, merge, k);
        if Offered(b, k) != [] { var p := OfferOf(b, k); }
      }
      SameMaps(cut, whole);
    }
  }

  lemma SameMaps<K, V>(a: map<K, V>, b: map<K, V>)
    requires forall k :: (k in a <==> k in b) && (k in a ==> a[k] == b[k])
    ensures a == b
  {
  }

  lemma NothingToFold<K, V>(u: map<K, V>, b: seq<Put<K, V>>, merge: (V, V) -> V, k: K)
    ensures k in u && Offered(b, k) == [] ==> Fold(u[k], Offered(b, k), merge) == u[k]
  {
  }

  // ---------------------------------------------------------------- an instance

  predicate IsDigit(c: char) {
    '0' <= c <= '9'
  }

  /** "YYYY-MM-DDTHH:MM:SS" within the ranges every month has. */
  predicate IsTimeTag(s: string) {
    && |s| == 19 && s[4] == '-' && s[7] == '-' && s[10] == 'T' && s[13] == ':' && s[16] == ':'
    && (forall i | 0 <= i < 19 && i !in {4, 7, 10, 13, 16} :: IsDigit(s[i]))
    && InDigits(s[5], s[6], 1, 12) && InDigits(s[8], s[9], 1, 28) && InDigits(s[11], s[12], 0, 23)
    && InDigits(s[14], s[15], 0, 59) && InDigits(s[17], s[18], 0, 59)
  }

  predicate InDigits(tens: char, ones: char, lo: int, hi: int) {
    IsDigit(tens) && IsDigit(ones) && lo <= 10 * (tens - '0') as int + (ones - '0') as int <= hi
  }

  const HOUR: string := "2026-05-11T03:"
  const EARLY: string := "45:00"
  const LATE: string := "47:00"

  lemma TagsAreReal()
    ensures IsTimeTag(HOUR + EARLY) && IsTimeTag(HOUR + LATE) && Less(HOUR + EARLY, HOUR + LATE)
  {
    LessAfterPrefix(HOUR, EARLY, LATE);
    LessAfterPrefix("4", "5:00", "7:00");
    assert EARLY == "4" + "5:00" && LATE == "4" + "7:00";
  }

  /** Two readings of one hour, the later one offered first. The database casts both tags.
      In one batch both are stored; in two, the earlier reading is lost. */
  lemma {:induction false} SplittingAnIncrementalBatchCanLoseARecord(castable: string -> bool)
    requires forall tag :: IsTimeTag(tag) ==> castable(tag)
    ensures var late, early := Put(HOUR + LATE, KpRow(1, 100, 0)), Put(HOUR + EARLY, KpRow(2, 200, 0));
            && AfterIncremental(castable, map[], [late, early], Tag, KpMerge).Keys == {late.key, early.key}
            && AfterIncremental(castable, AfterIncremental(castable, map[], [late], Tag, KpMerge), [early], Tag,
               KpMerge).Keys == {late.key}
  {
    TagsAreReal();
    AnOvertakenRecordIsLost(castable, HOUR + LATE, HOUR + EARLY, KpRow(1, 100, 0), KpRow(2, 200, 0));
  }

  lemma AnOvertakenRecordIsLost(castable: string -> bool, later: string, earlier: string, r: KpRow, q: KpRow)
    requires castable(later) && castable(earlier) && Less(earlier, later)
    ensures AfterIncremental(castable, map[], [Put(later, r), Put(earlier, q)], Tag, KpMerge).Keys == {later, earlier}
    ensures AfterIncremental(castable, AfterIncremental(castable, map[], [Put(later, r)], Tag, KpMerge),
        [Put(earlier, q)], Tag, KpMerge).Keys == {later}
  {
    hide *;
    var none: map<string, KpRow> := map[];
    var late, early := Put(later, r), Put(earlier, q);
    var both := AfterIncremental(castable, none, [late, early], Tag, KpMerge);
    var first := AfterIncremental(castable, none, [late], Tag, KpMerge);
    var second := AfterIncremental(castable, first, [early], Tag, KpMerge);
    LessIsTotal(later, earlier);
    forall k
      ensures k in both <==> k == later || k == earlier
      ensures k in first <==> k == later
    {
      AKpBatchExactly(castable, none, [late, early], k);
      AKpBatchExactly(castable, none, [late], k);
      OfferedOf(late, early, k);
    }
    forall k
      ensures k in second <==> k == later
    {
      AKpBatchExactly(castable, first, [early], k);
      OfferedOf(early, early, k);
    }
  }

  lemma OfferedOf<K, V>(p: Put<K, V>, q: Put<K, V>, k: K)
    ensures IsOffered([p, q], k) <==> k == p.key || k == q.key
    ensures IsOffered([p], k) <==> k == p.key
  {
    assert [p, q][0] == p && [p, q][1] == q && [p][0] == p;
  }
}
