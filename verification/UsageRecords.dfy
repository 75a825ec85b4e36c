/** Usage per account and period, stored sparsely: a zero count makes no row. */
module UsageRecords {
  import opened Prelude

  datatype Key = Key(email: string, periodStart: int)
  datatype Row = Row(count: int, periodEnd: int, updatedAt: int)
  datatype Flush = Flush(key: Key, count: int, periodEnd: int, at: int)
  type Table = map<Key, Row>

  /** What a reader of one period is told. */
  datatype Usage = Usage(count: int, periodStart: int, periodEnd: int)

  function Flushed(t: Table, f: Flush): Table {
    if f.count == 0 && f.key !in t then t else t[f.key := Row(f.count, f.periodEnd, f.at)]
  }

  class Store {
    var rows: Table

    constructor ()
      ensures rows == map[]
    {
      rows := map[];
    }

    method UpsertUsageRecord(f: Flush)
      modifies this
      ensures rows == Flushed(old(rows), f)
    {
      if f.count == 0 {
        if f.key in rows {
          rows := rows[f.key := Row(f.count, f.periodEnd, f.at)];
        }
        return;
      }
      rows := rows[f.key := Row(f.count, f.periodEnd, f.at)];
    }
  }

  /** get_usage_for_period */
  function Reading(t: Table, k: Key): Option<Usage> {
    if k in t then Some(Usage(t[k].count, k.periodStart, t[k].periodEnd)) else None
  }

  function AfterFlushes(fs: seq<Flush>): Table {
    if fs == [] then map[] else Flushed(AfterFlushes(fs[..|fs| - 1]), fs[|fs| - 1])
  }

  function LastFlush(fs: seq<Flush>, k: Key): Option<Flush> {
    if fs == [] then None
    else if fs[|fs| - 1].key == k then Some(fs[|fs| - 1])
    else LastFlush(fs[..|fs| - 1], k)
  }

  /** The dense reference: the last count flushed for a period, zero before any. */
  function LastCount(fs: seq<Flush>, k: Key): int {
    match LastFlush(fs, k)
    case Some(f) => f.count
    case None => 0
  }

  /** What a reader is told, a missing row taken as zero, is the last count flushed for the
      period, with that flush's bounds; and there is a row exactly when some flush of the
      period was not zero. */
  lemma {:induction false} SparseIsDense(fs: seq<Flush>, k: Key)
    ensures var r := Reading(AfterFlushes(fs), k);
            && LastCount(fs, k) == (match r case Some(u) => u.count case None => 0)
            && (r.Some? ==>
                  && LastFlush(fs, k).Some? && r.value.periodStart == k.periodStart
                  && r.value.periodEnd == LastFlush(fs, k).value.periodEnd)
            && (r.Some? <==> exists i | 0 <= i < |fs| :: fs[i].key == k && fs[i].count != 0)
  {
    if fs != [] {
      var n := |fs| - 1;
      SparseIsDense(fs[..n], k);
      if i :| 0 <= i < n && fs[..n][i].key == k && fs[..n][i].count != 0 { assert fs[i].key == k && fs[i].count != 0; }
      if i :| 0 <= i < n && fs[i].key == k && fs[i].count != 0 { assert fs[..n][i] == fs[i]; }
    }
  }

  /** The stored row, without reference to the readers: it is there exactly when some flush
      of the period was not zero, and it is the last flush of the period, zero or not. */
  lemma {:induction false} TheRowIsTheLastFlush(fs: seq<Flush>, k: Key)
    ensures k in AfterFlushes(fs) <==> exists i | 0 <= i < |fs| :: fs[i].key == k && fs[i].count != 0
    ensures forall i | 0 <= i < |fs| && fs[i].key == k && (forall j | i < j < |fs| :: fs[j].key != k) ::
        k in AfterFlushes(fs) ==> AfterFlushes(fs)[k] == Row(fs[i].count, fs[i].periodEnd, fs[i].at)
  {
    if fs != [] {
      var n := |fs| - 1;
      TheRowIsTheLastFlush(fs[..n], k);
      assert forall i | 0 <= i < n :: fs[..n][i] == fs[i];
    }
  }

  /** So is the flush the dense reference goes by. */
  lemma {:induction false} LastFlushIsLast(fs: seq<Flush>, k: Key)
    ensures LastFlush(fs, k).None? <==> forall i | 0 <= i < |fs| :: fs[i].key != k
    ensures forall i | 0 <= i < |fs| && fs[i].key == k && (forall j | i < j < |fs| :: fs[j].key != k) ::
        LastFlush(fs, k) == Some(fs[i])
  {
    if fs != [] {
      var n := |fs| - 1;
      LastFlushIsLast(fs[..n], k);
      assert forall i | 0 <= i < n :: fs[..n][i] == fs[i];
    }
  }
}
