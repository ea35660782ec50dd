/** The metadata index as a value: rows, their byte total, and the specification of each operation. */
module Rows {
  import opened Base

  /** One row of the objects table; times are nanoseconds. */
  datatype Row = Row(size: nat, created: int, accessed: int, count: int)

  /** What a directory walk reports about one object file. */
  datatype FileInfo = FileInfo(size: nat, mtime: int)

  type Table = map<Ref, Row>

  // ---- Byte totals ----

  ghost function Pick(t: Table): (r: Ref)
    requires t != map[]
    ensures r in t
  {
    var r :| r in t;
    r
  }

  ghost function ByteTotal(t: Table): (n: nat)
    decreases t.Keys
  {
    if t == map[] then 0 else t[Pick(t)].size + ByteTotal(t - {Pick(t)})
  }

  /** The total is the same whichever row is taken out first. */
  lemma BytesRemove(t: Table, r: Ref)
    requires r in t
    ensures ByteTotal(t) == t[r].size + ByteTotal(t - {r})
    ensures |t - {r}| == |t| - 1
  {
    TotalWithout(t, r);
    assert (t - {r}).Keys == t.Keys - {r};
  }

  lemma {:induction false} TotalWithout(t: Table, r: Ref)
    requires r in t
    ensures ByteTotal(t) == t[r].size + ByteTotal(t - {r})
    decreases t.Keys
  {
    var q := Pick(t);
    if q != r {
      TotalWithout(t - {q}, r);
      TotalWithout(t - {r}, q);
      assert t - {q} - {r} == t - {r} - {q};
    }
  }

  lemma BytesAdd(t: Table, r: Ref, row: Row)
    requires r !in t
    ensures ByteTotal(t[r := row]) == ByteTotal(t) + row.size
    ensures |t[r := row]| == |t| + 1
  {
    BytesRemove(t[r := row], r);
    assert t[r := row] - {r} == t;
  }

  lemma BytesUpdate(t: Table, r: Ref, row: Row)
    requires r in t
    ensures ByteTotal(t[r := row]) == ByteTotal(t) - t[r].size + row.size
    ensures |t[r := row]| == |t|
  {
    BytesRemove(t, r);
    BytesRemove(t[r := row], r);
    assert t[r := row] - {r} == t - {r};
  }

  /** The total depends only on the sizes. */
  lemma {:induction false} BytesSameSizes(a: Table, b: Table)
    requires a.Keys == b.Keys
    requires forall r :: r in a ==> a[r].size == b[r].size
    ensures ByteTotal(a) == ByteTotal(b) && |a| == |b|
    decreases a.Keys
  {
    assert |a| == |a.Keys| && |b| == |b.Keys|;
    if a != map[] {
      var r := Pick(a);
      BytesRemove(a, r);
      BytesRemove(b, r);
      BytesSameSizes(a - {r}, b - {r});
    }
  }

  /** Removing rows never raises the total. */
  lemma {:induction false} BytesShrink(t: Table, gone: set<Ref>)
    ensures ByteTotal(t - gone) <= ByteTotal(t)
    ensures |t - gone| <= |t|
    decreases t.Keys
  {
    if exists r :: r in t && r in gone {
      var r :| r in t && r in gone;
      BytesRemove(t, r);
      BytesShrink(t - {r}, gone);
      assert t - gone == (t - {r}) - gone;
    } else {
      assert t - gone == t;
    }
  }

  // ---- Operations ----

  /** A new row, or the old one with its size and access time replaced. */
  function Upserted(t: Table, r: Ref, size: nat, now: int): (u: Table) {
    if r in t then t[r := t[r].(size := size, accessed := now)] else t[r := Row(size, now, now, 1)]
  }

  /** Queued reads written back: only rows that still exist are touched. */
  function Flushed(t: Table, touches: map<Ref, int>): (u: Table) {
    map r | r in t :: if r in touches then t[r].(accessed := touches[r], count := t[r].count + 1) else t[r]
  }

  /** A flush neither adds, removes nor resizes a row. */
  lemma FlushKeepsSizes(t: Table, touches: map<Ref, int>)
    ensures Flushed(t, touches).Keys == t.Keys
    ensures forall r :: r in t ==> Flushed(t, touches)[r].size == t[r].size
    ensures ByteTotal(Flushed(t, touches)) == ByteTotal(t) && |Flushed(t, touches)| == |t|
    ensures forall r :: r in t ==>
              var row := Flushed(t, touches)[r];
              && row.created == t[r].created
              && row.accessed == (if r in touches then touches[r] else t[r].accessed)
              && row.count == t[r].count + if r in touches then 1 else 0
  {
    BytesSameSizes(Flushed(t, touches), t);
  }

  /** Writing an object again changes its size and access time and leaves its creation time and read count; a new one starts at one. */
  lemma UpsertKeepsHistory(t: Table, r: Ref, size: nat, now: int)
    ensures var u := Upserted(t, r, size, now);
            && u.Keys == t.Keys + {r} && (forall q :: q in t && q != r ==> u[q] == t[q])
            && u[r].size == size && u[r].accessed == now
            && u[r].created == (if r in t then t[r].created else now)
            && u[r].count == (if r in t then t[r].count else 1)
  {
  }

  lemma UpsertBytes(t: Table, r: Ref, size: nat, now: int)
    ensures ByteTotal(Upserted(t, r, size, now)) == ByteTotal(t) + size - if r in t then t[r].size else 0
  {
    if r in t {
      BytesUpdate(t, r, t[r].(size := size, accessed := now));
    } else {
      BytesAdd(t, r, Row(size, now, now, 1));
    }
  }

  // ---- Reconciliation ----

  /** The row startup keeps for a file: the old history under the file's real size, or a fresh one. */
  function ReconciledRow(f: FileInfo, before: Option<Row>): (row: Row) {
    match before
    case Some(r) => Row(f.size, r.created, r.accessed, if r.count < 1 then 1 else r.count)
    case None => Row(f.size, f.mtime, f.mtime, 1)
  }

  function RowOf(t: Table, r: Ref): (row: Option<Row>) {
    if r in t then Some(t[r]) else None
  }

  /** The index rebuilt from the files on disk. */
  function Reconciled(files: map<Ref, FileInfo>, t: Table): (u: Table) {
    map r | r in files :: ReconciledRow(files[r], RowOf(t, r))
  }

  /** Rows are in step with files: the same objects at the same sizes. */
  ghost predicate InStep(files: map<Ref, FileInfo>, t: Table) {
    t.Keys == files.Keys && forall r :: r in t ==> t[r].size == files[r].size
  }

  /**
  Reconciling makes the index exact, keeps the access history of every object
  that is still there, and changes nothing when run again.
  */
  lemma ReconcileIsExactAndIdempotent(files: map<Ref, FileInfo>, t: Table)
    ensures InStep(files, Reconciled(files, t))
    ensures forall r :: r in t && r in files ==>
              Reconciled(files, t)[r].created == t[r].created && Reconciled(files, t)[r].accessed == t[r].accessed
              && Reconciled(files, t)[r].count == if t[r].count < 1 then 1 else t[r].count
    ensures forall r :: r in files && r !in t ==>
              Reconciled(files, t)[r].created == Reconciled(files, t)[r].accessed == files[r].mtime && Reconciled(files, t)[r].count == 1
    ensures Reconciled(files, Reconciled(files, t)) == Reconciled(files, t)
    ensures InStep(files, t) && (forall r :: r in t ==> t[r].count >= 1) ==> Reconciled(files, t) == t
  {
    var u := Reconciled(files, t);
    forall r | r in files ensures Reconciled(files, u)[r] == u[r] {
      assert RowOf(u, r) == Some(u[r]);
    }
    if InStep(files, t) && forall r :: r in t ==> t[r].count >= 1 {
      forall r | r in files ensures u[r] == t[r] {
        assert RowOf(t, r) == Some(t[r]);
      }
    }
  }
}
