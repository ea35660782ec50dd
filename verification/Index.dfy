/**
The metadata index (internal/storage/index.go): a table with atomic writes that
may fail, and a bounded queue of reads waiting to be recorded.
*/
module MetadataIndex {
  import opened Base
  import opened Rows
  import opened Sorting

  // ---- Query specifications ----

  /** ORDER BY last_access LIMIT n: the coldest rows, ties in any order. */
  ghost predicate IsColdest(t: Table, n: nat, out: seq<Ref>) {
    && (forall i :: 0 <= i < |out| ==> out[i] in t)
    && (forall i, j :: 0 <= i < j < |out| ==> out[i] != out[j] && t[out[i]].accessed <= t[out[j]].accessed)
    && |out| == (if n < |t| then n else |t|)
    && (forall r, i :: r in t && r !in out && 0 <= i < |out| ==> t[out[i]].accessed <= t[r].accessed)
  }

  /** Rows strictly after a position, in key order, up to a limit; nothing in between is missing. */
  ghost predicate IsPage(t: Table, after: Ref, limit: nat, out: seq<Ref>) {
    && |out| <= limit
    && (forall i :: 0 <= i < |out| ==> out[i] in t && RefLess(after, out[i]))
    && (forall i, j :: 0 <= i < j < |out| ==> RefLess(out[i], out[j]))
    && (forall r :: r in t && RefLess(after, r) && r !in out ==>
          |out| == limit && forall i :: 0 <= i < |out| ==> RefLess(out[i], r))
  }

  /** A page is empty only when nothing is left after the position. */
  lemma EmptyPageMeansTheEnd(t: Table, after: Ref, limit: nat)
    requires IsPage(t, after, limit, []) && limit > 0
    ensures forall r :: r in t ==> !RefLess(after, r)
  {
  }

  lemma {:induction false} ColdestExists(t: Table, left: set<Ref>) returns (r: Ref)
    requires left != {} && left <= t.Keys
    ensures r in left && forall q :: q in left ==> t[r].accessed <= t[q].accessed
  {
    r :| r in left;
    if left != {r} {
      var s := ColdestExists(t, left - {r});
      if t[s].accessed <= t[r].accessed {
        r := s;
      }
    }
  }

  lemma {:induction false} LeastExists(left: set<Ref>) returns (r: Ref)
    requires left != {}
    ensures r in left && forall q :: q in left && q != r ==> RefLess(r, q)
  {
    r :| r in left;
    if left != {r} {
      var s := LeastExists(left - {r});
      RefLessTotal(r, s);
      if RefLess(s, r) {
        r := s;
      } else {
        forall q | q in left && q != r && q != s ensures RefLess(r, q) {
          RefLessTransitive(r, s, q);
        }
      }
    }
  }

  /** One DELETE per reference, inside a transaction. */
  method DropAll<V>(m: map<Ref, V>, refs: seq<Ref>) returns (out: map<Ref, V>)
    ensures out == m - Elements(refs)
  {
    out := m;
    for i := 0 to |refs|
      invariant out == m - Elements(refs[..i])
    {
      assert Elements(refs[..i + 1]) == Elements(refs[..i]) + {refs[i]};
      out := out - {refs[i]};
    }
    assert refs[..|refs|] == refs;
  }

  /** One UPDATE per queued read, in whatever order the queue is walked. */
  method WriteTouches(t: Table, batch: map<Ref, int>) returns (out: Table)
    ensures out == Flushed(t, batch)
  {
    out := t;
    var left := batch.Keys;
    assert Flushed(t, batch - left) == t;
    while left != {}
      invariant left <= batch.Keys
      invariant out == Flushed(t, batch - left)
      decreases left
    {
      var r :| r in left;
      if r in out {
        out := out[r := out[r].(accessed := batch[r], count := out[r].count + 1)];
      }
      left := left - {r};
    }
    assert batch - {} == batch;
  }

  class Index {
    var rows: Table
    var pending: map<Ref, int>
    var closed: bool
    const touchLimit: nat

    /** The queue of unrecorded reads never outgrows its limit. */
    ghost predicate Valid()
      reads this
    {
      |pending| <= touchLimit
    }

    constructor (rows: Table, touchLimit: nat)
      ensures Valid() && this.rows == rows && pending == map[] && !closed && this.touchLimit == touchLimit
    {
      this.rows, pending, closed := rows, map[], false;
      this.touchLimit := touchLimit;
    }

    method Upsert(r: Ref, size: nat, now: int, ok: bool) returns (err: bool)
      requires Valid()
      modifies this`rows
      ensures Valid() && (err <==> closed || !ok)
      ensures rows == if err then old(rows) else Upserted(old(rows), r, size, now)
    {
      if closed || !ok {
        return true;
      }
      rows := Upserted(rows, r, size, now);
      return false;
    }

    /** The pending read is dropped first, and stays dropped when the row cannot be removed. */
    method Remove(r: Ref, ok: bool) returns (err: bool)
      requires Valid()
      modifies this`rows, this`pending
      ensures Valid() && (err <==> closed || !ok)
      ensures rows == if err then old(rows) else old(rows) - {r}
      ensures pending == if closed then old(pending) else old(pending) - {r}
    {
      if closed {
        return true;
      }
      PendingShrinks(pending, {r});
      pending := pending - {r};
      if !ok {
        return true;
      }
      rows := rows - {r};
      return false;
    }

    /** All or nothing on rows; the pending reads go either way. */
    method RemoveBatch(refs: seq<Ref>, ok: bool) returns (err: bool)
      requires Valid()
      modifies this`rows, this`pending
      ensures Valid() && (err <==> closed || (refs != [] && !ok))
      ensures rows == if err then old(rows) else old(rows) - Elements(refs)
      ensures pending == if closed then old(pending) else old(pending) - Elements(refs)
    {
      if closed {
        return true;
      }
      if |refs| == 0 {
        return false;
      }
      PendingShrinks(pending, Elements(refs));
      pending := DropAll(pending, refs);
      if !ok {
        return true;
      }
      rows := DropAll(rows, refs);
      return false;
    }

    static lemma PendingShrinks(m: map<Ref, int>, gone: set<Ref>)
      ensures |m - gone| <= |m|
    {
      assert (m - gone).Keys <= m.Keys;
      SubsetSize((m - gone).Keys, m.Keys);
    }

    /** Queue a read; when the queue is full only objects already in it are refreshed. */
    method Touch(r: Ref, now: int)
      requires Valid()
      modifies this`pending
      ensures Valid()
      ensures pending == if closed || (|old(pending)| >= touchLimit && r !in old(pending)) then old(pending)
                         else old(pending)[r := now]
    {
      if closed {
        return;
      }
      if |pending| >= touchLimit {
        if r !in pending {
          return;
        }
      }
      assert pending[r := now].Keys == pending.Keys + {r};
      pending := pending[r := now];
    }

    /** The queue is emptied even when the transaction fails: those reads are lost, no row is. */
    method FlushTouches(ok: bool) returns (err: bool)
      requires Valid()
      modifies this`rows, this`pending
      ensures Valid() && pending == map[]
      ensures err <==> old(pending) != map[] && !ok
      ensures rows == if err then old(rows) else Flushed(old(rows), old(pending))
      ensures rows.Keys == old(rows).Keys && ByteTotal(rows) == ByteTotal(old(rows))
      ensures forall r :: r in rows ==> rows[r].size == old(rows)[r].size
    {
      FlushKeepsSizes(rows, pending);
      if |pending| == 0 {
        assert pending == map[];
        assert Flushed(rows, pending) == rows;
        return false;
      }
      var batch := pending;
      pending := map[];
      if !ok {
        return true;
      }
      rows := WriteTouches(rows, batch);
      return false;
    }

    method Totals() returns (objects: nat, bytes: nat)
      ensures objects == |rows| && bytes == ByteTotal(rows)
    {
      objects, bytes := 0, 0;
      var left := rows;
      while left != map[]
        invariant left.Keys <= rows.Keys && forall r :: r in left ==> left[r] == rows[r]
        invariant objects + |left| == |rows| && bytes + ByteTotal(left) == ByteTotal(rows)
        decreases left.Keys
      {
        assert left.Keys != {};
        var r :| r in left.Keys;
        BytesRemove(left, r);
        objects, bytes := objects + 1, bytes + left[r].size;
        left := left - {r};
      }
    }

    method ColdestN(n: int) returns (out: seq<Ref>)
      ensures n > 0 ==> IsColdest(rows, n, out)
      ensures n <= 0 ==> out == []
    {
      out := [];
      if n <= 0 {
        return;
      }
      var left := rows.Keys;
      while |out| < n && left != {}
        invariant left <= rows.Keys && |out| <= n && |out| + |left| == |rows|
        invariant forall r :: r in rows ==> (r in out <==> r !in left)
        invariant forall i :: 0 <= i < |out| ==> out[i] in rows
        invariant forall i, j :: 0 <= i < j < |out| ==> out[i] != out[j] && rows[out[i]].accessed <= rows[out[j]].accessed
        invariant forall r, i :: r in left && 0 <= i < |out| ==> rows[out[i]].accessed <= rows[r].accessed
        decreases left
      {
        ghost var w := ColdestExists(rows, left);
        var r :| r in left && forall q :: q in left ==> rows[r].accessed <= rows[q].accessed;
        out, left := out + [r], left - {r};
      }
    }

    method PageAfter(after: Ref, limit: int) returns (out: seq<Ref>)
      ensures limit > 0 ==> IsPage(rows, after, limit, out)
      ensures limit <= 0 ==> out == []
    {
      out := [];
      if limit <= 0 {
        return;
      }
      var left := set r | r in rows && RefLess(after, r);
      while |out| < limit && left != {}
        invariant |out| <= limit
        invariant forall r :: r in left ==> r in rows && RefLess(after, r)
        invariant forall i :: 0 <= i < |out| ==> out[i] in rows && RefLess(after, out[i])
        invariant forall r :: r in rows && RefLess(after, r) ==> r in out || r in left
        invariant forall i, j :: 0 <= i < j < |out| ==> RefLess(out[i], out[j])
        invariant forall r, i :: r in left && 0 <= i < |out| ==> RefLess(out[i], r)
        decreases left
      {
        ghost var w := LeastExists(left);
        var r :| r in left && forall q :: q in left && q != r ==> RefLess(r, q);
        out, left := out + [r], left - {r};
      }
    }

    /** Replace the table by a list of entries; a duplicate key or a failed commit changes nothing. */
    method ReplaceAll(entries: seq<(Ref, Row)>, ok: bool) returns (err: bool)
      requires Valid()
      modifies this`rows
      ensures Valid() && (err <==> !ok || !NoRepeats(entries))
      ensures rows == if err then old(rows) else TableOf(entries)
    {
      var table: Table := map[];
      for i := 0 to |entries|
        invariant NoRepeats(entries[..i]) && table == TableOf(entries[..i])
      {
        assert entries[..i + 1][..i] == entries[..i];
        if entries[i].0 in table {
          RepeatsStay(entries, i + 1);
          return true;
        }
        table := table[entries[i].0 := AtLeastOnce(entries[i].1)];
      }
      assert entries[..|entries|] == entries;
      if !ok {
        return true;
      }
      rows := table;
      return false;
    }
  }

  function AtLeastOnce(row: Row): (r: Row) {
    row.(count := if row.count < 1 then 1 else row.count)
  }

  /** The table a list of entries inserts. */
  function TableOf(entries: seq<(Ref, Row)>): (t: Table) {
    if |entries| == 0 then map[]
    else TableOf(entries[..|entries| - 1])[entries[|entries| - 1].0 := AtLeastOnce(entries[|entries| - 1].1)]
  }

  predicate NoRepeats(entries: seq<(Ref, Row)>) {
    |entries| > 0 ==>
      NoRepeats(entries[..|entries| - 1]) && entries[|entries| - 1].0 !in TableOf(entries[..|entries| - 1])
  }

  lemma TableSnoc(entries: seq<(Ref, Row)>, r: Ref, row: Row)
    ensures TableOf(entries + [(r, row)]) == TableOf(entries)[r := AtLeastOnce(row)]
    ensures NoRepeats(entries + [(r, row)]) <==> NoRepeats(entries) && r !in TableOf(entries)
  {
    assert (entries + [(r, row)])[..|entries|] == entries;
  }

  lemma {:induction false} RepeatsStay(entries: seq<(Ref, Row)>, i: nat)
    requires i <= |entries| && !NoRepeats(entries[..i])
    ensures !NoRepeats(entries)
    decreases |entries|
  {
    if i < |entries| {
      assert entries[..|entries| - 1][..i] == entries[..i];
      RepeatsStay(entries[..|entries| - 1], i);
    } else {
      assert entries[..i] == entries;
    }
  }
}
