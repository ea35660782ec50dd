/**
The on-disk store (internal/storage/store.go) as an object: Put, Delete,
DeleteFile, the startup sweep and reconciliation. Every system call that can
fail is a parameter. Put returns, as ghost evidence, the run of the node machine
it performed, so the machine's crash theorems apply at each of its steps.
*/
module ObjectStore {
  import opened Base
  import opened Rows
  import opened Machine
  import opened MetadataIndex
  import opened Sorting

  datatype PutError =
    | ErrClosed | ErrBadNamespace | ErrBadKey | ErrTooLarge | ErrMkdir | ErrCreateTemp | ErrStream
    | ErrCancelled | ErrShortWrite | ErrDigestMismatch | ErrFsync | ErrClose | ErrPublish

  datatype PutResult = Stored(size: nat, already: bool, durable: bool) | Refused(error: PutError)

  /** Which system calls succeed. */
  datatype Faults = Faults(mkdir: bool, temp: bool, fsync: bool, close: bool, rename: bool, dirSync: bool, upsert: bool)

  /** A request body: what its reader yields, and whether it then fails instead of ending. */
  datatype Body = Body(parts: seq<Bytes>, fails: bool)

  datatype ReconcileResult = ReconcileResult(
    filesOnDisk: nat, bytesOnDisk: nat, indexedBefore: nat, added: nat, removedStale: nat, sizeCorrected: nat)

  // ---- Bodies ----

  function Concat(parts: seq<Bytes>): (b: Bytes) {
    if |parts| == 0 then [] else Concat(parts[..|parts| - 1]) + parts[|parts| - 1]
  }

  /** What a limited reader lets through: at most one byte over the limit. */
  function Received(b: Bytes, limit: int): (r: Bytes) {
    if limit > 0 && |b| > limit + 1 then b[..limit + 1] else b
  }

  // ---- Closed forms of a whole Put ----

  /** Staging a body and giving up: the run that leaves no trace. */
  function StagingSteps(t: string, r: Ref, declared: int, parts: seq<Bytes>): (s: seq<Step>) {
    if |parts| == 0 then [Begin(t, r, declared)]
    else StagingSteps(t, r, declared, parts[..|parts| - 1]) + [Chunk(t, parts[|parts| - 1])]
  }

  function Staged(n: Node, t: string, r: Ref, declared: int, data: Bytes): (m: Node) {
    n.(temps := n.temps[t := Inode(data, false)], uploads := n.uploads[t := Upload(r, declared, Streaming, 0, false)])
  }

  /** The state a successful fresh Put leaves. */
  function Published1(n: Node, r: Ref, declared: int, data: Bytes, durable: bool, rows: Table): (m: Node) {
    var slots := n.slots[r := Moved(SlotOf(n, r), Some(Link(Inode(data, true), |n.log|)))];
    n.(slots := if durable then SyncedSlots(slots, r) else slots,
       rows := rows,
       log := n.log + [Published(r, data, declared)],
       ledger := if durable then n.ledger[r := |n.log|] else n.ledger)
  }

  lemma {:induction false} StagingRuns(p: Params, n: Node, t: string, r: Ref, declared: int, parts: seq<Bytes>)
    requires Enabled(p, n, Begin(t, r, declared))
    ensures Legal(p, n, StagingSteps(t, r, declared, parts))
    ensures Exec(p, n, StagingSteps(t, r, declared, parts)) == Staged(n, t, r, declared, Concat(parts))
  {
    if |parts| == 0 {
      var s := Begin(t, r, declared);
      assert StagingSteps(t, r, declared, parts) == [] + [s];
      ExecSnoc(p, n, [], n, s);
    } else {
      var front := parts[..|parts| - 1];
      StagingRuns(p, n, t, r, declared, front);
      ExecSnoc(p, n, StagingSteps(t, r, declared, front), Staged(n, t, r, declared, Concat(front)), Chunk(t, parts[|parts| - 1]));
    }
  }

  lemma AbandonedPutRuns(p: Params, n: Node, t: string, r: Ref, declared: int, parts: seq<Bytes>) returns (steps: seq<Step>)
    requires Enabled(p, n, Begin(t, r, declared))
    ensures Legal(p, n, steps) && Exec(p, n, steps) == n
  {
    StagingRuns(p, n, t, r, declared, parts);
    var staged := Staged(n, t, r, declared, Concat(parts));
    ExecSnoc(p, n, StagingSteps(t, r, declared, parts), staged, Abandon(t));
    steps := StagingSteps(t, r, declared, parts) + [Abandon(t)];
    assert staged.temps - {t} == n.temps && staged.uploads - {t} == n.uploads;
  }

  function AfterRename(n: Node, t: string, r: Ref, declared: int, data: Bytes): (m: Node) {
    n.(slots := n.slots[r := Moved(SlotOf(n, r), Some(Link(Inode(data, true), |n.log|)))],
       uploads := n.uploads[t := Upload(r, declared, Renamed, |n.log|, false)],
       log := n.log + [Published(r, data, declared)])
  }

  lemma LinkRuns(p: Params, n: Node, t: string, r: Ref, declared: int, data: Bytes) returns (steps: seq<Step>)
    requires t !in n.temps && Passes(p, r, declared, data)
    ensures Legal(p, Staged(n, t, r, declared, data), steps)
    ensures Exec(p, Staged(n, t, r, declared, data), steps) == AfterRename(n, t, r, declared, data) && NoneBegun(steps)
  {
    var n0 := Staged(n, t, r, declared, data);
    ExecSnoc(p, n0, [], n0, Check(t));
    var n1 := SetPhase(n0, t, Checked);
    ExecSnoc(p, n0, [] + [Check(t)], n1, Fsync(t));
    var n2 := After(p, n1, Fsync(t));
    RenamedIsLinked(n, n2, t, r, declared, data);
    ExecSnoc(p, n0, [] + [Check(t)] + [Fsync(t)], n2, Rename(t));
    steps := [] + [Check(t)] + [Fsync(t)] + [Rename(t)];
  }

  lemma RenamedIsLinked(n: Node, m: Node, t: string, r: Ref, declared: int, data: Bytes)
    requires t !in n.temps
    requires m == n.(temps := n.temps[t := Inode(data, true)], uploads := n.uploads[t := Upload(r, declared, Synced, 0, false)])
    ensures Renaming(m, t) == AfterRename(n, t, r, declared, data)
  {
    assert m.temps - {t} == n.temps;
  }

  lemma SettleRuns(p: Params, n: Node, t: string, r: Ref, declared: int, data: Bytes, durable: bool, rows: Table)
    returns (steps: seq<Step>)
    requires t !in n.uploads && (r in n.ledger ==> n.ledger[r] < |n.log|)
    ensures Legal(p, AfterRename(n, t, r, declared, data), steps)
    ensures Exec(p, AfterRename(n, t, r, declared, data), steps) == Published1(n, r, declared, data, durable, rows) && NoneBegun(steps)
  {
    var n0 := AfterRename(n, t, r, declared, data);
    var sync := if durable then SyncDir(t) else SyncDirFailed(t);
    ExecSnoc(p, n0, [], n0, sync);
    var n1 := After(p, n0, sync);
    ExecSnoc(p, n0, [] + [sync], n1, Reindex(rows));
    FinishedIsPublished(n, n1.(rows := rows), t, r, declared, data, durable, rows);
    ExecSnoc(p, n0, [] + [sync] + [Reindex(rows)], n1.(rows := rows), Finish(t));
    steps := [] + [sync] + [Reindex(rows)] + [Finish(t)];
  }

  lemma FinishedIsPublished(n: Node, m: Node, t: string, r: Ref, declared: int, data: Bytes, durable: bool, rows: Table)
    requires t !in n.uploads && (r in n.ledger ==> n.ledger[r] < |n.log|)
    requires var n0 := AfterRename(n, t, r, declared, data);
             m == n0.(rows := rows, slots := if durable then SyncedSlots(n0.slots, r) else n0.slots,
                      uploads := n0.uploads[t := n0.uploads[t].(phase := Settled(durable))])
    ensures Finishing(m, t) == Published1(n, r, declared, data, durable, rows)
  {
    assert m.uploads - {t} == n.uploads;
  }

  /** A run that opens one upload, first, and no other. */
  ghost predicate OneUpload(steps: seq<Step>, t: string, r: Ref, declared: int) {
    |steps| > 0 && steps[0] == Begin(t, r, declared) && NoneBegun(steps[1..])
  }

  ghost predicate NoneBegun(steps: seq<Step>) {
    forall i :: 0 <= i < |steps| ==> !steps[i].Begin?
  }

  lemma {:induction false} StagingIsOneUpload(t: string, r: Ref, declared: int, parts: seq<Bytes>)
    ensures OneUpload(StagingSteps(t, r, declared, parts), t, r, declared)
  {
    if |parts| > 0 {
      StagingIsOneUpload(t, r, declared, parts[..|parts| - 1]);
    }
  }

  /** The closed form of a fresh Put is reached by the machine's own steps, in the documented order. */
  lemma FreshPutRuns(p: Params, n: Node, t: string, r: Ref, declared: int, parts: seq<Bytes>, durable: bool, rows: Table)
    returns (steps: seq<Step>)
    requires Enabled(p, n, Begin(t, r, declared)) && Passes(p, r, declared, Concat(parts))
    requires r in n.ledger ==> n.ledger[r] < |n.log|
    ensures Legal(p, n, steps) && Exec(p, n, steps) == Published1(n, r, declared, Concat(parts), durable, rows)
    ensures OneUpload(steps, t, r, declared)
  {
    StagingIsOneUpload(t, r, declared, parts);
    var data := Concat(parts);
    var s0 := StagingSteps(t, r, declared, parts);
    StagingRuns(p, n, t, r, declared, parts);
    var s1 := LinkRuns(p, n, t, r, declared, data);
    ExecAppend(p, n, s0, s1);
    var s2 := SettleRuns(p, n, t, r, declared, data, durable, rows);
    ExecAppend(p, n, s0 + s1, s2);
    steps := s0 + s1 + s2;
  }

  // ---- When a Put succeeds ----

  /** The reader's failure is seen unless the size limit cuts the body off first. */
  predicate ReadFails(body: Body, limit: int) {
    body.fails && !(limit > 0 && |Concat(body.parts)| > limit)
  }

  /** A Put succeeds exactly when this holds; visible is whether the object is already there. */
  predicate Admissible(p: Params, closed: bool, visible: bool, r: Ref, body: Body, declared: int, cancelled: bool, f: Faults) {
    && !closed && ValidRef(r) && !(p.maxBytes > 0 && declared > p.maxBytes) && f.mkdir
    && (!(ContentAddressed(r.ns) && visible) ==>
          && f.temp && !ReadFails(body, p.maxBytes) && !cancelled
          && Passes(p, r, declared, Concat(body.parts))
          && f.fsync && f.close && f.rename)
  }

  /** Errors that blame the body are only given to bodies that deserve it. */
  predicate Blames(p: Params, r: Ref, body: Body, declared: int, e: PutError) {
    match e
    case ErrTooLarge => p.maxBytes > 0 && (declared > p.maxBytes || |Concat(body.parts)| > p.maxBytes)
    case ErrShortWrite => declared >= 0 && |Concat(body.parts)| != declared
    case ErrDigestMismatch => ContentAddressed(r.ns) && p.digest(Concat(body.parts)) != r.key
    case ErrBadNamespace => !ValidNs(r.ns)
    case ErrBadKey => !ValidKey(r.key)
    case ErrStream => body.fails
    case _ => true
  }

  /** What each Put is answered: the first rule broken decides, in this order, and nothing else refuses it. */
  ghost predicate Answered(p: Params, closed: bool, visible: bool, r: Ref, body: Body, declared: int, cancelled: bool, f: Faults, res: PutResult) {
    if closed then res == Refused(ErrClosed)
    else if r.ns != "cas" && r.ns != "ac" then res == Refused(ErrBadNamespace)
    else if |r.key| != 64 || exists i :: 0 <= i < |r.key| && !HexChar(r.key[i]) then res == Refused(ErrBadKey)
    else if p.maxBytes > 0 && declared > p.maxBytes then res == Refused(ErrTooLarge)
    else if !f.mkdir then res == Refused(ErrMkdir)
    else if r.ns == "cas" && visible then res.Stored? && res.already
    else AnsweredFresh(p, r, body, declared, cancelled, f, res)
  }

  ghost predicate AnsweredFresh(p: Params, r: Ref, body: Body, declared: int, cancelled: bool, f: Faults, res: PutResult) {
    var data := Concat(body.parts);
    var over := p.maxBytes > 0 && |data| > p.maxBytes;
    if !f.temp then res == Refused(ErrCreateTemp)
    else if body.fails && !over then res == Refused(ErrStream)
    else if cancelled then res == Refused(ErrCancelled)
    else if over then res == Refused(ErrTooLarge)
    else if declared >= 0 && |data| != declared then res == Refused(ErrShortWrite)
    else if r.ns == "cas" && p.digest(data) != r.key then res == Refused(ErrDigestMismatch)
    else if !f.fsync then res == Refused(ErrFsync)
    else if !f.close then res == Refused(ErrClose)
    else if !f.rename then res == Refused(ErrPublish)
    else res == Stored(|data|, false, f.dirSync)
  }

  lemma {:induction false} ConcatSnoc(parts: seq<Bytes>, b: Bytes)
    ensures Concat(parts + [b]) == Concat(parts) + b
  {
    assert (parts + [b])[..|parts|] == parts;
  }

  lemma {:induction false} ConcatPrefix(parts: seq<Bytes>, i: nat)
    requires i <= |parts|
    ensures |Concat(parts[..i])| <= |Concat(parts)| && Concat(parts)[..|Concat(parts[..i])|] == Concat(parts[..i])
    decreases |parts| - i
  {
    if i < |parts| {
      ConcatPrefix(parts, i + 1);
      ConcatSnoc(parts[..i], parts[i]);
      assert parts[..i + 1] == parts[..i] + [parts[i]];
    } else {
      assert parts[..i] == parts;
    }
  }

  /** The piece that crosses the limit is taken up to one byte past it. */
  lemma CutsOff(parts: seq<Bytes>, i: nat, limit: nat)
    requires i < |parts| && |Concat(parts[..i])| <= limit < |Concat(parts[..i])| + |parts[i]|
    ensures |Concat(parts)| > limit
    ensures Concat(parts[..i]) + parts[i][..limit + 1 - |Concat(parts[..i])|] == Concat(parts)[..limit + 1]
  {
    ConcatSnoc(parts[..i], parts[i]);
    assert parts[..i + 1] == parts[..i] + [parts[i]];
    ConcatPrefix(parts, i + 1);
  }

  /** The copy loop: pieces of whatever size, cut off one byte past the limit. */
  method CopyBody(body: Body, limit: int) returns (parts: seq<Bytes>, failed: bool)
    ensures Concat(parts) == Received(Concat(body.parts), limit)
    ensures (limit > 0 ==> |Concat(parts)| <= limit + 1) && Concat(parts) <= Concat(body.parts)
    ensures |Concat(parts)| < |Concat(body.parts)| ==> limit > 0 && |Concat(parts)| == limit + 1
    ensures failed <==> ReadFails(body, limit)
  {
    parts := [];
    var written := 0;
    for i := 0 to |body.parts|
      invariant Concat(parts) == Concat(body.parts[..i]) && written == |Concat(parts)|
      invariant limit > 0 ==> written <= limit
    {
      var piece := body.parts[i];
      if limit > 0 && written + |piece| > limit {
        CutsOff(body.parts, i, limit);
        ConcatSnoc(parts, piece[..limit + 1 - written]);
        return parts + [piece[..limit + 1 - written]], false;
      }
      ConcatSnoc(body.parts[..i], piece);
      assert body.parts[..i + 1] == body.parts[..i] + [piece];
      ConcatSnoc(parts, piece);
      parts, written := parts + [piece], written + |piece|;
    }
    assert body.parts[..|body.parts|] == body.parts;
    failed := body.fails;
  }

  /** The checks made before anything is read. */
  method Admit(p: Params, closed: bool, r: Ref, declared: int, mkdir: bool) returns (refusal: Option<PutError>)
    ensures refusal.None? <==> !closed && ValidRef(r) && !(p.maxBytes > 0 && declared > p.maxBytes) && mkdir
    ensures refusal.Some? ==> forall body :: Blames(p, r, body, declared, refusal.value)
    ensures refusal.Some? ==> forall visible, body, cancelled, f: Faults :: f.mkdir == mkdir ==>
              Answered(p, closed, visible, r, body, declared, cancelled, f, Refused(refusal.value))
  {
    if closed {
      return Some(ErrClosed);
    }
    if !ValidNs(r.ns) {
      return Some(ErrBadNamespace);
    }
    if !ValidKey(r.key) {
      return Some(ErrBadKey);
    }
    if p.maxBytes > 0 && declared > p.maxBytes {
      return Some(ErrTooLarge);
    }
    if !mkdir {
      return Some(ErrMkdir);
    }
    return None;
  }

  /** Staging and every check before the rename; a refusal leaves the temporary to be removed. */
  method Receive(p: Params, r: Ref, body: Body, declared: int, cancelled: bool, f: Faults)
    returns (refusal: Option<PutError>, parts: seq<Bytes>)
    ensures refusal.None? <==>
              && f.temp && !ReadFails(body, p.maxBytes) && !cancelled
              && Passes(p, r, declared, Concat(body.parts)) && f.fsync && f.close && f.rename
    ensures refusal.None? ==> Concat(parts) == Concat(body.parts)
    ensures AnsweredFresh(p, r, body, declared, cancelled, f, if refusal.Some? then Refused(refusal.value) else Stored(|Concat(body.parts)|, false, f.dirSync))
    ensures refusal.Some? ==> Blames(p, r, body, declared, refusal.value) && refusal.value != ErrBadNamespace && refusal.value != ErrBadKey
  {
    if !f.temp {
      return Some(ErrCreateTemp), [];
    }
    var failed;
    parts, failed := CopyBody(body, p.maxBytes);
    var data := Concat(parts);
    if failed {
      return Some(ErrStream), parts;
    }
    if cancelled {
      return Some(ErrCancelled), parts;
    }
    if p.maxBytes > 0 && |data| > p.maxBytes {
      return Some(ErrTooLarge), parts;
    }
    if declared >= 0 && |data| != declared {
      return Some(ErrShortWrite), parts;
    }
    if ContentAddressed(r.ns) && p.digest(data) != r.key {
      return Some(ErrDigestMismatch), parts;
    }
    if !f.fsync {
      return Some(ErrFsync), parts;
    }
    if !f.close {
      return Some(ErrClose), parts;
    }
    if !f.rename {
      return Some(ErrPublish), parts;
    }
    return None, parts;
  }

  /** The index lists exactly the visible objects at their real sizes. */
  ghost predicate Agrees(n: Node) {
    && (forall r :: r in n.rows <==> Visible(n, r))
    && (forall r :: r in n.rows ==> n.rows[r].size == |Contents(n, r)|)
  }

  lemma LedgerBelowLog(p: Params, n: Node, r: Ref)
    requires Inv(p, n) && r in n.ledger
    ensures n.ledger[r] < |n.log|
  {
    assert Holds(SlotOf(n, r), n.ledger[r]);
    var c := SlotOf(n, r).now;
    assert c in Candidates(SlotOf(n, r));
    assert AtLeast(c, n.ledger[r]);
    assert LinkOk(n.log, r, c.value);
  }

  /** What a fresh Put leaves behind: the body under its name, every other name as it was, and a durable claim that holds. */
  lemma PublishedIsThere(n: Node, r: Ref, declared: int, data: Bytes, durable: bool, rows: Table)
    requires ValidRef(r)
    ensures var m := Published1(n, r, declared, data, durable, rows);
            && Visible(m, r) && Contents(m, r) == data
            && (forall q :: q != r ==> SlotOf(m, q).now == SlotOf(n, q).now)
            && (durable ==> r in m.ledger && Holds(SlotOf(m, r), |n.log|))
  {
    var m := Published1(n, r, declared, data, durable, rows);
    assert SameDir(r, r);
    assert SlotOf(m, r).now == Some(Link(Inode(data, true), |n.log|));
    assert durable ==> SlotOf(m, r).past == {};
  }

  /** A fresh Put's own body outlives every power loss exactly when its directory sync succeeded, which is what it answers. */
  lemma DurableIffSynced(p: Params, n: Node, r: Ref, declared: int, data: Bytes, synced: bool, rows: Table)
    requires Inv(p, n) && ValidRef(r)
    ensures Holds(SlotOf(Published1(n, r, declared, data, synced, rows), r), |n.log|) <==> synced
  {
    var m := Published1(n, r, declared, data, synced, rows);
    assert SameDir(r, r);
    var was := SlotOf(n, r).now;
    assert was in Candidates(SlotOf(n, r));
    assert was.Some? ==> LinkOk(n.log, r, was.value);
    assert !synced ==> was in Candidates(SlotOf(m, r));
  }

  /** A Put whose index write succeeds keeps index and disk in agreement. */
  lemma PublishKeepsAgreement(n: Node, r: Ref, declared: int, data: Bytes, durable: bool, now: int)
    requires Agrees(n)
    ensures Agrees(Published1(n, r, declared, data, durable, Upserted(n.rows, r, |data|, now)))
  {
    var m := Published1(n, r, declared, data, durable, Upserted(n.rows, r, |data|, now));
    assert forall q :: q != r ==> SlotOf(m, q).now == SlotOf(n, q).now;
    assert SlotOf(m, r).now == Some(Link(Inode(data, true), |n.log|));
    forall q ensures q in m.rows <==> Visible(m, q) {
      assert q in n.rows <==> Visible(n, q);
    }
  }

  /** A fresh Put is a run of the machine, so it keeps the invariant; a durable one enters the ledger. */
  lemma FreshPutKeepsTheRules(p: Params, n: Node, t: string, r: Ref, declared: int, parts: seq<Bytes>, durable: bool, rows: Table)
    returns (steps: seq<Step>)
    requires Inv(p, n) && Enabled(p, n, Begin(t, r, declared)) && Passes(p, r, declared, Concat(parts))
    ensures Legal(p, n, steps) && Exec(p, n, steps) == Published1(n, r, declared, Concat(parts), durable, rows)
    ensures Inv(p, Published1(n, r, declared, Concat(parts), durable, rows))
  {
    if r in n.ledger {
      LedgerBelowLog(p, n, r);
    }
    steps := FreshPutRuns(p, n, t, r, declared, parts, durable, rows);
    RunKeepsInv(p, n, steps);
  }

  class Store {
    const p: Params
    const index: Index
    var closed: bool
    var slots: map<Ref, Slot>
    var temps: map<string, Inode>
    var log: seq<Published>
    ghost var ledger: map<Ref, nat>

    /** This store as a machine state with nothing in flight. */
    ghost function State(): (n: Node)
      reads this, index
    {
      Node(slots, temps, map[], index.rows, log, ledger)
    }

    ghost predicate Valid()
      reads this, index
    {
      index.Valid() && Inv(p, State())
    }

    predicate Has(r: Ref)
      reads this
    {
      r in slots && slots[r].now.Some?
    }

    constructor (p: Params, touchLimit: nat)
      ensures Valid() && fresh(index) && State() == EMPTY && this.p == p && !closed
    {
      this.p := p;
      index := new Index(map[], touchLimit);
      closed, slots, temps, log, ledger := false, map[], map[], [], map[];
    }

    /**
    A Put that succeeds made exactly the received body visible, checked, under
    its key, and one that fails changed nothing; either way it was a run of the
    machine. t is the name CreateTemp chose.
    */
    method Put(r: Ref, body: Body, declared: int, cancelled: bool, f: Faults, t: string, now: int)
      returns (res: PutResult, ghost steps: seq<Step>)
      requires Valid() && Incoming(t) && t !in temps
      modifies this`slots, this`log, this`ledger, index`rows, index`pending
      ensures Valid()
      ensures Legal(p, old(State()), steps) && Exec(p, old(State()), steps) == State()
      ensures Answered(p, closed, old(Has(r)), r, body, declared, cancelled, f, res)
      ensures res.Stored? ==> (res.already <==> r.ns == "cas" && old(Has(r)))
      ensures res.Stored? && !res.already && declared >= 0 ==> res.size == declared
      ensures declared >= 0 && |Concat(body.parts)| != declared && !(r.ns == "cas" && old(Has(r))) ==> res.Refused?
      ensures index.pending == if res.Stored? && res.already && !index.closed && (|old(index.pending)| < index.touchLimit || r in old(index.pending))
                               then old(index.pending)[r := now] else old(index.pending)
      ensures res.Stored? <==> Admissible(p, closed, old(Has(r)), r, body, declared, cancelled, f)
      ensures res.Refused? ==> State() == old(State()) && Blames(p, r, body, declared, res.error)
      ensures res.Stored? && res.already ==>
                && State() == old(State())
                && res == Stored(|Contents(State(), r)|, true, true)
      ensures res.Stored? && !res.already ==>
                && res == Stored(|Concat(body.parts)|, false, f.dirSync)
                && State() == Published1(old(State()), r, declared, Concat(body.parts), f.dirSync,
                     if f.upsert && !index.closed then Upserted(old(index.rows), r, res.size, now) else old(index.rows))
    {
      var refusal := Admit(p, closed, r, declared, f.mkdir);
      if refusal.Some? {
        res, steps := Refused(refusal.value), [];
      } else if ContentAddressed(r.ns) && Has(r) {
        index.Touch(r, now);
        res, steps := Stored(|slots[r].now.value.inode.data|, true, true), [];
      } else {
        res, steps := PutFresh(r, body, declared, cancelled, f, t, now);
      }
    }

    /** The path past the already-stored shortcut: stage, check, publish. */
    method PutFresh(r: Ref, body: Body, declared: int, cancelled: bool, f: Faults, t: string, now: int)
      returns (res: PutResult, ghost steps: seq<Step>)
      requires Valid() && Enabled(p, State(), Begin(t, r, declared))
      modifies this`slots, this`log, this`ledger, index`rows
      ensures Valid()
      ensures Legal(p, old(State()), steps) && Exec(p, old(State()), steps) == State()
      ensures res.Stored? <==>
                && f.temp && !ReadFails(body, p.maxBytes) && !cancelled
                && Passes(p, r, declared, Concat(body.parts)) && f.fsync && f.close && f.rename
      ensures AnsweredFresh(p, r, body, declared, cancelled, f, res)
      ensures res.Refused? ==> State() == old(State()) && Blames(p, r, body, declared, res.error)
      ensures res.Stored? ==>
                && res == Stored(|Concat(body.parts)|, false, f.dirSync)
                && State() == Published1(old(State()), r, declared, Concat(body.parts), f.dirSync,
                     if f.upsert && !index.closed then Upserted(old(index.rows), r, res.size, now) else old(index.rows))
    {
      ghost var before := State();
      var refusal, parts := Receive(p, r, body, declared, cancelled, f);
      if refusal.Some? {
        steps := AbandonedPutRuns(p, before, t, r, declared, parts);
        return Refused(refusal.value), steps;
      }
      var data := Concat(parts);
      Publish(r, declared, data, f.dirSync, f.upsert, now);
      steps := FreshPutKeepsTheRules(p, before, t, r, declared, parts, f.dirSync, index.rows);
      res := Stored(|data|, false, f.dirSync);
    }

    /** From the rename on: link the file, sync its directory, record it. */
    method Publish(r: Ref, declared: int, data: Bytes, dirSync: bool, upsert: bool, now: int)
      requires index.Valid() && ValidRef(r)
      modifies this`slots, this`log, this`ledger, index`rows
      ensures index.Valid()
      ensures State() == Published1(old(State()), r, declared, data, dirSync,
                if upsert && !index.closed then Upserted(old(index.rows), r, |data|, now) else old(index.rows))
    {
      ghost var before := State();
      ghost var stamp := |log|;
      var slot := if r in slots then slots[r] else ABSENT;
      slots := slots[r := Moved(slot, Some(Link(Inode(data, true), |log|)))];
      log := log + [Published(r, data, declared)];
      assert SameDir(r, r);
      if dirSync {
        slots := SyncedSlots(slots, r);
        ledger := ledger[r := stamp];
      }
      var err := index.Upsert(r, |data|, now, upsert);
    }

    /** Unlink without touching the index: what the evictor uses to share one transaction. */
    method DeleteFile(r: Ref, removable: bool) returns (size: nat, err: bool)
      modifies this`slots, this`ledger
      ensures err <==> !ValidRef(r) || (old(Has(r)) && !removable)
      ensures !err && old(Has(r)) ==> State() == Unlinked(old(State()), r) && size == |Contents(old(State()), r)|
      ensures err || !old(Has(r)) ==> State() == old(State()) && size == 0
    {
      if !ValidRef(r) || (Has(r) && !removable) {
        return 0, true;
      }
      if !Has(r) {
        return 0, false;
      }
      size, err := |slots[r].now.value.inode.data|, false;
      slots := slots[r := Moved(slots[r], None)];
      ledger := ledger - {r};
    }

    /** Delete keeps index and disk together; deleting what is not there is no error and no change. */
    method Delete(r: Ref, removable: bool, indexOk: bool) returns (err: bool)
      requires Valid()
      modifies this`slots, this`ledger, index`rows, index`pending
      ensures Valid()
      ensures err <==> !ValidRef(r) || (old(Has(r)) && !removable)
      ensures err || !old(Has(r)) ==> State() == old(State())
      ensures index.pending == if err || !old(Has(r)) || index.closed then old(index.pending) else old(index.pending) - {r}
      ensures !err && old(Has(r)) ==>
                State() == Unlinked(old(State()), r).(rows := if indexOk && !index.closed then old(index.rows) - {r} else old(index.rows))
    {
      ghost var before := State();
      var had := Has(r);
      var size;
      size, err := DeleteFile(r, removable);
      if !err && had {
        ghost var mid := State();
        UnlinkedIsAStep(p, before, r);
        var ierr := index.Remove(r, indexOk);
        StepKeepsInv(p, mid, Reindex(index.rows));
      }
    }

    /** Remove what a crash left of unfinished uploads; anything else in tmp/ stays. */
    method SweepTemps()
      requires Valid()
      modifies this`temps
      ensures Valid()
      ensures temps == map t | t in old(temps) && !("incoming-" <= t) :: old(temps)[t]
    {
      ghost var before := State();
      var left := temps.Keys;
      while left != {}
        invariant left <= old(temps).Keys
        invariant temps == map t | t in old(temps) && (t in left || !Incoming(t)) :: old(temps)[t]
        decreases left
      {
        var t :| t in left;
        if Incoming(t) {
          temps := temps - {t};
        }
        left := left - {t};
      }
      UntouchedDisk(p, before, State());
    }

    /** Rebuild the index from the files. fails stands for an unreadable index, walk or commit. */
    method Reconcile(mtime: Ref -> int, fails: bool) returns (res: ReconcileResult, err: bool)
      requires Valid()
      modifies index`rows
      ensures Valid() && err == fails
      ensures err ==> index.rows == old(index.rows)
      ensures !err ==>
                var files := FilesOf(State(), mtime);
                && index.rows == Reconciled(files, old(index.rows))
                && res.filesOnDisk == |files| && res.bytesOnDisk == ByteTotal(index.rows)
                && res.indexedBefore == |old(index.rows)|
                && res.added == |files.Keys - old(index.rows).Keys|
                && res.removedStale == |old(index.rows).Keys - files.Keys|
                && res.sizeCorrected == |Mismatched(files, old(index.rows), files.Keys)|
                && res.filesOnDisk == res.indexedBefore - res.removedStale + res.added
    {
      ghost var before := State();
      res := ReconcileResult(0, 0, 0, 0, 0, 0);
      if fails {
        return res, true;
      }
      var files := FilesOf1(slots, mtime);
      var entries;
      entries, res := MergeEntries(files, index.rows);
      err := index.ReplaceAll(entries, true);
      StepKeepsInv(p, before, Reindex(index.rows));
    }

    /** Startup: sweep, then reconcile. The node comes up recovered, or not at all. */
    method Recover(mtime: Ref -> int, fails: bool) returns (res: ReconcileResult, err: bool)
      requires Valid()
      modifies this`temps, index`rows
      ensures Valid() && err == fails
      ensures !err ==> State() == Restarting(old(State()), mtime) && Recovered(p, State(), mtime)
      ensures err ==> State() == old(State()).(temps := temps) && forall t :: t in temps ==> !Incoming(t)
    {
      ghost var before := State();
      SweepTemps();
      res, err := Reconcile(mtime, fails);
      SameFiles(before, State(), mtime);
      RestartRecovers(p, before, mtime);
    }
  }

  function FilesOf1(slots: map<Ref, Slot>, mtime: Ref -> int): (f: map<Ref, FileInfo>) {
    map r | r in slots && slots[r].now.Some? :: FileInfo(|slots[r].now.value.inode.data|, mtime(r))
  }

  lemma SameFiles(a: Node, b: Node, mtime: Ref -> int)
    requires a.slots == b.slots
    ensures FilesOf(a, mtime) == FilesOf(b, mtime)
  {
  }

  ghost function Unlinked(n: Node, r: Ref): (m: Node)
    requires Visible(n, r)
  {
    n.(slots := n.slots[r := Moved(SlotOf(n, r), None)], ledger := n.ledger - {r})
  }

  lemma UnlinkedIsAStep(p: Params, n: Node, r: Ref)
    requires Inv(p, n) && Visible(n, r) && n.uploads == map[]
    ensures Unlinked(n, r) == After(p, n, Unlink(r)) && Inv(p, Unlinked(n, r))
  {
    assert MarkDeleted(n.uploads, r) == map[];
    StepKeepsInv(p, n, Unlink(r));
  }

  /** Removing a file and its row together keeps index and disk in agreement. */
  lemma DeleteKeepsAgreement(n: Node, r: Ref)
    requires Agrees(n) && Visible(n, r)
    ensures Agrees(Unlinked(n, r).(rows := n.rows - {r}))
  {
    var m := Unlinked(n, r).(rows := n.rows - {r});
    assert forall q :: q != r ==> SlotOf(m, q) == SlotOf(n, q);
    forall q ensures q in m.rows <==> Visible(m, q) {
      assert q in n.rows <==> Visible(n, q);
    }
  }

  // ---- Reconciliation's walk ----

  ghost function Restricted(files: map<Ref, FileInfo>, rows: Table, done: set<Ref>): (t: Table) {
    map r | r in files && r in done :: ReconciledRow(files[r], RowOf(rows, r))
  }

  /** The walk's running state: entries to keep, rows not matched yet, and counts. */
  datatype Walk = Walk(entries: seq<(Ref, Row)>, known: Table, files: nat, bytes: nat, added: nat, corrected: nat)

  function VisitedRow(w: Walk, r: Ref, f: FileInfo): (row: Row) {
    if r in w.known then w.known[r].(size := f.size) else Row(f.size, f.mtime, f.mtime, 1)
  }

  /** The walk's callback for one file. */
  function VisitFile(w: Walk, r: Ref, f: FileInfo): (v: Walk) {
    Walk(w.entries + [(r, VisitedRow(w, r, f))], w.known - {r}, w.files + 1, w.bytes + f.size,
         w.added + (if r in w.known then 0 else 1),
         w.corrected + (if r in w.known && w.known[r].size != f.size then 1 else 0))
  }

  ghost predicate WalkRows(files: map<Ref, FileInfo>, rows: Table, done: set<Ref>, w: Walk) {
    && NoRepeats(w.entries) && TableOf(w.entries) == Restricted(files, rows, done)
    && w.known == rows - done
  }

  /** The visited objects whose row had the wrong size. */
  ghost function Mismatched(files: map<Ref, FileInfo>, rows: Table, done: set<Ref>): (s: set<Ref>) {
    set r | r in done && r in rows && r in files && rows[r].size != files[r].size
  }

  ghost predicate WalkCounts(files: map<Ref, FileInfo>, rows: Table, done: set<Ref>, w: Walk) {
    && w.files == |done| && w.added == |done - rows.Keys| && |w.known| + w.files == |rows| + w.added
    && w.corrected == |Mismatched(files, rows, done)|
  }

  ghost predicate WalkOk(files: map<Ref, FileInfo>, rows: Table, done: set<Ref>, w: Walk) {
    WalkRows(files, rows, done, w) && WalkCounts(files, rows, done, w) && w.bytes == ByteTotal(Restricted(files, rows, done))
  }

  lemma VisitKeepsRows(files: map<Ref, FileInfo>, rows: Table, done: set<Ref>, w: Walk, r: Ref)
    requires WalkRows(files, rows, done, w) && r in files && r !in done
    ensures WalkRows(files, rows, done + {r}, VisitFile(w, r, files[r]))
  {
    TableSnoc(w.entries, r, VisitedRow(w, r, files[r]));
    VisitedIsReconciled(w, rows, done, r, files[r]);
    RestrictedStep(files, rows, done, r);
  }

  lemma VisitedIsReconciled(w: Walk, rows: Table, done: set<Ref>, r: Ref, f: FileInfo)
    requires w.known == rows - done && r !in done
    ensures AtLeastOnce(VisitedRow(w, r, f)) == ReconciledRow(f, RowOf(rows, r))
    ensures w.known - {r} == rows - (done + {r})
  {
    assert r in w.known <==> r in rows;
    assert r in rows ==> w.known[r] == rows[r];
  }

  lemma VisitKeepsBytes(files: map<Ref, FileInfo>, rows: Table, done: set<Ref>, r: Ref)
    requires r in files && r !in done
    ensures ByteTotal(Restricted(files, rows, done + {r})) == ByteTotal(Restricted(files, rows, done)) + files[r].size
  {
    RestrictedStep(files, rows, done, r);
    BytesAdd(Restricted(files, rows, done), r, ReconciledRow(files[r], RowOf(rows, r)));
  }

  lemma VisitKeepsCounts(files: map<Ref, FileInfo>, rows: Table, done: set<Ref>, w: Walk, r: Ref)
    requires WalkCounts(files, rows, done, w) && w.known == rows - done && r in files && r !in done
    ensures WalkCounts(files, rows, done + {r}, VisitFile(w, r, files[r]))
  {
    assert r in w.known <==> r in rows;
    CountsVisited(rows.Keys, done, r);
    KnownShrinks(w.known, r);
    MismatchedStep(files, rows, done, r);
  }

  lemma MismatchedStep(files: map<Ref, FileInfo>, rows: Table, done: set<Ref>, r: Ref)
    requires r in files && r !in done
    ensures |Mismatched(files, rows, done + {r})| ==
              |Mismatched(files, rows, done)| + if r in rows && rows[r].size != files[r].size then 1 else 0
  {
    var add: set<Ref> := if r in rows && rows[r].size != files[r].size then {r} else {};
    assert Mismatched(files, rows, done + {r}) == Mismatched(files, rows, done) + add;
  }

  lemma VisitKeepsWalk(files: map<Ref, FileInfo>, rows: Table, done: set<Ref>, w: Walk, r: Ref)
    requires WalkOk(files, rows, done, w) && r in files && r !in done
    ensures WalkOk(files, rows, done + {r}, VisitFile(w, r, files[r]))
  {
    VisitKeepsRows(files, rows, done, w, r);
    VisitKeepsCounts(files, rows, done, w, r);
    VisitKeepsBytes(files, rows, done, r);
  }

  lemma KnownShrinks(known: Table, r: Ref)
    ensures |known - {r}| == |known| - if r in known then 1 else 0
  {
    assert (known - {r}).Keys == known.Keys - {r};
    if r !in known {
      assert known - {r} == known;
    }
  }

  lemma WalkStarts(files: map<Ref, FileInfo>, rows: Table)
    ensures WalkOk(files, rows, {}, Walk([], rows, 0, 0, 0, 0))
  {
    assert Restricted(files, rows, {}) == map[] && rows - {} == rows;
  }

  lemma NextVisited(order: seq<Ref>, i: nat)
    requires Distinct(order) && i < |order|
    ensures Elements(order[..i + 1]) == Elements(order[..i]) + {order[i]}
    ensures order[i] !in Elements(order[..i]) && order[i] in Elements(order)
  {
    assert order[..i + 1] == order[..i] + [order[i]];
  }

  /** Some order in which the directories list the files. */
  method ListFiles(files: map<Ref, FileInfo>) returns (order: seq<Ref>)
    ensures Distinct(order) && Elements(order) == files.Keys
  {
    order := [];
    var left := files.Keys;
    while left != {}
      invariant Distinct(order) && Elements(order) !! left && Elements(order) + left == files.Keys
      decreases left
    {
      var r :| r in left;
      assert Elements(order + [r]) == Elements(order) + {r};
      order, left := order + [r], left - {r};
    }
  }

  /** Visit every file once, in that order. */
  method WalkFiles(files: map<Ref, FileInfo>, rows: Table, order: seq<Ref>) returns (w: Walk)
    requires Distinct(order) && Elements(order) == files.Keys
    ensures WalkOk(files, rows, files.Keys, w)
  {
    w := Walk([], rows, 0, 0, 0, 0);
    WalkStarts(files, rows);
    assert Elements(order[..0]) == {};
    for i := 0 to |order|
      invariant WalkOk(files, rows, Elements(order[..i]), w)
    {
      NextVisited(order, i);
      VisitKeepsWalk(files, rows, Elements(order[..i]), w, order[i]);
      w := VisitFile(w, order[i], files[order[i]]);
    }
    assert order[..|order|] == order;
  }

  method MergeEntries(files: map<Ref, FileInfo>, rows: Table) returns (entries: seq<(Ref, Row)>, res: ReconcileResult)
    ensures NoRepeats(entries) && TableOf(entries) == Reconciled(files, rows)
    ensures res.filesOnDisk == |files| && res.bytesOnDisk == ByteTotal(Reconciled(files, rows))
    ensures res.indexedBefore == |rows|
    ensures res.added == |files.Keys - rows.Keys| && res.removedStale == |rows.Keys - files.Keys|
    ensures res.sizeCorrected == |Mismatched(files, rows, files.Keys)|
    ensures res.filesOnDisk == res.indexedBefore - res.removedStale + res.added
  {
    var order := ListFiles(files);
    var w := WalkFiles(files, rows, order);
    WalkEnds(files, rows, w);
    entries := w.entries;
    res := ReconcileResult(w.files, w.bytes, |rows|, w.added, |w.known|, w.corrected);
  }

  lemma WalkEnds(files: map<Ref, FileInfo>, rows: Table, w: Walk)
    requires WalkOk(files, rows, files.Keys, w)
    ensures TableOf(w.entries) == Reconciled(files, rows) && w.bytes == ByteTotal(Reconciled(files, rows))
    ensures |w.known| == |rows.Keys - files.Keys|
  {
    assert Restricted(files, rows, files.Keys) == Reconciled(files, rows);
    assert w.known.Keys == rows.Keys - files.Keys;
  }

  lemma RestrictedStep(files: map<Ref, FileInfo>, rows: Table, done: set<Ref>, r: Ref)
    requires r in files && r !in done
    ensures Restricted(files, rows, done + {r}) == Restricted(files, rows, done)[r := ReconciledRow(files[r], RowOf(rows, r))]
  {
  }

  lemma CountsVisited(known: set<Ref>, done: set<Ref>, r: Ref)
    requires r !in done
    ensures |done + {r}| == |done| + 1
    ensures |(done + {r}) - known| == |done - known| + if r in known then 0 else 1
  {
    if r in known {
      assert (done + {r}) - known == done - known;
    } else {
      assert (done + {r}) - known == (done - known) + {r};
    }
  }

  // ---- Where the code promises more than it does ----

  /**
  The same CAS Put twice, with the first one's directory sync failing: the second
  answers "already stored, durable" though it synced nothing, and a power loss may
  take the object away.
  */
  method SecondPutOverclaims(p: Params, key: string, data: Bytes, t: string, now: int)
    returns (first: PutResult, second: PutResult, ghost n: Node)
    requires ValidKey(key) && Incoming(t) && Passes(p, Ref(CAS, key), -1, data)
    ensures first == Stored(|data|, false, false) && second == Stored(|data|, true, true)
    ensures Visible(n, Ref(CAS, key)) && exists m :: LosesPower(n, m) && !Visible(m, Ref(CAS, key))
  {
    var r, body := Ref(CAS, key), Body([data], false);
    assert [data][..0] == [] && Concat(body.parts) == Concat([]) + data == data;
    var s := new Store(p, 1);
    ghost var steps;
    first, steps := s.Put(r, body, -1, false, Faults(true, true, true, true, true, false, true), t, now);
    n := s.State();
    PublishedIsThere(EMPTY, r, -1, data, false, n.rows);
    assert None in Candidates(SlotOf(n, r));
    second, steps := s.Put(r, body, -1, false, Faults(true, true, true, true, true, true, true), t, now);
    SurvivesIffPinned(n, r);
  }
}
