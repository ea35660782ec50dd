/**
One node's store as a state machine (internal/storage/store.go): any number of
uploads in flight, each advancing one system call at a time, interleaved with
deletions, index writes, process kills and power losses.

A power loss may undo every directory change since that directory was last
synced, and may scramble any file that was not. Each directory entry therefore
carries the values it could come back with.
*/
module Machine {
  import opened Base
  import opened Rows

  datatype Inode = Inode(data: Bytes, synced: bool)

  /** A directory entry: a file, and the position of its publication in the log. */
  datatype Link = Link(inode: Inode, stamp: nat)

  /** What a name resolves to now, and what it resolved to since its directory was last synced. */
  datatype Slot = Slot(now: Option<Link>, past: set<Option<Link>>)

  datatype Published = Published(ref: Ref, data: Bytes, declared: int)

  datatype Phase = Streaming | Checked | Synced | Renamed | Settled(durable: bool)

  /** A Put between CreateTemp and its return; deleted is set by a deletion after its rename. */
  datatype Upload = Upload(ref: Ref, declared: int, phase: Phase, stamp: nat, deleted: bool)

  /**
  log and ledger are history: every publication in order, and, for each object
  whose Put reported itself durable and that was not deleted since, the newest
  such publication.
  */
  datatype Node = Node(
    slots: map<Ref, Slot>,
    temps: map<string, Inode>,
    uploads: map<string, Upload>,
    rows: Table,
    log: seq<Published>,
    ledger: map<Ref, nat>)

  /** The content hash and the per-object limit (0 for none). */
  datatype Params = Params(digest: Bytes -> string, maxBytes: int)

  const TMP_PREFIX := "incoming-"
  const EMPTY := Node(map[], map[], map[], map[], [], map[])
  const ABSENT := Slot(None, {})

  predicate Incoming(name: string) {
    TMP_PREFIX <= name
  }

  /** No key can resolve to an upload in progress: the prefix is not hex. */
  lemma IncomingIsNotAKey(name: string)
    requires Incoming(name)
    ensures !ValidKey(name)
  {
    assert name[0] == TMP_PREFIX[0] == 'i';
  }

  function SlotOf(n: Node, r: Ref): (s: Slot) {
    if r in n.slots then n.slots[r] else ABSENT
  }

  /** Everything a name might resolve to after a power loss. */
  function Candidates(s: Slot): (c: set<Option<Link>>) {
    s.past + {s.now}
  }

  predicate Visible(n: Node, r: Ref) {
    SlotOf(n, r).now.Some?
  }

  function Contents(n: Node, r: Ref): (b: Bytes)
    requires Visible(n, r)
  {
    SlotOf(n, r).now.value.inode.data
  }

  /** The checks between streaming a body and publishing it. */
  predicate Passes(p: Params, r: Ref, declared: int, data: Bytes) {
    && (p.maxBytes > 0 ==> |data| <= p.maxBytes)
    && (declared >= 0 ==> |data| == declared)
    && (ContentAddressed(r.ns) ==> p.digest(data) == r.key)
  }

  /** Objects share a shard directory when they share namespace and first two key bytes. */
  predicate SameDir(a: Ref, b: Ref) {
    a.ns == b.ns && |a.key| >= 4 && |b.key| >= 4 && a.key[..4] == b.key[..4]
  }

  /** The directory an object's file is in, below the store's root. */
  function ShardDir(r: Ref): (path: string)
    requires |r.key| >= 4
  {
    r.ns + "/" + r.key[..2] + "/" + r.key[2..4]
  }

  /** Syncing a directory reaches exactly the objects whose path runs through it. */
  lemma SameDirIffSamePath(a: Ref, b: Ref)
    requires ValidRef(a) && ValidRef(b)
    ensures SameDir(a, b) <==> ShardDir(a) == ShardDir(b)
  {
    PathParts(a);
    PathParts(b);
  }

  /** The path can be taken apart again. */
  lemma PathParts(r: Ref)
    requires |r.key| >= 4
    ensures var path, n := ShardDir(r), |r.ns|;
            && |path| == n + 6 && path[..n] == r.ns && path[n + 1..n + 3] == r.key[..2] && path[n + 4..] == r.key[2..4]
    ensures r.key[..4] == r.key[..2] + r.key[2..4]
  {
    var path, n := ShardDir(r), |r.ns|;
    assert path == (r.ns + "/" + r.key[..2] + "/") + r.key[2..4];
    assert path == (r.ns + "/") + (r.key[..2] + "/" + r.key[2..4]);
  }

  function FilesOf(n: Node, mtime: Ref -> int): (f: map<Ref, FileInfo>) {
    map r | r in n.slots && n.slots[r].now.Some? :: FileInfo(|n.slots[r].now.value.inode.data|, mtime(r))
  }

  // ---- Steps ----

  datatype Step =
    | Begin(temp: string, ref: Ref, declared: int)
    | Chunk(temp: string, bytes: Bytes)
    | Check(temp: string)
    | Abandon(temp: string)
    | Fsync(temp: string)
    | Rename(temp: string)
    | SyncDir(temp: string)
    | SyncDirFailed(temp: string)
    | Finish(temp: string)
    | Unlink(ref: Ref)
    | Reindex(rows: Table)
    | Kill
    | PowerLoss(after: Node)
    | Restart(mtime: Ref -> int)

  predicate InPhase(n: Node, temp: string, phase: Phase) {
    temp in n.uploads && n.uploads[temp].phase == phase
  }

  /** One slot across a power loss: some candidate survives, whole if its data was synced. */
  ghost predicate Survives(before: Slot, after: Slot) {
    && after.past == {}
    && match after.now
       case None => None in Candidates(before)
       case Some(l) =>
         && l.inode.synced
         && exists c :: c in Candidates(before) && c.Some? && c.value.stamp == l.stamp
                        && (c.value.inode.synced ==> c.value.inode.data == l.inode.data)
  }

  ghost predicate LosesPower(n: Node, after: Node) {
    && after.uploads == map[] && after.log == n.log && after.ledger == n.ledger
    && forall r :: Survives(SlotOf(n, r), SlotOf(after, r))
  }

  ghost predicate Enabled(p: Params, n: Node, s: Step) {
    match s
    case Begin(t, r, declared) =>
      && ValidRef(r) && Incoming(t) && t !in n.temps && t !in n.uploads
      && (ContentAddressed(r.ns) ==> !Visible(n, r))
    case Chunk(t, _) => InPhase(n, t, Streaming) && t in n.temps
    case Check(t) =>
      InPhase(n, t, Streaming) && t in n.temps && Passes(p, n.uploads[t].ref, n.uploads[t].declared, n.temps[t].data)
    case Abandon(t) => InPhase(n, t, Streaming) || InPhase(n, t, Checked) || InPhase(n, t, Synced)
    case Fsync(t) => InPhase(n, t, Checked) && t in n.temps
    case Rename(t) => InPhase(n, t, Synced) && t in n.temps
    case SyncDir(t) => InPhase(n, t, Renamed)
    case SyncDirFailed(t) => InPhase(n, t, Renamed)
    case Finish(t) => t in n.uploads && n.uploads[t].phase.Settled?
    case Unlink(r) => Visible(n, r)
    case Reindex(_) => true
    case Kill => true
    case PowerLoss(after) => LosesPower(n, after)
    case Restart(_) => n.uploads == map[]
  }

  function SetPhase(n: Node, t: string, phase: Phase): (r: Node)
    requires t in n.uploads
  {
    n.(uploads := n.uploads[t := n.uploads[t].(phase := phase)])
  }

  function Moved(s: Slot, to: Option<Link>): (r: Slot) {
    Slot(to, s.past + {s.now})
  }

  /** Deletions after the rename void an upload's durability claim. */
  function MarkDeleted(uploads: map<string, Upload>, r: Ref): (u: map<string, Upload>) {
    map t | t in uploads ::
      if uploads[t].ref == r && (uploads[t].phase.Renamed? || uploads[t].phase.Settled?)
      then uploads[t].(deleted := true) else uploads[t]
  }

  function SyncedSlots(slots: map<Ref, Slot>, r: Ref): (s: map<Ref, Slot>) {
    map q | q in slots :: if SameDir(q, r) then Slot(slots[q].now, {}) else slots[q]
  }

  function Renaming(n: Node, t: string): (r: Node)
    requires t in n.uploads && t in n.temps
  {
    var u := n.uploads[t];
    n.(slots := n.slots[u.ref := Moved(SlotOf(n, u.ref), Some(Link(n.temps[t], |n.log|)))],
       temps := n.temps - {t},
       uploads := n.uploads[t := u.(phase := Renamed, stamp := |n.log|, deleted := false)],
       log := n.log + [Published(u.ref, n.temps[t].data, u.declared)])
  }

  /** Returning from a Put: a fresh, durable, undeleted publication enters the ledger. */
  function Finishing(n: Node, t: string): (r: Node)
    requires t in n.uploads
  {
    var u := n.uploads[t];
    var ledger :=
      if u.phase == Settled(true) && !u.deleted && (u.ref in n.ledger ==> n.ledger[u.ref] < u.stamp)
      then n.ledger[u.ref := u.stamp] else n.ledger;
    n.(uploads := n.uploads - {t}, ledger := ledger)
  }

  /** The sweep removes upload temporaries and nothing else; then the index is rebuilt. */
  function Restarting(n: Node, mtime: Ref -> int): (r: Node) {
    n.(temps := map t | t in n.temps && !Incoming(t) :: n.temps[t],
       rows := Reconciled(FilesOf(n, mtime), n.rows))
  }

  ghost function After(p: Params, n: Node, s: Step): (r: Node)
    requires Enabled(p, n, s)
  {
    match s
    case Begin(t, r, declared) =>
      n.(temps := n.temps[t := Inode([], false)], uploads := n.uploads[t := Upload(r, declared, Streaming, 0, false)])
    case Chunk(t, b) => n.(temps := n.temps[t := Inode(n.temps[t].data + b, false)])
    case Check(t) => SetPhase(n, t, Checked)
    case Abandon(t) => n.(temps := n.temps - {t}, uploads := n.uploads - {t})
    case Fsync(t) => SetPhase(n.(temps := n.temps[t := n.temps[t].(synced := true)]), t, Synced)
    case Rename(t) => Renaming(n, t)
    case SyncDir(t) => SetPhase(n.(slots := SyncedSlots(n.slots, n.uploads[t].ref)), t, Settled(true))
    case SyncDirFailed(t) => SetPhase(n, t, Settled(false))
    case Finish(t) => Finishing(n, t)
    case Unlink(r) =>
      n.(slots := n.slots[r := Moved(SlotOf(n, r), None)],
         uploads := MarkDeleted(n.uploads, r),
         ledger := n.ledger - {r})
    case Reindex(rows) => n.(rows := rows)
    case Kill => n.(uploads := map[])
    case PowerLoss(after) => after
    case Restart(mtime) => Restarting(n, mtime)
  }

  // ---- Runs ----

  ghost predicate Legal(p: Params, n: Node, steps: seq<Step>)
    decreases |steps|
  {
    |steps| > 0 ==> Enabled(p, n, steps[0]) && Legal(p, After(p, n, steps[0]), steps[1..])
  }

  ghost function Exec(p: Params, n: Node, steps: seq<Step>): (r: Node)
    requires Legal(p, n, steps)
    decreases |steps|
  {
    if |steps| == 0 then n else Exec(p, After(p, n, steps[0]), steps[1..])
  }

  lemma {:induction false} ExecAppend(p: Params, n: Node, a: seq<Step>, b: seq<Step>)
    requires Legal(p, n, a) && Legal(p, Exec(p, n, a), b)
    ensures Legal(p, n, a + b) && Exec(p, n, a + b) == Exec(p, Exec(p, n, a), b)
    decreases |a|
  {
    if |a| == 0 {
      assert a + b == b;
    } else {
      assert (a + b)[1..] == a[1..] + b;
      ExecAppend(p, After(p, n, a[0]), a[1..], b);
    }
  }

  lemma ExecSnoc(p: Params, n: Node, steps: seq<Step>, m: Node, s: Step)
    requires Legal(p, n, steps) && Exec(p, n, steps) == m && Enabled(p, m, s)
    ensures Legal(p, n, steps + [s]) && Exec(p, n, steps + [s]) == After(p, m, s)
  {
    ExecOne(p, m, s);
    ExecAppend(p, n, steps, [s]);
  }

  lemma ExecOne(p: Params, n: Node, s: Step)
    requires Enabled(p, n, s)
    ensures Legal(p, n, [s]) && Exec(p, n, [s]) == After(p, n, s)
  {
    var steps, m := [s], After(p, n, s);
    assert steps[0] == s && steps[1..] == [];
    assert Legal(p, m, steps[1..]) && Exec(p, m, steps[1..]) == m;
  }

  // ---- The invariant ----

  /** A name may only ever resolve to a whole, synced file that some Put published under it. */
  ghost predicate LinkOk(log: seq<Published>, r: Ref, l: Link) {
    l.inode.synced && l.stamp < |log| && log[l.stamp].ref == r && log[l.stamp].data == l.inode.data
  }

  ghost predicate SlotsOk(n: Node) {
    forall r, c :: r in n.slots && c in Candidates(n.slots[r]) && c.Some? ==> LinkOk(n.log, r, c.value)
  }

  ghost predicate LogOk(p: Params, log: seq<Published>) {
    forall i :: 0 <= i < |log| ==> ValidRef(log[i].ref) && Passes(p, log[i].ref, log[i].declared, log[i].data)
  }

  /** Past its rename. */
  predicate Linked(u: Upload) {
    u.phase.Renamed? || u.phase.Settled?
  }

  ghost predicate UploadOk(p: Params, n: Node, t: string) {
    t in n.uploads && var u := n.uploads[t];
    && ValidRef(u.ref) && Incoming(t)
    && (u.phase.Streaming? || u.phase.Checked? || u.phase.Synced? ==> t in n.temps)
    && (u.phase.Checked? || u.phase.Synced? ==> Passes(p, u.ref, u.declared, n.temps[t].data))
    && (u.phase.Synced? ==> n.temps[t].synced)
    && (Linked(u) && !u.deleted ==> AtLeast(SlotOf(n, u.ref).now, u.stamp))
    && (u.phase == Settled(true) && !u.deleted ==> Holds(SlotOf(n, u.ref), u.stamp))
  }

  ghost predicate UploadsOk(p: Params, n: Node) {
    forall t :: t in n.uploads ==> UploadOk(p, n, t)
  }

  predicate AtLeast(c: Option<Link>, stamp: nat) {
    c.Some? && c.value.stamp >= stamp
  }

  /** Whatever a power loss does, the name is there with this publication or a later one. */
  ghost predicate Holds(s: Slot, stamp: nat) {
    forall c :: c in Candidates(s) ==> AtLeast(c, stamp)
  }

  ghost predicate LedgerOk(n: Node) {
    forall r :: r in n.ledger ==> Holds(SlotOf(n, r), n.ledger[r])
  }

  /** Stamps are positions in the log, of a publication under the upload's name. */
  ghost predicate StampsOk(n: Node) {
    forall t :: t in n.uploads && Linked(n.uploads[t]) ==>
      n.uploads[t].stamp < |n.log| && n.log[n.uploads[t].stamp].ref == n.uploads[t].ref
  }

  ghost predicate Inv(p: Params, n: Node) {
    SlotsOk(n) && LogOk(p, n.log) && UploadsOk(p, n) && LedgerOk(n) && StampsOk(n)
  }

  lemma RenameKeepsInv(p: Params, n: Node, t: string)
    requires Inv(p, n) && Enabled(p, n, Rename(t))
    ensures Inv(p, After(p, n, Rename(t)))
  {
    var m := After(p, n, Rename(t));
    var u := n.uploads[t];
    assert UploadOk(p, n, t);
    forall r, c | r in m.slots && c in Candidates(m.slots[r]) && c.Some? ensures LinkOk(m.log, r, c.value) {
      if r in n.slots && c in Candidates(n.slots[r]) {
        assert LinkOk(n.log, r, c.value);
      }
    }
    forall v | v in m.uploads ensures UploadOk(p, m, v) {
      if v != t {
        assert UploadOk(p, n, v);
      }
    }
    forall r | r in m.ledger ensures Holds(SlotOf(m, r), m.ledger[r]) {
      assert Holds(SlotOf(n, r), n.ledger[r]);
      assert SlotOf(n, r).now in Candidates(SlotOf(n, r));
    }
  }

  lemma SyncDirKeepsInv(p: Params, n: Node, t: string)
    requires Inv(p, n) && Enabled(p, n, SyncDir(t))
    ensures Inv(p, After(p, n, SyncDir(t)))
  {
    var m := After(p, n, SyncDir(t));
    forall v | v in m.uploads ensures UploadOk(p, m, v) {
      assert UploadOk(p, n, v) && UploadOk(p, n, t);
      SyncNarrows(n, n.uploads[t].ref, n.uploads[v].ref, m);
    }
    forall r | r in m.ledger ensures Holds(SlotOf(m, r), m.ledger[r]) {
      assert Holds(SlotOf(n, r), n.ledger[r]);
      SyncNarrows(n, n.uploads[t].ref, r, m);
    }
    forall r, c | r in m.slots && c in Candidates(m.slots[r]) && c.Some? ensures LinkOk(m.log, r, c.value) {
      SyncNarrows(n, n.uploads[t].ref, r, m);
    }
  }

  /** Syncing a directory settles its names on what they resolve to now. */
  lemma SyncNarrows(n: Node, synced: Ref, r: Ref, m: Node)
    requires m.slots == SyncedSlots(n.slots, synced)
    ensures SlotOf(m, r).now == SlotOf(n, r).now && Candidates(SlotOf(m, r)) <= Candidates(SlotOf(n, r))
    ensures r == synced && ValidRef(r) ==> SlotOf(m, r).past == {}
  {
  }

  lemma UnlinkKeepsInv(p: Params, n: Node, r: Ref)
    requires Inv(p, n) && Enabled(p, n, Unlink(r))
    ensures Inv(p, After(p, n, Unlink(r)))
  {
    var m := After(p, n, Unlink(r));
    forall v | v in m.uploads ensures UploadOk(p, m, v) {
      assert UploadOk(p, n, v);
    }
    forall q | q in m.ledger ensures Holds(SlotOf(m, q), m.ledger[q]) {
      assert Holds(SlotOf(n, q), n.ledger[q]);
    }
  }

  lemma FinishKeepsInv(p: Params, n: Node, t: string)
    requires Inv(p, n) && Enabled(p, n, Finish(t))
    ensures Inv(p, After(p, n, Finish(t)))
  {
    var m := After(p, n, Finish(t));
    assert UploadOk(p, n, t);
    forall v | v in m.uploads ensures UploadOk(p, m, v) {
      assert UploadOk(p, n, v);
    }
    forall q | q in m.ledger ensures Holds(SlotOf(m, q), m.ledger[q]) {
      if q in n.ledger {
        assert Holds(SlotOf(n, q), n.ledger[q]);
      }
    }
  }

  lemma PowerLossKeepsInv(p: Params, n: Node, m: Node)
    requires Inv(p, n) && LosesPower(n, m)
    ensures Inv(p, m)
  {
    forall r, c | r in m.slots && c in Candidates(m.slots[r]) && c.Some? ensures LinkOk(m.log, r, c.value) {
      assert Survives(SlotOf(n, r), SlotOf(m, r));
      var l := c.value;
      var d :| d in Candidates(SlotOf(n, r)) && d.Some? && d.value.stamp == l.stamp
               && (d.value.inode.synced ==> d.value.inode.data == l.inode.data);
      assert r in n.slots;
      assert LinkOk(n.log, r, d.value);
    }
    forall r | r in m.ledger ensures Holds(SlotOf(m, r), m.ledger[r]) {
      assert Survives(SlotOf(n, r), SlotOf(m, r));
      assert Holds(SlotOf(n, r), n.ledger[r]);
    }
  }

  lemma UntouchedDisk(p: Params, n: Node, m: Node)
    requires Inv(p, n) && m.slots == n.slots && m.log == n.log && m.ledger == n.ledger
    requires UploadsOk(p, m) && StampsOk(m)
    ensures Inv(p, m)
  {
    forall q | q in m.ledger ensures Holds(SlotOf(m, q), m.ledger[q]) {
      assert Holds(SlotOf(n, q), n.ledger[q]);
    }
  }

  /** A step that touches one upload and its temporary need only answer for that upload. */
  lemma OtherUploadsKept(p: Params, n: Node, m: Node, t: string)
    requires Inv(p, n) && m.slots == n.slots && m.log == n.log && m.ledger == n.ledger
    requires m.uploads.Keys <= n.uploads.Keys + {t} && m.temps.Keys + {t} >= n.temps.Keys
    requires forall v :: v in m.uploads && v != t ==> m.uploads[v] == n.uploads[v]
    requires forall v :: v in n.temps && v != t ==> m.temps[v] == n.temps[v]
    requires t in m.uploads ==> UploadOk(p, m, t)
    requires t in m.uploads && Linked(m.uploads[t]) ==>
               m.uploads[t].stamp < |m.log| && m.log[m.uploads[t].stamp].ref == m.uploads[t].ref
    ensures Inv(p, m)
  {
    forall v | v in m.uploads ensures UploadOk(p, m, v) {
      if v != t {
        assert UploadOk(p, n, v);
      }
    }
    UntouchedDisk(p, n, m);
  }

  lemma BeginKeepsInv(p: Params, n: Node, t: string, r: Ref, declared: int)
    requires Inv(p, n) && Enabled(p, n, Begin(t, r, declared))
    ensures Inv(p, After(p, n, Begin(t, r, declared)))
  {
    OtherUploadsKept(p, n, After(p, n, Begin(t, r, declared)), t);
  }

  lemma ChunkKeepsInv(p: Params, n: Node, t: string, b: Bytes)
    requires Inv(p, n) && Enabled(p, n, Chunk(t, b))
    ensures Inv(p, After(p, n, Chunk(t, b)))
  {
    assert UploadOk(p, n, t);
    OtherUploadsKept(p, n, After(p, n, Chunk(t, b)), t);
  }

  lemma CheckKeepsInv(p: Params, n: Node, t: string)
    requires Inv(p, n) && Enabled(p, n, Check(t))
    ensures Inv(p, After(p, n, Check(t)))
  {
    assert UploadOk(p, n, t);
    OtherUploadsKept(p, n, After(p, n, Check(t)), t);
  }

  lemma AbandonKeepsInv(p: Params, n: Node, t: string)
    requires Inv(p, n) && Enabled(p, n, Abandon(t))
    ensures Inv(p, After(p, n, Abandon(t)))
  {
    OtherUploadsKept(p, n, After(p, n, Abandon(t)), t);
  }

  lemma FsyncKeepsInv(p: Params, n: Node, t: string)
    requires Inv(p, n) && Enabled(p, n, Fsync(t))
    ensures Inv(p, After(p, n, Fsync(t)))
  {
    assert UploadOk(p, n, t);
    OtherUploadsKept(p, n, After(p, n, Fsync(t)), t);
  }

  lemma SyncDirFailedKeepsInv(p: Params, n: Node, t: string)
    requires Inv(p, n) && Enabled(p, n, SyncDirFailed(t))
    ensures Inv(p, After(p, n, SyncDirFailed(t)))
  {
    assert UploadOk(p, n, t);
    OtherUploadsKept(p, n, After(p, n, SyncDirFailed(t)), t);
  }

  lemma QuietStepKeepsInv(p: Params, n: Node, s: Step)
    requires Inv(p, n) && Enabled(p, n, s) && (s.Reindex? || s.Kill? || s.Restart?)
    ensures Inv(p, After(p, n, s))
  {
    var m := After(p, n, s);
    forall v | v in m.uploads ensures UploadOk(p, m, v) {
      assert UploadOk(p, n, v);
    }
    UntouchedDisk(p, n, m);
  }

  lemma StepKeepsInv(p: Params, n: Node, s: Step)
    requires Inv(p, n) && Enabled(p, n, s)
    ensures Inv(p, After(p, n, s))
  {
    match s
    case Rename(t) => RenameKeepsInv(p, n, t);
    case SyncDir(t) => SyncDirKeepsInv(p, n, t);
    case Finish(t) => FinishKeepsInv(p, n, t);
    case Unlink(r) => UnlinkKeepsInv(p, n, r);
    case PowerLoss(after) => PowerLossKeepsInv(p, n, after);
    case Begin(t, r, declared) => BeginKeepsInv(p, n, t, r, declared);
    case Chunk(t, b) => ChunkKeepsInv(p, n, t, b);
    case Check(t) => CheckKeepsInv(p, n, t);
    case Abandon(t) => AbandonKeepsInv(p, n, t);
    case Fsync(t) => FsyncKeepsInv(p, n, t);
    case SyncDirFailed(t) => SyncDirFailedKeepsInv(p, n, t);
    case _ => QuietStepKeepsInv(p, n, s);
  }

  lemma {:induction false} RunKeepsInv(p: Params, n: Node, steps: seq<Step>)
    requires Inv(p, n) && Legal(p, n, steps)
    ensures Inv(p, Exec(p, n, steps))
    decreases |steps|
  {
    if |steps| > 0 {
      StepKeepsInv(p, n, steps[0]);
      RunKeepsInv(p, After(p, n, steps[0]), steps[1..]);
    }
  }

  // ---- What every run guarantees ----

  /**
  CAS integrity: after any interleaving of uploads with arbitrary bodies,
  deletions, kills, power losses and restarts, whatever is visible under a CAS
  key hashes to it; so skipping a Put of a visible CAS object loses nothing.
  */
  lemma VisibleCasMatchesItsKey(p: Params, steps: seq<Step>, key: string)
    requires Legal(p, EMPTY, steps)
    requires Visible(Exec(p, EMPTY, steps), Ref(CAS, key))
    ensures p.digest(Contents(Exec(p, EMPTY, steps), Ref(CAS, key))) == key
  {
    RunKeepsInv(p, EMPTY, steps);
    VisibleWasPublished(p, Exec(p, EMPTY, steps), Ref(CAS, key));
  }

  /** What is visible is exactly a body that some Put received in full and that passed its checks. */
  lemma VisibleWasPublished(p: Params, n: Node, r: Ref)
    requires Inv(p, n) && Visible(n, r)
    ensures exists i :: 0 <= i < |n.log| && n.log[i].ref == r && n.log[i].data == Contents(n, r)
                        && Passes(p, r, n.log[i].declared, n.log[i].data)
                        && (n.log[i].declared >= 0 ==> |Contents(n, r)| == n.log[i].declared)
    ensures p.maxBytes > 0 ==> |Contents(n, r)| <= p.maxBytes
    ensures r.ns == "cas" ==> p.digest(Contents(n, r)) == r.key
    ensures ValidRef(r) && |r.key| == 64 && (r.ns == "cas" || r.ns == "ac")
  {
    var l := SlotOf(n, r).now.value;
    assert Some(l) in Candidates(n.slots[r]);
    assert LinkOk(n.log, r, l);
    assert n.log[l.stamp].ref == r && n.log[l.stamp].data == Contents(n, r);
  }

  /** What a node must look like once it is back. */
  ghost predicate Recovered(p: Params, n: Node, mtime: Ref -> int) {
    && (forall t :: t in n.temps ==> !Incoming(t))
    && (forall r :: Visible(n, r) ==>
          exists i :: 0 <= i < |n.log| && n.log[i].ref == r && n.log[i].data == Contents(n, r)
                      && Passes(p, r, n.log[i].declared, n.log[i].data))
    && InStep(FilesOf(n, mtime), n.rows)
    && (forall r :: r in n.ledger ==> Visible(n, r) && SlotOf(n, r).now.value.stamp >= n.ledger[r])
  }

  /**
  Crash consistency: cut power after any prefix of any run, restart, and no
  partial upload is left, every visible object is whole and was checked, the
  index describes exactly the files on disk, and every write that reported
  itself durable and was not deleted is there, not older than it was. The loss
  and the restart are steps like any other, so the run can go on from there.
  */
  lemma PowerLossThenRestartRecovers(p: Params, steps: seq<Step>, after: Node, mtime: Ref -> int)
    requires Legal(p, EMPTY, steps)
    requires LosesPower(Exec(p, EMPTY, steps), after)
    ensures Recovered(p, Restarting(after, mtime), mtime)
    ensures Restarting(after, mtime).ledger == Exec(p, EMPTY, steps).ledger
    ensures var all := steps + [PowerLoss(after)] + [Restart(mtime)];
            Legal(p, EMPTY, all) && Exec(p, EMPTY, all) == Restarting(after, mtime)
  {
    ExecSnoc(p, EMPTY, steps, Exec(p, EMPTY, steps), PowerLoss(after));
    ExecSnoc(p, EMPTY, steps + [PowerLoss(after)], after, Restart(mtime));
    RunKeepsInv(p, EMPTY, steps);
    PowerLossKeepsInv(p, Exec(p, EMPTY, steps), after);
    RestartRecovers(p, after, mtime);
  }

  /** The same for a killed process, whose disk keeps everything it showed. */
  lemma KillThenRestartRecovers(p: Params, steps: seq<Step>, mtime: Ref -> int)
    requires Legal(p, EMPTY, steps)
    ensures var n := Exec(p, EMPTY, steps);
            var m := Restarting(n.(uploads := map[]), mtime);
            Recovered(p, m, mtime) && m.slots == n.slots
    ensures var all := steps + [Kill] + [Restart(mtime)];
            Legal(p, EMPTY, all) && Exec(p, EMPTY, all) == Restarting(Exec(p, EMPTY, steps).(uploads := map[]), mtime)
  {
    ExecSnoc(p, EMPTY, steps, Exec(p, EMPTY, steps), Kill);
    ExecSnoc(p, EMPTY, steps + [Kill], Exec(p, EMPTY, steps).(uploads := map[]), Restart(mtime));
    RunKeepsInv(p, EMPTY, steps);
    var n := Exec(p, EMPTY, steps);
    QuietStepKeepsInv(p, n, Kill);
    RestartRecovers(p, n.(uploads := map[]), mtime);
  }

  lemma RestartRecovers(p: Params, n: Node, mtime: Ref -> int)
    requires Inv(p, n) && n.uploads == map[]
    ensures Recovered(p, Restarting(n, mtime), mtime)
  {
    var m := Restarting(n, mtime);
    QuietStepKeepsInv(p, n, Restart(mtime));
    forall r | Visible(m, r)
      ensures exists i :: 0 <= i < |m.log| && m.log[i].ref == r && m.log[i].data == Contents(m, r)
                          && Passes(p, r, m.log[i].declared, m.log[i].data)
    {
      VisibleWasPublished(p, m, r);
    }
    assert FilesOf(m, mtime) == FilesOf(n, mtime);
    ReconcileIsExactAndIdempotent(FilesOf(n, mtime), n.rows);
    forall r | r in m.ledger ensures Visible(m, r) && SlotOf(m, r).now.value.stamp >= m.ledger[r] {
      assert Holds(SlotOf(m, r), m.ledger[r]);
      assert SlotOf(m, r).now in Candidates(SlotOf(m, r));
    }
  }

  // ---- Where the code promises more than it does ----

  /** The node that comes back when every name keeps its present value except r, which is lost. */
  ghost function Losing(n: Node, r: Ref): (m: Node) {
    n.(uploads := map[],
       slots := map q | q in n.slots && q != r ::
         Slot(match n.slots[q].now case None => None case Some(l) => Some(l.(inode := l.inode.(synced := true))), {}))
  }

  /** A name that is there whatever a power loss does. */
  ghost predicate Pinned(n: Node, r: Ref) {
    None !in Candidates(SlotOf(n, r))
  }

  lemma SurvivesIffPinned(n: Node, r: Ref)
    ensures (forall m :: LosesPower(n, m) ==> Visible(m, r)) <==> Pinned(n, r)
  {
    if !Pinned(n, r) {
      var m := Losing(n, r);
      forall q ensures Survives(SlotOf(n, q), SlotOf(m, q)) {
        if SlotOf(m, q).now.Some? {
          assert SlotOf(n, q).now in Candidates(SlotOf(n, q));
        }
      }
      assert LosesPower(n, m) && !Visible(m, r);
    } else {
      forall m | LosesPower(n, m) ensures Visible(m, r) {
        assert Survives(SlotOf(n, r), SlotOf(m, r));
      }
    }
  }

  /** A deletion is not synced: some power loss right after it brings the object back, whole. */
  lemma DeletionMayBeUndone(p: Params, n: Node, r: Ref) returns (after: Node)
    requires Inv(p, n) && Visible(n, r)
    ensures !Visible(After(p, n, Unlink(r)), r)
    ensures LosesPower(After(p, n, Unlink(r)), after) && Visible(after, r) && Contents(after, r) == Contents(n, r)
  {
    var m, l := After(p, n, Unlink(r)), SlotOf(n, r).now;
    assert l in Candidates(n.slots[r]) && LinkOk(n.log, r, l.value);
    after := Losing(m, r);
    after := after.(slots := after.slots[r := Slot(l, {})]);
    assert l in Candidates(SlotOf(m, r));
    forall q ensures Survives(SlotOf(m, q), SlotOf(after, q)) {
      if q != r && SlotOf(after, q).now.Some? {
        assert SlotOf(m, q).now in Candidates(SlotOf(m, q));
      }
    }
  }

  /**
  What one system call does to a name's safety, told from the call alone: a
  deletion ends it, a sync of its directory or a power loss decides it by whether
  the name is there, and nothing else changes it -- a rename does not grant it.
  */
  function PinnedNext(n: Node, was: bool, s: Step, r: Ref): (safe: bool) {
    match s
    case Unlink(q) => was && q != r
    case SyncDir(t) => if t in n.uploads && SameDir(r, n.uploads[t].ref) then Visible(n, r) else was
    case PowerLoss(after) => Visible(after, r)
    case _ => was
  }

  ghost function PinnedBy(p: Params, n: Node, was: bool, steps: seq<Step>, r: Ref): (safe: bool)
    requires Legal(p, n, steps)
    decreases |steps|
  {
    if |steps| == 0 then was
    else PinnedBy(p, After(p, n, steps[0]), PinnedNext(n, was, steps[0], r), steps[1..], r)
  }

  lemma StepPins(p: Params, n: Node, s: Step, r: Ref)
    requires Enabled(p, n, s)
    ensures Pinned(After(p, n, s), r) <==> PinnedNext(n, Pinned(n, r), s, r)
  {
    match s
    case SyncDir(t) => SyncNarrows(n, n.uploads[t].ref, r, After(p, n, s));
    case PowerLoss(after) => assert Survives(SlotOf(n, r), SlotOf(after, r));
    case _ =>
  }

  lemma {:induction false} RunPins(p: Params, n: Node, steps: seq<Step>, r: Ref)
    requires Legal(p, n, steps)
    ensures Pinned(Exec(p, n, steps), r) <==> PinnedBy(p, n, Pinned(n, r), steps, r)
    decreases |steps|
  {
    if |steps| > 0 {
      StepPins(p, n, steps[0], r);
      RunPins(p, After(p, n, steps[0]), steps[1..], r);
    }
  }

  /**
  After any run, an object survives every power loss exactly when, since its name
  was last deleted, its directory was synced -- or power was lost -- while the
  name was there. A Put answered from an existing CAS file reports Durable
  without checking this, or syncing anything.
  */
  lemma SurvivesEveryPowerLossIffSynced(p: Params, steps: seq<Step>, r: Ref)
    requires Legal(p, EMPTY, steps)
    ensures (forall m :: LosesPower(Exec(p, EMPTY, steps), m) ==> Visible(m, r)) <==> PinnedBy(p, EMPTY, false, steps, r)
  {
    RunPins(p, EMPTY, steps, r);
    SurvivesIffPinned(Exec(p, EMPTY, steps), r);
  }

  /** A visible object disappears only by being deleted, or in a power loss it was not safe from. */
  lemma VanishesOnlyBy(p: Params, n: Node, s: Step, r: Ref)
    requires Enabled(p, n, s) && Visible(n, r)
    ensures Visible(After(p, n, s), r) || s == Unlink(r) || (s.PowerLoss? && !Pinned(n, r))
  {
    match s
    case PowerLoss(after) => assert Survives(SlotOf(n, r), SlotOf(after, r));
    case _ =>
  }

  /** Once safe, an object stays safe until it is deleted. */
  lemma PinnedStays(p: Params, n: Node, s: Step, r: Ref)
    requires Enabled(p, n, s) && Pinned(n, r) && s != Unlink(r)
    ensures Pinned(After(p, n, s), r) && Visible(n, r)
  {
    StepPins(p, n, s, r);
    assert SlotOf(n, r).now in Candidates(SlotOf(n, r));
    match s
    case PowerLoss(after) => assert Survives(SlotOf(n, r), SlotOf(after, r));
    case _ =>
  }

  /** An upload keeps its name, and only a deletion of that name marks it deleted. */
  lemma OnlyUnlinkMarksDeleted(p: Params, n: Node, s: Step, t: string)
    requires Enabled(p, n, s) && !s.Begin? && t in After(p, n, s).uploads
    ensures t in n.uploads && After(p, n, s).uploads[t].ref == n.uploads[t].ref
    ensures After(p, n, s).uploads[t].deleted ==> n.uploads[t].deleted || s == Unlink(n.uploads[t].ref)
  {
  }

  /** An upload past its rename and not deleted since is there; one whose directory is synced is safe. */
  lemma LinkedIsVisible(p: Params, n: Node, t: string)
    requires Inv(p, n) && t in n.uploads && Linked(n.uploads[t]) && !n.uploads[t].deleted
    ensures Visible(n, n.uploads[t].ref)
    ensures n.uploads[t].phase == Settled(true) ==> Pinned(n, n.uploads[t].ref)
  {
    assert UploadOk(p, n, t);
  }

  // ---- What the cluster layer sees of a node ----

  /** The objects a node can serve. */
  ghost function Served(n: Node): (m: map<Ref, Bytes>) {
    map r | r in n.slots && n.slots[r].now.Some? :: n.slots[r].now.value.inode.data
  }

  ghost function PublishedPairs(n: Node): (s: set<(Ref, Bytes)>) {
    set i | 0 <= i < |n.log| :: (n.log[i].ref, n.log[i].data)
  }

  /**
  Seen from outside, every step either publishes one checked body or leaves the
  published set alone, and what is served is always drawn from it.
  */
  lemma StepSeenFromOutside(p: Params, n: Node, s: Step)
    requires Inv(p, n) && Enabled(p, n, s)
    ensures var m := After(p, n, s);
            && (forall r :: r in Served(m) ==> (r, Served(m)[r]) in PublishedPairs(m))
            && (m.log == n.log || exists r, d, declared :: ValidRef(r) && Passes(p, r, declared, d) && m.log == n.log + [Published(r, d, declared)])
  {
    var m := After(p, n, s);
    StepKeepsInv(p, n, s);
    forall r | r in Served(m) ensures (r, Served(m)[r]) in PublishedPairs(m) {
      var l := m.slots[r].now.value;
      assert Some(l) in Candidates(m.slots[r]);
      assert LinkOk(m.log, r, l);
      assert (m.log[l.stamp].ref, m.log[l.stamp].data) in PublishedPairs(m);
    }
    if s.Rename? {
      assert UploadOk(p, n, s.temp);
      var u := n.uploads[s.temp];
      assert m.log == n.log + [Published(u.ref, n.temps[s.temp].data, u.declared)];
    }
  }
}
