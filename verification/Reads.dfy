/**
Reading through any live node (internal/cluster/coordinator.go), on a cluster
whose nodes were given the same members and replica count.
*/
module ClusterReads {
  import opened Base
  import opened Sorting
  import opened Ring
  import opened Machine
  import opened Protocol
  import opened Coordination
  import C = Cluster

  /** The nodes place objects by rendezvous hashing on their own configurations. */
  ghost predicate PlacedBy(plan: C.Plan, h: Hashes, configs: map<string, Config>) {
    forall n, key :: n in configs ==> plan.place(n, key) == HolderNames(h, configs[n], key)
  }

  /** Every node has the same members and replica count, under its own name. */
  ghost predicate OneRing(configs: map<string, Config>, c: Config) {
    && ValidRing(c.ring)
    && forall n :: n in configs ==> configs[n].ring.members == c.ring.members && configs[n].replicas == c.replicas
                                    && configs[n].ring.self == n
  }

  /** The cluster's message rules are the coordinator's. */
  lemma EmitsWhatPutSends(plan: C.Plan, h: Hashes, configs: map<string, Config>, m: C.Msg, out: C.Msg)
    requires PlacedBy(plan, h, configs) && m.to in configs && configs[m.to].ring.self == m.to
    requires m.hop == HopClient || m.hop == HopCoordinator
    ensures C.Emits(plan, m, out) <==>
              out.ref == m.ref && Message(out.to, out.hop) in PutMessages(h, configs[m.to], m.ref.key, m.hop)
  {
    var c := configs[m.to];
    var holders := HolderNames(h, c, m.ref.key);
    assert plan.place(m.to, m.ref.key) == holders;
    var others := Others(holders, m.to);
    WithoutElements(holders, m.to);
    assert forall n :: n in others <==> n in Elements(others);
    assert forall n :: n in holders <==> n in Elements(holders);
    var sent := To(others, HopReplica);
    assert forall i :: 0 <= i < |others| ==> sent[i] == Message(others[i], HopReplica);
    if Message(out.to, out.hop) in sent {
      var i :| 0 <= i < |sent| && sent[i] == Message(out.to, out.hop);
      assert others[i] == out.to;
    }
    if out.to in others {
      var i :| 0 <= i < |others| && others[i] == out.to;
      assert sent[i] == Message(out.to, HopReplica);
    }
  }

  /** The cluster's rule for storing is hop dispatch's: every PUT but a client's at a node that is not a holder. */
  lemma StoresWhatPutStores(plan: C.Plan, h: Hashes, configs: map<string, Config>, m: C.Msg)
    requires PlacedBy(plan, h, configs) && m.to in configs
    ensures C.Stores(plan, m) <==> (m.hop == HopClient ==> m.to in HolderNames(h, configs[m.to], m.ref.key))
  {
    assert plan.place(m.to, m.ref.key) == HolderNames(h, configs[m.to], m.ref.key);
  }

  /** The cluster's rules for counting and acknowledging are what Coordinate does, in both directions. */
  method CoordinateInCluster(co: Coordinator, plan: C.Plan, configs: map<string, Config>, at: string, key: string,
                             local: LocalPut, reply: string -> Reply, order: seq<nat>) returns (a: PutAnswer)
    requires co.Valid() && PlacedBy(plan, co.h, configs) && at in configs && co.config == configs[at] && co.config.ring.self == at
    requires local.LocalStored? && Schedule(order, |Others(HolderNames(co.h, co.config, key), at)|)
    modifies co
    ensures forall n :: n in a.outcome.holders ==> C.MayCount(plan, at, key, n) && (n == at || reply(n) == Accepted)
    ensures forall n :: C.MayCount(plan, at, key, n) && (n == at || (co.hasPeers && reply(n) == Accepted)) ==> n in a.outcome.holders
    ensures a.Acked? <==> C.MayAck(plan, at, key, Elements(a.outcome.holders))
  {
    ghost var sent;
    a, sent := co.Coordinate(key, local, reply, order);
    AckMeansDistinctCopies(co.h, co.config, key, co.hasPeers, reply);
    assert plan.place(at, key) == HolderNames(co.h, co.config, key);
    assert a.outcome.holders[0] == at;
  }

  lemma SharedRing(plan: C.Plan, h: Hashes, configs: map<string, Config>, c: Config, names: set<string>)
    requires PlacedBy(plan, h, configs) && OneRing(configs, c) && names <= configs.Keys
    ensures C.Shared(plan, names, key => HolderNames(h, c, key))
  {
    forall n, key | n in names ensures plan.place(n, key) == HolderNames(h, c, key) {
      assert Owners(h, configs[n].ring, key) == Owners(h, c.ring, key);
    }
  }

  /** A node's answer to another node's read. */
  function AnswerOf(w: C.World, n: string, r: Ref): (a: ReadReply)
    requires n in w.nodes
  {
    if n !in w.up then Unreachable else if Visible(w.nodes[n], r) then Hit else Absent
  }

  function LocalAnswer(w: C.World, n: string, r: Ref): (a: LocalRead)
    requires n in w.nodes
  {
    if Visible(w.nodes[n], r) then LocalHit else LocalAbsent
  }

  /** A read through a node, begun at one moment of a run and ended at another: each peer answers from the state it is in when asked. */
  ghost predicate ReadDuring(ws: seq<C.World>, begin: nat, end: nat, front: string, r: Ref,
                             when: string -> nat, local: LocalRead, reply: string -> ReadReply) {
    && begin <= end < |ws|
    && front in ws[begin].nodes && local == LocalAnswer(ws[begin], front, r)
    && forall n :: n in ws[0].nodes ==>
         begin <= when(n) <= end && n in ws[when(n)].nodes && reply(n) == AnswerOf(ws[when(n)], n, r)
  }

  /** What Coordinator.Open promises a client read. */
  ghost predicate Opened(h: Hashes, c: Config, key: string, local: LocalRead, reply: string -> ReadReply, v: Verdict) {
    && (local == LocalHit ==> v == ServedLocally)
    && (local == LocalAbsent ==> FallbackVerdict(ReadOrder(h, c, key), reply, v))
  }

  /** Coordinator.Open on a client read, with a local store that can be read, gives such a verdict. */
  method OpenInCluster(co: Coordinator, key: string, local: LocalRead, reply: string -> ReadReply) returns (v: Verdict)
    requires co.Valid() && co.hasPeers && local != LocalError
    modifies co
    ensures Opened(co.h, co.config, key, local, reply, v)
  {
    ghost var asked;
    v, asked := co.Open(key, HopClient, local, reply);
  }

  /** Among more confirmed copies than nodes that are missing, one is not. */
  lemma SomeCopyIsUp(stored: set<string>, missing: set<string>) returns (n: string)
    requires |missing| < |stored|
    ensures n in stored && n !in missing
  {
    if stored <= missing {
      SubsetSize(stored, missing);
    }
    n :| n in stored && n !in missing;
  }

  /**
  Between the start of a PUT and a moment, a node kept what it answered for: it
  did not delete or evict the object, and no power loss took it. Of a copy whose
  directory was synced before it answered, only the first is asked.
  */
  ghost predicate Kept(ws: seq<C.World>, acts: seq<C.Act>, id: nat, n: string, r: Ref, start: nat, begin: nat, at: nat) {
    && C.NeverDeletes(acts, n, r, start, at)
    && (SyncedBeforeAnswering(ws, acts, id, n, begin) || C.NeverLosesInPowerLoss(ws, acts, n, r, start, at))
  }

  /** Before a moment, the node answered from an upload whose directory it had synced. */
  ghost predicate SyncedBeforeAnswering(ws: seq<C.World>, acts: seq<C.Act>, id: nat, n: string, begin: nat) {
    exists k, t :: 0 <= k < begin && k < |acts| && k < |ws| && acts[k] == C.Confirm(id, n, Some(t))
                   && n in ws[k].nodes && t in ws[k].nodes[n].uploads && ws[k].nodes[n].uploads[t].phase == Settled(true)
  }

  /** A confirmed copy that was kept is there: every other step of the node, and every step of the others, leaves it. */
  lemma ConfirmedCopyIsThere(plan: C.Plan, ws: seq<C.World>, acts: seq<C.Act>, id: nat, start: nat, begin: nat, at: nat, n: string)
    requires C.Run(plan, ws, acts) && C.Initial(ws[0]) && start <= begin <= at < |ws| && id !in ws[start].puts
    requires id in ws[begin].puts && n in ws[begin].puts[id].stored
    requires C.NeverDeletes(acts, n, ws[begin].puts[id].ref, start, at)
    requires C.NeverLosesInPowerLoss(ws, acts, n, ws[begin].puts[id].ref, start, at)
    ensures n in ws[at].nodes && Visible(ws[at].nodes[n], ws[begin].puts[id].ref)
  {
    var k, t := C.ConfirmedOnce(plan, ws, acts, id, n, begin);
    StartsLater(plan, ws, acts, id, start, k);
    C.AnswerMeansVisible(plan, ws, acts, id, n, start, k, t);
    C.StaysVisible(plan, ws, acts, n, ws[begin].puts[id].ref, k, at);
  }

  /** A copy confirmed from a synced directory is there unless it was deleted, whatever power losses came since. */
  lemma DurableCopiesOutlivePowerLoss(plan: C.Plan, ws: seq<C.World>, acts: seq<C.Act>, id: nat, start: nat, k: nat, t: string, at: nat, n: string)
    requires C.Run(plan, ws, acts) && C.Initial(ws[0]) && start <= k < at < |ws| && id !in ws[start].puts
    requires acts[k] == C.Confirm(id, n, Some(t)) && n in ws[k].nodes && t in ws[k].nodes[n].uploads
    requires ws[k].nodes[n].uploads[t].phase == Settled(true)
    requires C.NeverDeletes(acts, n, ws[k].puts[id].ref, start, at)
    ensures n in ws[at].nodes && Visible(ws[at].nodes[n], ws[k].puts[id].ref)
  {
    C.AnswerMeansVisible(plan, ws, acts, id, n, start, k, Some(t));
    C.StaysPinned(plan, ws, acts, n, ws[k].puts[id].ref, k, at);
  }

  lemma StartsLater(plan: C.Plan, ws: seq<C.World>, acts: seq<C.Act>, id: nat, start: nat, k: nat)
    requires C.Run(plan, ws, acts) && start < |ws| && k < |ws| && id !in ws[start].puts && id in ws[k].puts
    ensures start < k
  {
    if k <= start {
      C.PutsOnlyGrow(plan, ws, acts, id, k, start);
    }
  }

  /** A copy that was kept, however it was confirmed, is there. */
  lemma KeptCopyIsThere(plan: C.Plan, ws: seq<C.World>, acts: seq<C.Act>, id: nat, start: nat, begin: nat, at: nat, n: string)
    requires C.Run(plan, ws, acts) && C.Initial(ws[0]) && start <= begin <= at < |ws| && id !in ws[start].puts
    requires id in ws[begin].puts && n in ws[begin].puts[id].stored
    requires SyncedBeforeAnswering(ws, acts, id, n, begin) || C.NeverLosesInPowerLoss(ws, acts, n, ws[begin].puts[id].ref, start, at)
    requires C.NeverDeletes(acts, n, ws[begin].puts[id].ref, start, at)
    ensures n in ws[at].nodes && Visible(ws[at].nodes[n], ws[begin].puts[id].ref)
  {
    if SyncedBeforeAnswering(ws, acts, id, n, begin) {
      var k, t :| 0 <= k < begin && k < |acts| && k < |ws| && acts[k] == C.Confirm(id, n, Some(t))
                  && n in ws[k].nodes && t in ws[k].nodes[n].uploads && ws[k].nodes[n].uploads[t].phase == Settled(true);
      StartsLater(plan, ws, acts, id, start, k);
      C.PutsOnlyGrow(plan, ws, acts, id, k, begin);
      DurableCopiesOutlivePowerLoss(plan, ws, acts, id, start, k, t, at, n);
    } else {
      ConfirmedCopyIsThere(plan, ws, acts, id, start, begin, at, n);
    }
  }

  /**
  Once a PUT is acknowledged, a read through any node finds the object as long as
  fewer nodes are missing than copies were wanted. A node is missing if it is
  down when asked, or deleted or evicted the object since the PUT began, or had
  not synced it when it answered and then lost it in a power loss. Which nodes
  those are, what the others do, and when each peer is asked does not matter.
  */
  lemma AcknowledgedPutsStayReadable(plan: C.Plan, h: Hashes, configs: map<string, Config>, c: Config,
                                     ws: seq<C.World>, acts: seq<C.Act>, id: nat, start: nat, begin: nat, end: nat,
                                     front: string, missing: set<string>, when: string -> nat,
                                     local: LocalRead, reply: string -> ReadReply, v: Verdict)
    requires C.Run(plan, ws, acts) && C.Initial(ws[0]) && start <= begin <= end < |ws|
    requires PlacedBy(plan, h, configs) && OneRing(configs, c) && ws[0].nodes.Keys <= configs.Keys && front in configs
    requires id !in ws[start].puts && id in ws[begin].puts && ws[begin].puts[id].acked
    requires ReadDuring(ws, begin, end, front, ws[begin].puts[id].ref, when, local, reply)
    requires |missing| < |HolderNames(h, c, ws[begin].puts[id].ref.key)|
    requires forall n :: n in HolderNames(h, c, ws[begin].puts[id].ref.key) && n in ws[0].nodes && n !in missing ==>
               n in ws[when(n)].up && Kept(ws, acts, id, n, ws[begin].puts[id].ref, start, begin, when(n))
    requires Opened(h, configs[front], ws[begin].puts[id].ref.key, local, reply, v)
    ensures v.ServedLocally? || v.ServedBy?
  {
    var u := ws[begin].puts[id];
    var holders := key => HolderNames(h, c, key);
    SharedRing(plan, h, configs, c, ws[0].nodes.Keys);
    HoldersAreDistinctMembers(h, c.ring, u.ref.key, c.replicas);
    C.AckedPutsAreOnEveryHolder(plan, holders, ws, acts, begin, id);
    C.SameNodes(plan, ws, acts, begin);
    DistinctSize(holders(u.ref.key));
    var n := SomeCopyIsUp(u.stored, missing);
    assert n in holders(u.ref.key) && n in ws[0].nodes;
    assert Kept(ws, acts, id, n, u.ref, start, begin, when(n));
    KeptCopyIsThere(plan, ws, acts, id, start, begin, when(n), n);
    if n == front {
      KeptCopyIsThere(plan, ws, acts, id, start, begin, begin, n);
    } else if local == LocalAbsent {
      var order := ReadOrder(h, configs[front], u.ref.key);
      ReadOrderIsEveryOther(h, configs[front], u.ref.key);
      assert n in Elements(Names(Holders(h, c.ring, u.ref.key, c.replicas)));
      assert n in Elements(Names(c.ring.members));
      assert n in order && reply(n) == Hit;
      HitIffSomeoneHasIt(order, reply, v);
    }
  }

  /**
  The bound is exact: with every holder down, no read of the object succeeds
  elsewhere -- and none reports it missing either, only unreachable.
  */
  lemma DownHoldersAreNotAMiss(plan: C.Plan, h: Hashes, configs: map<string, Config>, c: Config,
                               ws: seq<C.World>, acts: seq<C.Act>, begin: nat, end: nat, r: Ref,
                               front: string, when: string -> nat,
                               local: LocalRead, reply: string -> ReadReply, v: Verdict)
    requires C.Run(plan, ws, acts) && C.Initial(ws[0]) && begin <= end < |ws|
    requires PlacedBy(plan, h, configs) && OneRing(configs, c) && front in configs
    requires ws[0].nodes.Keys <= configs.Keys && forall n :: n in Names(c.ring.members) ==> n in ws[0].nodes
    requires ReadDuring(ws, begin, end, front, r, when, local, reply)
    requires forall n :: n in HolderNames(h, c, r.key) ==> n != front && n in ws[0].nodes && n !in ws[when(n)].up
    requires Opened(h, configs[front], r.key, local, reply, v)
    ensures v == AllUnreachable
  {
    var holders := key => HolderNames(h, c, key);
    SharedRing(plan, h, configs, c, ws[0].nodes.Keys);
    var order := ReadOrder(h, configs[front], r.key);
    ReadOrderIsEveryOther(h, configs[front], r.key);
    OnlyHoldersAnswer(plan, holders, ws, acts, begin, front, r);
    forall n | n in order ensures reply(n) != Hit {
      assert n in ws[0].nodes;
      if n !in HolderNames(h, c, r.key) {
        OnlyHoldersAnswer(plan, holders, ws, acts, when(n), n, r);
      }
    }
    HoldersAreDistinctMembers(h, c.ring, r.key, c.replicas);
    var n := HolderNames(h, c, r.key)[0];
    assert n in HolderNames(h, c, r.key);
    assert n in Elements(Names(c.ring.members));
    assert n in order && reply(n) == Unreachable;
    HitIffSomeoneHasIt(order, reply, v);
  }

  lemma OnlyHoldersAnswer(plan: C.Plan, holders: string -> seq<string>, ws: seq<C.World>, acts: seq<C.Act>, i: nat, n: string, r: Ref)
    requires C.Run(plan, ws, acts) && C.Initial(ws[0]) && C.Shared(plan, ws[0].nodes.Keys, holders) && i < |ws|
    requires n in ws[i].nodes && n !in holders(r.key)
    ensures !Visible(ws[i].nodes[n], r)
  {
    if Visible(ws[i].nodes[n], r) {
      C.CopiesAreOnHolders(plan, holders, ws, acts, i, n, r);
    }
  }
}
