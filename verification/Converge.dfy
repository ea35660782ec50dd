/**
Convergence (internal/repair/repair.go): while nothing is deleted, lost or
declined, one full sweep of every node's worker leaves every object on exactly
its holders.
*/
module Convergence {
  import opened Base
  import opened Rows
  import opened Sorting
  import opened Ring
  import opened Protocol
  import opened Machine
  import opened ClusterReads
  import C = Cluster
  import R = Repair
  import Coordination
  import MetadataIndex

  // ---- Nothing is removed ----

  /** The act takes a file, or the row of one, away. */
  predicate Removes(w: C.World, a: C.Act) {
    a.Internal? && (a.step.Unlink? || a.step.PowerLoss?
                    || (a.step.Reindex? && a.at in w.nodes && !(w.nodes[a.at].rows.Keys <= a.step.rows.Keys)))
  }

  ghost predicate Quiet(ws: seq<C.World>, acts: seq<C.Act>, i: nat, j: nat) {
    forall k :: i <= k < j && k < |acts| && k < |ws| ==> !Removes(ws[k], acts[k])
  }

  /** The object is there and the index lists it. */
  predicate Indexed(w: C.World, n: string, r: Ref) {
    n in w.nodes && Visible(w.nodes[n], r) && r in w.nodes[n].rows
  }

  lemma StepKeepsRow(p: Params, n: Node, s: Step, r: Ref)
    requires Enabled(p, n, s) && Visible(n, r) && r in n.rows
    requires !s.Unlink? && !s.PowerLoss? && (s.Reindex? ==> n.rows.Keys <= s.rows.Keys)
    ensures r in After(p, n, s).rows
  {
    match s
    case Restart(mtime) => assert r in FilesOf(n, mtime);
    case _ =>
  }

  lemma ActKeepsIndexed(plan: C.Plan, w: C.World, a: C.Act, n: string, r: Ref)
    requires C.Can(plan, w, a) && Indexed(w, n, r) && !Removes(w, a)
    ensures Indexed(C.Do(plan, w, a), n, r)
  {
    C.ActLeavesVisible(plan, w, a, n, r);
    match a
    case Internal(m, s) =>
      if m == n {
        StepKeepsRow(plan.p, w.nodes[n], s, r);
      }
    case _ =>
  }

  lemma {:induction false} StaysIndexed(plan: C.Plan, ws: seq<C.World>, acts: seq<C.Act>, n: string, r: Ref, i: nat, j: nat)
    requires C.Run(plan, ws, acts) && i <= j < |ws| && Indexed(ws[i], n, r) && Quiet(ws, acts, i, j)
    ensures Indexed(ws[j], n, r)
  {
    if i < j {
      StaysIndexed(plan, ws, acts, n, r, i, j - 1);
      StepKeepsIndexed(plan, ws, acts, n, r, j - 1);
    }
  }

  lemma StepKeepsIndexed(plan: C.Plan, ws: seq<C.World>, acts: seq<C.Act>, n: string, r: Ref, i: nat)
    requires C.Run(plan, ws, acts) && i < |acts| && Indexed(ws[i], n, r) && !Removes(ws[i], acts[i])
    ensures Indexed(ws[i + 1], n, r)
  {
    ActKeepsIndexed(plan, ws[i], acts[i], n, r);
  }

  lemma QuietKeepsVisible(plan: C.Plan, ws: seq<C.World>, acts: seq<C.Act>, n: string, r: Ref, i: nat, k: nat, j: nat)
    requires C.Run(plan, ws, acts) && i <= k <= j < |ws| && Quiet(ws, acts, i, j) && n in ws[k].nodes && Visible(ws[k].nodes[n], r)
    ensures n in ws[j].nodes && Visible(ws[j].nodes[n], r)
  {
    C.StaysVisible(plan, ws, acts, n, r, k, j);
  }

  // ---- One node's sweep, as its worker reports it ----

  /** What Worker.Sweep was given and what came of it. */
  datatype NodeSweep = NodeSweep(
    ours: Ref -> bool,
    holders: string -> seq<string>,
    pageRead: (nat, nat) -> Option<Rows.Table>,
    local: Ref -> Option<nat>,
    visit: (Ref, string) -> R.Visit,
    log: R.Log,
    visited: set<(Ref, string)>)

  /** Worker's constructor and Worker.Sweep ensure this. */
  ghost predicate SweptBy(h: Hashes, c: Config, s: NodeSweep) {
    && (forall key :: s.holders(key) == HolderNames(h, c, key))
    && (forall r :: s.ours(r) <==> c.ring.self in HolderNames(h, c, r.key))
    && R.SweptAll(s.ours, s.holders, c.ring.self, s.pageRead, s.local, s.log, s.visited)
  }

  /** At some moment of the window the node has the object. */
  ghost predicate SeenAt(ws: seq<C.World>, n: string, r: Ref, i: nat, j: nat) {
    exists k :: i <= k <= j && k < |ws| && n in ws[k].nodes && Visible(ws[k].nodes[n], r)
  }

  /** At some moment of the window the node has an upload of the object past its directory sync, not deleted since its rename. */
  ghost predicate SettledIn(ws: seq<C.World>, n: string, r: Ref, i: nat, j: nat) {
    exists k, t :: i <= k <= j && k < |ws| && n in ws[k].nodes && t in ws[k].nodes[n].uploads
                   && ws[k].nodes[n].uploads[t].ref == r && ws[k].nodes[n].uploads[t].phase.Settled? && !ws[k].nodes[n].uploads[t].deleted
  }

  /**
  Why a holder answers yes. To a question: it finds the file. To a copy: its Put
  got past the directory sync, or a content-addressed file was there already.
  */
  ghost predicate AnsweredYes(ws: seq<C.World>, n: string, r: Ref, v: R.Visit, i: nat, j: nat) {
    || (v == R.AlreadyThere && SeenAt(ws, n, r, i, j))
    || (v == R.Sent(Coordination.Accepted) && (SettledIn(ws, n, r, i, j) || (ContentAddressed(r.ns) && SeenAt(ws, n, r, i, j))))
  }

  ghost predicate PageIsRows(ws: seq<C.World>, n: string, t: Rows.Table, i: nat, j: nat) {
    exists k :: i <= k <= j && k < |ws| && n in ws[k].nodes && t == ws[k].nodes[n].rows
  }

  /** The sweep took place between two moments of a run: it read this node's rows and files, and every visit succeeded. */
  ghost predicate TookPlace(ws: seq<C.World>, acts: seq<C.Act>, n: string, s: NodeSweep, i: nat, j: nat) {
    && |ws| > 0
    && (forall pass: nat, k: nat :: s.pageRead(pass, k).Some? ==> PageIsRows(ws, n, s.pageRead(pass, k).value, i, j))
    && (forall r :: s.local(r).None? ==> LackedAt(ws, n, r, i, j))
    && (forall r, to :: (r, to) in s.visited && to in ws[0].nodes ==> AnsweredYes(ws, to, r, s.visit(r, to), i, j))
  }

  ghost predicate LackedAt(ws: seq<C.World>, n: string, r: Ref, i: nat, j: nat) {
    exists k :: i <= k <= j && k < |ws| && n in ws[k].nodes && !Visible(ws[k].nodes[n], r)
  }

  /** A row that was there throughout the window was in every page the sweep read. */
  lemma IndexedIsSteady(plan: C.Plan, ws: seq<C.World>, acts: seq<C.Act>, n: string, s: NodeSweep, r: Ref, i: nat, j: nat)
    requires C.Run(plan, ws, acts) && i <= j < |ws| && Quiet(ws, acts, i, j) && Indexed(ws[i], n, r) && ValidRef(r)
    requires TookPlace(ws, acts, n, s, i, j) && R.ReadFromAny(s.pageRead, s.log)
    ensures R.Steady(s.log, r) && s.local(r).Some?
  {
    R.StoredRefsAreAfterStart(r);
    forall q | 0 <= q < |s.log.seen| ensures r in s.log.seen[q] {
      assert R.SomeRead(s.pageRead, s.log.seen[q]);
      var pass: nat, k: nat :| s.pageRead(pass, k) == Some(s.log.seen[q]);
      assert PageIsRows(ws, n, s.pageRead(pass, k).value, i, j);
      var x :| i <= x <= j && x < |ws| && n in ws[x].nodes && s.log.seen[q] == ws[x].nodes[n].rows;
      StaysIndexed(plan, ws, acts, n, r, i, x);
    }
    if s.local(r).None? {
      assert LackedAt(ws, n, r, i, j);
      var x :| i <= x <= j && x < |ws| && n in ws[x].nodes && !Visible(ws[x].nodes[n], r);
      StaysIndexed(plan, ws, acts, n, r, i, x);
    }
  }

  /** A holder that answered yes has the object at the end. */
  lemma VisitedHasIt(plan: C.Plan, ws: seq<C.World>, acts: seq<C.Act>, n: string, r: Ref, v: R.Visit, i: nat, j: nat)
    requires C.Run(plan, ws, acts) && C.Initial(ws[0]) && i <= j < |ws| && Quiet(ws, acts, i, j) && AnsweredYes(ws, n, r, v, i, j)
    ensures n in ws[j].nodes && Visible(ws[j].nodes[n], r)
  {
    YesMeansSeen(plan, ws, acts, n, r, v, i, j);
    var k :| i <= k <= j && k < |ws| && n in ws[k].nodes && Visible(ws[k].nodes[n], r);
    QuietKeepsVisible(plan, ws, acts, n, r, i, k, j);
  }

  /** An upload that got past its directory sync undeleted is visible, by the store's invariant. */
  lemma YesMeansSeen(plan: C.Plan, ws: seq<C.World>, acts: seq<C.Act>, n: string, r: Ref, v: R.Visit, i: nat, j: nat)
    requires C.Run(plan, ws, acts) && C.Initial(ws[0]) && i <= j < |ws| && AnsweredYes(ws, n, r, v, i, j)
    ensures SeenAt(ws, n, r, i, j)
  {
    if SettledIn(ws, n, r, i, j) {
      var k, t :| i <= k <= j && k < |ws| && n in ws[k].nodes && t in ws[k].nodes[n].uploads
                  && ws[k].nodes[n].uploads[t].ref == r && ws[k].nodes[n].uploads[t].phase.Settled? && !ws[k].nodes[n].uploads[t].deleted;
      C.RunsStaySound(plan, ws, acts, k);
      LinkedIsVisible(plan.p, ws[k].nodes[n], t);
    }
  }

  /**
  One sweep of every node's worker, in any run of the cluster during which nothing
  is removed: whatever order the passes, visits and uploads come in, and whatever
  else is written meanwhile, every object that was somewhere at the start is, at
  the end, on exactly its holders -- and content-addressed copies are intact.
  */
  lemma OneSweepConverges(plan: C.Plan, h: Hashes, configs: map<string, Config>, c: Config, ws: seq<C.World>, acts: seq<C.Act>,
                          i: nat, j: nat, sweeps: map<string, NodeSweep>, n: string, r: Ref, to: string)
    requires C.Run(plan, ws, acts) && C.Initial(ws[0]) && i <= j < |ws| && Quiet(ws, acts, i, j)
    requires PlacedBy(plan, h, configs) && OneRing(configs, c) && ws[0].nodes.Keys <= configs.Keys && ws[0].nodes.Keys == sweeps.Keys
    requires forall m :: m in sweeps ==> SweptBy(h, configs[m], sweeps[m]) && TookPlace(ws, acts, m, sweeps[m], i, j)
    requires Indexed(ws[i], n, r) && to in ws[j].nodes
    ensures Visible(ws[j].nodes[to], r) <==> to in HolderNames(h, c, r.key)
    ensures Visible(ws[j].nodes[to], r) && r.ns == CAS ==> plan.p.digest(Contents(ws[j].nodes[to], r)) == r.key
  {
    var holders := key => HolderNames(h, c, key);
    SharedRing(plan, h, configs, c, ws[0].nodes.Keys);
    C.SameNodes(plan, ws, acts, i);
    C.SameNodes(plan, ws, acts, j);
    if Visible(ws[j].nodes[to], r) {
      C.CopiesAreOnHolders(plan, holders, ws, acts, j, to, r);
      if r.ns == CAS {
        C.EveryCasCopyMatchesItsKey(plan, ws, acts, j, to, r.key);
      }
    }
    if to in HolderNames(h, c, r.key) {
      EveryHolderHasIt(plan, h, configs, c, ws, acts, i, j, sweeps[n], n, r, to);
    }
  }

  lemma EveryHolderHasIt(plan: C.Plan, h: Hashes, configs: map<string, Config>, c: Config, ws: seq<C.World>, acts: seq<C.Act>,
                         i: nat, j: nat, s: NodeSweep, n: string, r: Ref, to: string)
    requires C.Run(plan, ws, acts) && C.Initial(ws[0]) && i <= j < |ws| && Quiet(ws, acts, i, j)
    requires PlacedBy(plan, h, configs) && OneRing(configs, c) && ws[0].nodes.Keys <= configs.Keys && n in configs && to in ws[0].nodes
    requires SweptBy(h, configs[n], s) && TookPlace(ws, acts, n, s, i, j)
    requires Indexed(ws[i], n, r) && to in HolderNames(h, c, r.key)
    ensures to in ws[j].nodes && Visible(ws[j].nodes[to], r)
  {
    var holders := key => HolderNames(h, c, key);
    SharedRing(plan, h, configs, c, ws[0].nodes.Keys);
    SharedRing(plan, h, configs, c, {n});
    C.CopiesAreOnHolders(plan, holders, ws, acts, i, n, r);
    C.RunsStaySound(plan, ws, acts, i);
    VisibleWasPublished(plan.p, ws[i].nodes[n], r);
    if to == n {
      QuietKeepsVisible(plan, ws, acts, n, r, i, i, j);
    } else {
      IndexedIsSteady(plan, ws, acts, n, s, r, i, j);
      assert plan.place(n, r.key) == HolderNames(h, configs[n], r.key) == HolderNames(h, c, r.key);
      SweepVisits(h, configs[n], s, r, to);
      VisitedHasIt(plan, ws, acts, to, r, s.visit(r, to), i, j);
    }
  }

  /** A sweep visits every other holder of a steady row that is this node's. */
  lemma SweepVisits(h: Hashes, c: Config, s: NodeSweep, r: Ref, to: string)
    requires SweptBy(h, c, s) && R.Steady(s.log, r) && s.local(r).Some?
    requires c.ring.self in HolderNames(h, c, r.key) && to in HolderNames(h, c, r.key) && to != c.ring.self
    ensures (r, to) in s.visited
  {
    assert s.ours(r) && R.Queued(s.log, r);
    WithoutElements(s.holders(r.key), c.ring.self);
    assert to in Elements(Others(s.holders(r.key), c.ring.self));
  }

  /** A worker built for a node and swept to the end gives such a record; enough passes without a failing read get there. */
  method SweepAsNode(h: Hashes, config: Config, index: MetadataIndex.Index, queueSize: int, auditBudget: int,
                     pageRead: (nat, nat) -> Option<Rows.Table>, took: (nat, nat, nat) -> nat,
                     local: Ref -> Option<nat>, visit: (Ref, string) -> R.Visit, passes: nat, ghost keys: set<Ref>)
    returns (done: bool, ghost s: NodeSweep)
    modifies index`rows
    ensures |config.ring.members| >= 2 && config.replicas >= 2 && R.Bounded(pageRead, keys) && passes > |keys| ==> done
    ensures done ==> SweptBy(h, config, s) && s.pageRead == pageRead && s.local == local && s.visit == visit
  {
    var w := new R.Worker(h, config, index, queueSize, auditBudget);
    var visited;
    ghost var swept;
    visited, done, swept := w.Sweep(pageRead, took, local, visit, passes, keys);
    s := NodeSweep(w.ours, w.holders, pageRead, local, visit, swept, visited);
  }
}
