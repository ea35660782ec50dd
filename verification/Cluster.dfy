/**
The whole cluster: every node runs the store machine, and PUTs travel between
nodes as the coordinator (internal/cluster/coordinator.go) and the repair worker
(internal/repair/repair.go) send them. Messages may be lost, repeated or late,
bodies may arrive altered, and nodes may crash, evict and go down at any moment.
*/
module Cluster {
  import opened Base
  import opened Sorting
  import opened Machine
  import opened Protocol

  /** A PUT as the receiving node decodes it. */
  datatype Msg = Msg(to: string, hop: Hop, ref: Ref)

  /** A PUT being coordinated: where, and which nodes answered that they stored it. */
  datatype Put = Put(at: string, ref: Ref, stored: set<string>, acked: bool)

  /** The stores' parameters, and the holders each node computes for a key. */
  datatype Plan = Plan(p: Params, place: (string, string) -> seq<string>)

  /** serving says which PUT an upload, named by node and temporary, was begun for. */
  datatype World = World(
    nodes: map<string, Node>,
    up: set<string>,
    msgs: set<Msg>,
    puts: map<nat, Put>,
    serving: map<(string, string), nat>)

  datatype Act =
    | Client(to: string, ref: Ref)
    | Forward(msg: Msg, out: Msg)
    | Repair(at: string, out: Msg)
    | Accept(msg: Msg, temp: string, declared: int, put: Option<nat>)
    | Internal(at: string, step: Step)
    | Fail(at: string)
    | Rejoin(at: string)
    | Start(id: nat, msg: Msg)
    | Confirm(id: nat, node: string, upload: Option<string>)
    | Ack(id: nat)

  /** The receiver coordinates: it was told to, or a client reached a holder. */
  predicate Coordinates(plan: Plan, m: Msg) {
    m.hop == HopCoordinator || (m.hop == HopClient && m.to in plan.place(m.to, m.ref.key))
  }

  /** The receiver stores the body itself. */
  predicate Stores(plan: Plan, m: Msg) {
    Coordinates(plan, m) || Terminal(m.hop)
  }

  /** What serving a PUT may send on: replicas from a coordinator, the whole PUT from a front door. */
  predicate Emits(plan: Plan, m: Msg, out: Msg) {
    var holders := plan.place(m.to, m.ref.key);
    && out.ref == m.ref
    && if Coordinates(plan, m) then out.hop == HopReplica && out.to in holders && out.to != m.to
       else m.hop == HopClient && |holders| > 0 && out.to == holders[0] && out.hop == HopCoordinator
  }

  /** A node's grounds for answering that it stored an object: the PUT's own upload is past its rename, or a content-addressed file is there. */
  predicate HasStored(w: World, id: nat, n: string, r: Ref, upload: Option<string>)
    requires n in w.nodes
  {
    var node := w.nodes[n];
    match upload
    case Some(t) =>
      && (n, t) in w.serving && w.serving[(n, t)] == id
      && t in node.uploads && node.uploads[t].ref == r && node.uploads[t].phase.Settled?
    case None => ContentAddressed(r.ns) && Visible(node, r)
  }

  /** The nodes a coordinator counts: itself and the holders it replicates to. */
  predicate MayCount(plan: Plan, at: string, key: string, n: string) {
    n == at || n in plan.place(at, key)
  }

  /** It acknowledges once it has stored the object itself and counts as many nodes as it wants copies. */
  predicate MayAck(plan: Plan, at: string, key: string, stored: set<string>) {
    at in stored && |stored| >= |plan.place(at, key)|
  }

  ghost predicate Can(plan: Plan, w: World, a: Act) {
    match a
    case Client(to, r) => to in w.nodes
    case Forward(m, out) => m in w.msgs && m.to in w.nodes && Emits(plan, m, out)
    case Repair(n, out) =>
      && n in w.nodes && out.hop == HopRepair && Visible(w.nodes[n], out.ref)
      && out.to in plan.place(n, out.ref.key) && out.to != n
    case Accept(m, t, declared, put) =>
      && m in w.msgs && m.to in w.nodes && Stores(plan, m) && Enabled(plan.p, w.nodes[m.to], Begin(t, m.ref, declared))
      && (put.Some? ==> put.value in w.puts && w.puts[put.value].ref == m.ref)
    case Internal(n, s) => n in w.nodes && !s.Begin? && Enabled(plan.p, w.nodes[n], s)
    case Fail(n) => n in w.nodes
    case Rejoin(n) => n in w.nodes
    case Start(id, m) => id !in w.puts && m in w.msgs && m.to in w.nodes && Coordinates(plan, m)
    case Confirm(id, n, t) =>
      && id in w.puts && n in w.nodes && HasStored(w, id, n, w.puts[id].ref, t)
      && MayCount(plan, w.puts[id].at, w.puts[id].ref.key, n)
    case Ack(id) => id in w.puts && MayAck(plan, w.puts[id].at, w.puts[id].ref.key, w.puts[id].stored)
  }

  function Serves(serving: map<(string, string), nat>, n: string, t: string, put: Option<nat>): (v: map<(string, string), nat>) {
    if put.Some? then serving[(n, t) := put.value] else serving - {(n, t)}
  }

  ghost function Do(plan: Plan, w: World, a: Act): (v: World)
    requires Can(plan, w, a)
  {
    match a
    case Client(to, r) => w.(msgs := w.msgs + {Msg(to, HopClient, r)})
    case Forward(_, out) => w.(msgs := w.msgs + {out})
    case Repair(_, out) => w.(msgs := w.msgs + {out})
    case Accept(m, t, declared, put) =>
      w.(nodes := w.nodes[m.to := After(plan.p, w.nodes[m.to], Begin(t, m.ref, declared))],
         serving := Serves(w.serving, m.to, t, put))
    case Internal(n, s) => w.(nodes := w.nodes[n := After(plan.p, w.nodes[n], s)])
    case Fail(n) => w.(up := w.up - {n})
    case Rejoin(n) => w.(up := w.up + {n})
    case Start(id, m) => w.(puts := w.puts[id := Put(m.to, m.ref, {}, false)])
    case Confirm(id, n, t) => w.(puts := w.puts[id := w.puts[id].(stored := w.puts[id].stored + {n})])
    case Ack(id) => w.(puts := w.puts[id := w.puts[id].(acked := true)])
  }

  /** Any number of nodes, nothing stored anywhere, nothing sent. */
  ghost predicate Initial(w: World) {
    (forall n :: n in w.nodes ==> w.nodes[n] == EMPTY) && w.msgs == {} && w.puts == map[] && w.serving == map[]
  }

  ghost predicate Run(plan: Plan, ws: seq<World>, acts: seq<Act>) {
    && |ws| == |acts| + 1
    && forall i :: 0 <= i < |acts| ==> Can(plan, ws[i], acts[i]) && ws[i + 1] == Do(plan, ws[i], acts[i])
  }

  // ---- Integrity: whatever the rings say ----

  ghost predicate Sound(plan: Plan, w: World) {
    forall n :: n in w.nodes ==> Inv(plan.p, w.nodes[n])
  }

  lemma ActKeepsSound(plan: Plan, w: World, a: Act)
    requires Sound(plan, w) && Can(plan, w, a)
    ensures Sound(plan, Do(plan, w, a))
  {
    match a
    case Accept(m, t, declared, _) => StepKeepsInv(plan.p, w.nodes[m.to], Begin(t, m.ref, declared));
    case Internal(n, s) => StepKeepsInv(plan.p, w.nodes[n], s);
    case _ =>
  }

  /** No act adds or removes a node. */
  lemma {:induction false} SameNodes(plan: Plan, ws: seq<World>, acts: seq<Act>, i: nat)
    requires Run(plan, ws, acts) && i < |ws|
    ensures ws[i].nodes.Keys == ws[0].nodes.Keys
  {
    if i > 0 {
      SameNodes(plan, ws, acts, i - 1);
    }
  }

  lemma {:induction false} RunsStaySound(plan: Plan, ws: seq<World>, acts: seq<Act>, i: nat)
    requires Run(plan, ws, acts) && Initial(ws[0]) && i < |ws|
    ensures Sound(plan, ws[i]) && ws[i].nodes.Keys == ws[0].nodes.Keys
  {
    SameNodes(plan, ws, acts, i);
    if i > 0 {
      RunsStaySound(plan, ws, acts, i - 1);
      ActKeepsSound(plan, ws[i - 1], acts[i - 1]);
    }
  }

  /** On every node, at every moment, a content-addressed object hashes to its key. */
  lemma EveryCasCopyMatchesItsKey(plan: Plan, ws: seq<World>, acts: seq<Act>, i: nat, n: string, key: string)
    requires Run(plan, ws, acts) && Initial(ws[0]) && i < |ws|
    requires n in ws[i].nodes && Visible(ws[i].nodes[n], Ref(CAS, key))
    ensures plan.p.digest(Contents(ws[i].nodes[n], Ref(CAS, key))) == key
  {
    RunsStaySound(plan, ws, acts, i);
    VisibleWasPublished(plan.p, ws[i].nodes[n], Ref(CAS, key));
  }

  // ---- Confinement: when the rings agree ----

  /** All nodes compute the same holders. */
  ghost predicate Shared(plan: Plan, names: set<string>, holders: string -> seq<string>) {
    forall n, key :: n in names ==> plan.place(n, key) == holders(key)
  }

  /** Everything this node ever published or is uploading belongs here. */
  ghost predicate Placed(holders: string -> seq<string>, name: string, n: Node) {
    && (forall i :: 0 <= i < |n.log| ==> name in holders(n.log[i].ref.key))
    && (forall t :: t in n.uploads ==> name in holders(n.uploads[t].ref.key))
  }

  ghost predicate Addressed(holders: string -> seq<string>, msgs: set<Msg>) {
    forall m :: m in msgs && m.hop != HopClient ==> m.to in holders(m.ref.key)
  }

  ghost predicate Confined(holders: string -> seq<string>, w: World) {
    Addressed(holders, w.msgs) && forall n :: n in w.nodes ==> Placed(holders, n, w.nodes[n])
  }

  /** No step of a node publishes under a name other than its uploads'. */
  lemma StepStaysPlaced(p: Params, holders: string -> seq<string>, name: string, n: Node, s: Step)
    requires Enabled(p, n, s) && Placed(holders, name, n)
    requires s.Begin? ==> name in holders(s.ref.key)
    ensures Placed(holders, name, After(p, n, s))
  {
    match s
    case Rename(t) => assert name in holders(n.uploads[t].ref.key);
    case _ =>
  }

  lemma ActStaysConfined(plan: Plan, holders: string -> seq<string>, w: World, a: Act)
    requires Shared(plan, w.nodes.Keys, holders) && Confined(holders, w) && Can(plan, w, a)
    ensures Confined(holders, Do(plan, w, a))
  {
    match a
    case Forward(m, out) => assert plan.place(m.to, m.ref.key) == holders(m.ref.key);
    case Repair(n, out) => assert plan.place(n, out.ref.key) == holders(out.ref.key);
    case Accept(m, t, declared, _) =>
      assert plan.place(m.to, m.ref.key) == holders(m.ref.key);
      StepStaysPlaced(plan.p, holders, m.to, w.nodes[m.to], Begin(t, m.ref, declared));
    case Internal(n, s) => StepStaysPlaced(plan.p, holders, n, w.nodes[n], s);
    case _ =>
  }

  lemma {:induction false} RunsStayConfined(plan: Plan, holders: string -> seq<string>, ws: seq<World>, acts: seq<Act>, i: nat)
    requires Run(plan, ws, acts) && Initial(ws[0]) && Shared(plan, ws[0].nodes.Keys, holders) && i < |ws|
    ensures Confined(holders, ws[i])
  {
    if i > 0 {
      SameNodes(plan, ws, acts, i - 1);
      RunsStayConfined(plan, holders, ws, acts, i - 1);
      ActStaysConfined(plan, holders, ws[i - 1], acts[i - 1]);
    }
  }

  /** Every copy, at every moment, is on one of the object's holders. */
  lemma CopiesAreOnHolders(plan: Plan, holders: string -> seq<string>, ws: seq<World>, acts: seq<Act>, i: nat, n: string, r: Ref)
    requires Run(plan, ws, acts) && Initial(ws[0]) && Shared(plan, ws[0].nodes.Keys, holders) && i < |ws|
    requires n in ws[i].nodes && Visible(ws[i].nodes[n], r)
    ensures n in holders(r.key)
  {
    RunsStaySound(plan, ws, acts, i);
    RunsStayConfined(plan, holders, ws, acts, i);
    VisibleWasPublished(plan.p, ws[i].nodes[n], r);
  }

  // ---- Acknowledged copies ----

  /** The node linked some checked body under this name, at some time. */
  ghost predicate HasPublished(n: Node, r: Ref) {
    exists i :: 0 <= i < |n.log| && n.log[i].ref == r
  }

  ghost predicate PutOk(plan: Plan, w: World, u: Put) {
    && u.stored <= {u.at} + Elements(plan.place(u.at, u.ref.key))
    && (forall n :: n in u.stored ==> n in w.nodes && HasPublished(w.nodes[n], u.ref))
    && (u.acked ==> |u.stored| >= |plan.place(u.at, u.ref.key)|)
  }

  ghost predicate PutsOk(plan: Plan, w: World) {
    forall id :: id in w.puts ==> PutOk(plan, w, w.puts[id])
  }

  /** Publications are never forgotten, not even by a power loss. */
  lemma StillPublished(p: Params, n: Node, s: Step, r: Ref)
    requires Enabled(p, n, s) && HasPublished(n, r)
    ensures HasPublished(After(p, n, s), r)
  {
    var i :| 0 <= i < |n.log| && n.log[i].ref == r;
    assert After(p, n, s).log[i] == n.log[i];
  }

  /** An answer that the object is stored is backed by a publication. */
  lemma StoredWasPublished(plan: Plan, w: World, id: nat, n: string, r: Ref, upload: Option<string>)
    requires Sound(plan, w) && n in w.nodes && HasStored(w, id, n, r, upload)
    ensures HasPublished(w.nodes[n], r)
  {
    match upload
    case Some(t) => assert Linked(w.nodes[n].uploads[t]);
    case None => VisibleWasPublished(plan.p, w.nodes[n], r);
  }

  lemma AnswersArePublished(plan: Plan, w: World, a: Act)
    requires Sound(plan, w) && Can(plan, w, a)
    ensures a.Confirm? ==> HasPublished(w.nodes[a.node], w.puts[a.id].ref)
  {
    if a.Confirm? {
      StoredWasPublished(plan, w, a.id, a.node, w.puts[a.id].ref, a.upload);
    }
  }

  lemma NodeStepKeepsPuts(plan: Plan, w: World, v: World, n: string, s: Step)
    requires PutsOk(plan, w) && n in w.nodes && Enabled(plan.p, w.nodes[n], s)
    requires v.puts == w.puts && v.nodes == w.nodes[n := After(plan.p, w.nodes[n], s)]
    ensures PutsOk(plan, v)
  {
    forall id | id in v.puts ensures PutOk(plan, v, v.puts[id]) {
      assert PutOk(plan, w, w.puts[id]);
      if n in w.puts[id].stored {
        StillPublished(plan.p, w.nodes[n], s, w.puts[id].ref);
      }
    }
  }

  lemma ActKeepsPuts(plan: Plan, w: World, a: Act)
    requires PutsOk(plan, w) && Can(plan, w, a)
    requires a.Confirm? ==> HasPublished(w.nodes[a.node], w.puts[a.id].ref)
    ensures PutsOk(plan, Do(plan, w, a))
  {
    if a.Accept? || a.Internal? {
      NodeActsKeepPuts(plan, w, a);
    } else if a.Confirm? {
      ConfirmsKeepPuts(plan, w, a);
    } else {
      OtherActsKeepPuts(plan, w, a);
    }
  }

  lemma NodeActsKeepPuts(plan: Plan, w: World, a: Act)
    requires PutsOk(plan, w) && Can(plan, w, a) && (a.Accept? || a.Internal?)
    ensures PutsOk(plan, Do(plan, w, a))
  {
    if a.Accept? {
      NodeStepKeepsPuts(plan, w, Do(plan, w, a), a.msg.to, Begin(a.temp, a.msg.ref, a.declared));
    } else {
      NodeStepKeepsPuts(plan, w, Do(plan, w, a), a.at, a.step);
    }
  }

  lemma ConfirmsKeepPuts(plan: Plan, w: World, a: Act)
    requires PutsOk(plan, w) && Can(plan, w, a) && a.Confirm? && HasPublished(w.nodes[a.node], w.puts[a.id].ref)
    ensures PutsOk(plan, Do(plan, w, a))
  {
    var v := Do(plan, w, a);
    ConfirmKeepsPut(plan, w, w.puts[a.id], a.node);
    forall id | id in v.puts ensures PutOk(plan, v, v.puts[id]) {
      assert PutOk(plan, w, w.puts[id]);
    }
  }

  lemma OtherActsKeepPuts(plan: Plan, w: World, a: Act)
    requires PutsOk(plan, w) && Can(plan, w, a) && !a.Accept? && !a.Internal? && !a.Confirm?
    ensures PutsOk(plan, Do(plan, w, a))
  {
    var v := Do(plan, w, a);
    assert v.nodes == w.nodes;
    forall id | id in v.puts ensures PutOk(plan, v, v.puts[id]) {
      assert id in w.puts ==> PutOk(plan, w, w.puts[id]);
    }
  }

  lemma ConfirmKeepsPut(plan: Plan, w: World, u: Put, n: string)
    requires PutOk(plan, w, u) && n in w.nodes && HasPublished(w.nodes[n], u.ref)
    requires n == u.at || n in plan.place(u.at, u.ref.key)
    ensures PutOk(plan, w, u.(stored := u.stored + {n}))
  {
    SubsetSize(u.stored, u.stored + {n});
  }

  lemma {:induction false} RunsKeepPuts(plan: Plan, ws: seq<World>, acts: seq<Act>, i: nat)
    requires Run(plan, ws, acts) && Initial(ws[0]) && i < |ws|
    ensures PutsOk(plan, ws[i])
  {
    if i > 0 {
      RunsStaySound(plan, ws, acts, i - 1);
      RunsKeepPuts(plan, ws, acts, i - 1);
      AnswersArePublished(plan, ws[i - 1], acts[i - 1]);
      ActKeepsPuts(plan, ws[i - 1], acts[i - 1]);
    }
  }

  /** A PUT keeps its place and object, and what was confirmed or acknowledged stays so. */
  ghost predicate Later(u: Put, v: Put) {
    v.at == u.at && v.ref == u.ref && u.stored <= v.stored && (u.acked ==> v.acked)
  }

  lemma PutsOnlyGrow(plan: Plan, ws: seq<World>, acts: seq<Act>, id: nat, i: nat, j: nat)
    requires Run(plan, ws, acts) && i <= j < |ws| && id in ws[i].puts
    ensures id in ws[j].puts && Later(ws[i].puts[id], ws[j].puts[id])
  {
    RunGrowsPuts(plan, ws, acts);
    GrowthAddsUp(ws, id, i, j);
  }

  ghost predicate Grew(w: World, v: World) {
    forall id :: id in w.puts ==> id in v.puts && Later(w.puts[id], v.puts[id])
  }

  lemma RunGrowsPuts(plan: Plan, ws: seq<World>, acts: seq<Act>)
    requires Run(plan, ws, acts)
    ensures forall k :: 0 < k < |ws| ==> Grew(ws[k - 1], ws[k])
  {
    forall k | 0 < k < |ws| ensures Grew(ws[k - 1], ws[k]) {
      forall id | id in ws[k - 1].puts ensures id in ws[k].puts && Later(ws[k - 1].puts[id], ws[k].puts[id]) {
        ActGrowsPuts(plan, ws[k - 1], acts[k - 1], id);
      }
    }
  }

  lemma {:induction false} GrowthAddsUp(ws: seq<World>, id: nat, i: nat, j: nat)
    requires forall k :: 0 < k < |ws| ==> Grew(ws[k - 1], ws[k])
    requires i <= j < |ws| && id in ws[i].puts
    ensures id in ws[j].puts && Later(ws[i].puts[id], ws[j].puts[id])
  {
    if i < j {
      GrowthAddsUp(ws, id, i, j - 1);
      assert Grew(ws[j - 1], ws[j]);
    }
  }

  lemma ActGrowsPuts(plan: Plan, w: World, a: Act, id: nat)
    requires Can(plan, w, a) && id in w.puts
    ensures id in Do(plan, w, a).puts && Later(w.puts[id], Do(plan, w, a).puts[id])
  {
  }

  // ---- An acknowledgement speaks for every holder ----

  ghost predicate AtHolders(holders: string -> seq<string>, w: World) {
    forall id :: id in w.puts ==> w.puts[id].at in holders(w.puts[id].ref.key)
  }

  lemma {:induction false} PutsRunAtHolders(plan: Plan, holders: string -> seq<string>, ws: seq<World>, acts: seq<Act>, i: nat)
    requires Run(plan, ws, acts) && Initial(ws[0]) && Shared(plan, ws[0].nodes.Keys, holders) && i < |ws|
    ensures AtHolders(holders, ws[i])
  {
    if i > 0 {
      PutsRunAtHolders(plan, holders, ws, acts, i - 1);
      SameNodes(plan, ws, acts, i - 1);
      RunsStayConfined(plan, holders, ws, acts, i - 1);
      ActStaysAtHolders(plan, holders, ws[i - 1], acts[i - 1]);
    }
  }

  lemma ActStaysAtHolders(plan: Plan, holders: string -> seq<string>, w: World, a: Act)
    requires Shared(plan, w.nodes.Keys, holders) && Confined(holders, w) && AtHolders(holders, w) && Can(plan, w, a)
    ensures AtHolders(holders, Do(plan, w, a))
  {
    match a
    case Start(id, m) => assert plan.place(m.to, m.ref.key) == holders(m.ref.key);
    case _ =>
  }

  /** With a shared ring, a PUT is acknowledged only after every holder of the object has published it. */
  lemma AckedPutsAreOnEveryHolder(plan: Plan, holders: string -> seq<string>, ws: seq<World>, acts: seq<Act>, i: nat, id: nat)
    requires Run(plan, ws, acts) && Initial(ws[0]) && Shared(plan, ws[0].nodes.Keys, holders) && i < |ws|
    requires id in ws[i].puts && ws[i].puts[id].acked
    requires Distinct(holders(ws[i].puts[id].ref.key))
    ensures var u := ws[i].puts[id];
            && u.stored == Elements(holders(u.ref.key))
            && forall n :: n in holders(u.ref.key) ==> n in ws[i].nodes && HasPublished(ws[i].nodes[n], u.ref)
  {
    RunsKeepPuts(plan, ws, acts, i);
    PutsRunAtHolders(plan, holders, ws, acts, i);
    var u := ws[i].puts[id];
    assert PutOk(plan, ws[i], u);
    PutNodesKnown(plan, ws, acts, i, id);
    assert plan.place(u.at, u.ref.key) == holders(u.ref.key);
    DistinctSize(holders(u.ref.key));
    SubsetSize(u.stored, Elements(holders(u.ref.key)));
    assert forall n :: n in holders(u.ref.key) ==> n in Elements(holders(u.ref.key));
  }

  lemma {:induction false} PutNodesKnown(plan: Plan, ws: seq<World>, acts: seq<Act>, i: nat, id: nat)
    requires Run(plan, ws, acts) && Initial(ws[0]) && i < |ws| && id in ws[i].puts
    ensures ws[i].puts[id].at in ws[0].nodes
  {
    if i > 0 {
      SameNodes(plan, ws, acts, i - 1);
      if id in ws[i - 1].puts {
        PutNodesKnown(plan, ws, acts, i - 1, id);
        ActGrowsPuts(plan, ws[i - 1], acts[i - 1], id);
      }
    }
  }

  // ---- Copies that stay ----

  /** In this step the node deleted or evicted the object. */
  predicate Deletes(a: Act, n: string, r: Ref) {
    a == Internal(n, Unlink(r))
  }

  /** In this step the node lost the object in a power loss. */
  predicate LosesInPowerLoss(w: World, a: Act, n: string, r: Ref) {
    && a.Internal? && a.at == n && a.step.PowerLoss?
    && n in w.nodes && Visible(w.nodes[n], r) && !Visible(a.step.after, r)
  }

  ghost predicate NeverDeletes(acts: seq<Act>, n: string, r: Ref, from: nat, to: nat) {
    forall j :: from <= j < to && j < |acts| ==> !Deletes(acts[j], n, r)
  }

  ghost predicate NeverLosesInPowerLoss(ws: seq<World>, acts: seq<Act>, n: string, r: Ref, from: nat, to: nat) {
    forall j :: from <= j < to && j < |acts| && j < |ws| ==> !LosesInPowerLoss(ws[j], acts[j], n, r)
  }

  lemma ActLeavesVisible(plan: Plan, w: World, a: Act, n: string, r: Ref)
    requires Can(plan, w, a) && n in w.nodes && Visible(w.nodes[n], r)
    requires !Deletes(a, n, r) && !LosesInPowerLoss(w, a, n, r)
    ensures n in Do(plan, w, a).nodes && Visible(Do(plan, w, a).nodes[n], r)
  {
    match a
    case Internal(m, s) =>
      if m == n {
        VanishesOnlyBy(plan.p, w.nodes[n], s, r);
      }
    case _ =>
  }

  lemma {:induction false} StaysVisible(plan: Plan, ws: seq<World>, acts: seq<Act>, n: string, r: Ref, i: nat, j: nat)
    requires Run(plan, ws, acts) && i <= j < |ws| && n in ws[i].nodes && Visible(ws[i].nodes[n], r)
    requires NeverDeletes(acts, n, r, i, j) && NeverLosesInPowerLoss(ws, acts, n, r, i, j)
    ensures n in ws[j].nodes && Visible(ws[j].nodes[n], r)
  {
    if i < j {
      StaysVisible(plan, ws, acts, n, r, i, j - 1);
      StepLeavesVisible(plan, ws, acts, n, r, j - 1);
    }
  }

  lemma StepLeavesVisible(plan: Plan, ws: seq<World>, acts: seq<Act>, n: string, r: Ref, i: nat)
    requires Run(plan, ws, acts) && i < |acts| && n in ws[i].nodes && Visible(ws[i].nodes[n], r)
    requires !Deletes(acts[i], n, r) && !LosesInPowerLoss(ws[i], acts[i], n, r)
    ensures n in ws[i + 1].nodes && Visible(ws[i + 1].nodes[n], r)
  {
    ActLeavesVisible(plan, ws[i], acts[i], n, r);
  }

  lemma ActLeavesPinned(plan: Plan, w: World, a: Act, n: string, r: Ref)
    requires Can(plan, w, a) && n in w.nodes && Pinned(w.nodes[n], r) && !Deletes(a, n, r)
    ensures n in Do(plan, w, a).nodes && Pinned(Do(plan, w, a).nodes[n], r)
  {
    match a
    case Internal(m, s) =>
      if m == n {
        PinnedStays(plan.p, w.nodes[n], s, r);
      }
    case _ =>
  }

  lemma {:induction false} StaysPinned(plan: Plan, ws: seq<World>, acts: seq<Act>, n: string, r: Ref, i: nat, j: nat)
    requires Run(plan, ws, acts) && i <= j < |ws| && n in ws[i].nodes && Pinned(ws[i].nodes[n], r)
    requires NeverDeletes(acts, n, r, i, j)
    ensures n in ws[j].nodes && Pinned(ws[j].nodes[n], r) && Visible(ws[j].nodes[n], r)
  {
    if i < j {
      StaysPinned(plan, ws, acts, n, r, i, j - 1);
      StepLeavesPinned(plan, ws, acts, n, r, j - 1);
    }
    assert SlotOf(ws[j].nodes[n], r).now in Candidates(SlotOf(ws[j].nodes[n], r));
  }

  lemma StepLeavesPinned(plan: Plan, ws: seq<World>, acts: seq<Act>, n: string, r: Ref, i: nat)
    requires Run(plan, ws, acts) && i < |acts| && n in ws[i].nodes && Pinned(ws[i].nodes[n], r) && !Deletes(acts[i], n, r)
    ensures n in ws[i + 1].nodes && Pinned(ws[i + 1].nodes[n], r)
  {
    ActLeavesPinned(plan, ws[i], acts[i], n, r);
  }

  /** Uploads are only ever begun for PUTs that have started. */
  ghost predicate ServingKnown(w: World) {
    forall k :: k in w.serving ==> w.serving[k] in w.puts
  }

  lemma {:induction false} RunsKnowWhatTheyServe(plan: Plan, ws: seq<World>, acts: seq<Act>, i: nat)
    requires Run(plan, ws, acts) && Initial(ws[0]) && i < |ws|
    ensures ServingKnown(ws[i])
  {
    if i > 0 {
      RunsKnowWhatTheyServe(plan, ws, acts, i - 1);
      ActKnowsWhatItServes(plan, ws[i - 1], acts[i - 1]);
    }
  }

  lemma ActKnowsWhatItServes(plan: Plan, w: World, a: Act)
    requires ServingKnown(w) && Can(plan, w, a)
    ensures ServingKnown(Do(plan, w, a))
  {
  }

  predicate ServesPut(w: World, n: string, t: string, id: nat) {
    (n, t) in w.serving && w.serving[(n, t)] == id
  }

  /** None of the PUT's uploads on this node has been deleted. */
  ghost predicate Undeleted(w: World, id: nat, n: string, r: Ref) {
    && n in w.nodes
    && forall t :: t in w.nodes[n].uploads && ServesPut(w, n, t, id) && w.nodes[n].uploads[t].ref == r
                   ==> !w.nodes[n].uploads[t].deleted
  }

  lemma ActLeavesUndeleted(plan: Plan, w: World, a: Act, id: nat, n: string, r: Ref)
    requires Can(plan, w, a) && Undeleted(w, id, n, r) && !Deletes(a, n, r)
    ensures Undeleted(Do(plan, w, a), id, n, r)
  {
    var v := Do(plan, w, a);
    match a
    case Internal(m, s) =>
      forall t | m == n && t in v.nodes[n].uploads ensures t in w.nodes[n].uploads && v.nodes[n].uploads[t].ref == w.nodes[n].uploads[t].ref
          && (v.nodes[n].uploads[t].deleted ==> w.nodes[n].uploads[t].deleted || s == Unlink(w.nodes[n].uploads[t].ref)) {
        OnlyUnlinkMarksDeleted(plan.p, w.nodes[n], s, t);
      }
    case _ =>
  }

  /** From before a PUT starts, and while the node deletes nothing under its name, its uploads there stay undeleted. */
  lemma {:induction false} StaysUndeleted(plan: Plan, ws: seq<World>, acts: seq<Act>, id: nat, n: string, r: Ref, start: nat, i: nat)
    requires Run(plan, ws, acts) && Initial(ws[0]) && start <= i < |ws| && id !in ws[start].puts && n in ws[0].nodes
    requires NeverDeletes(acts, n, r, start, i)
    ensures Undeleted(ws[i], id, n, r)
  {
    SameNodes(plan, ws, acts, i);
    if i == start {
      RunsKnowWhatTheyServe(plan, ws, acts, i);
      NothingServedYet(ws[i], id, n, r);
    } else {
      StaysUndeleted(plan, ws, acts, id, n, r, start, i - 1);
      StepLeavesUndeleted(plan, ws, acts, id, n, r, i - 1);
    }
  }

  lemma NothingServedYet(w: World, id: nat, n: string, r: Ref)
    requires ServingKnown(w) && id !in w.puts && n in w.nodes
    ensures Undeleted(w, id, n, r)
  {
  }

  lemma StepLeavesUndeleted(plan: Plan, ws: seq<World>, acts: seq<Act>, id: nat, n: string, r: Ref, i: nat)
    requires Run(plan, ws, acts) && i < |acts| && Undeleted(ws[i], id, n, r) && !Deletes(acts[i], n, r)
    ensures Undeleted(ws[i + 1], id, n, r)
  {
    ActLeavesUndeleted(plan, ws[i], acts[i], id, n, r);
  }

  /** Every counted copy has an answer in the run's past. */
  lemma {:induction false} ConfirmedOnce(plan: Plan, ws: seq<World>, acts: seq<Act>, id: nat, n: string, i: nat) returns (k: nat, t: Option<string>)
    requires Run(plan, ws, acts) && Initial(ws[0]) && i < |ws| && id in ws[i].puts && n in ws[i].puts[id].stored
    ensures k < i && acts[k] == Confirm(id, n, t) && id in ws[k].puts && ws[k].puts[id].ref == ws[i].puts[id].ref
  {
    StoredBefore(plan, ws, acts, id, n, i - 1);
    if id in ws[i - 1].puts && n in ws[i - 1].puts[id].stored {
      k, t := ConfirmedOnce(plan, ws, acts, id, n, i - 1);
    } else {
      k, t := i - 1, acts[i - 1].upload;
    }
  }

  /** A copy is counted in the step that confirms it, or was counted before. */
  lemma StoredBefore(plan: Plan, ws: seq<World>, acts: seq<Act>, id: nat, n: string, i: nat)
    requires Run(plan, ws, acts) && i < |acts| && id in ws[i + 1].puts && n in ws[i + 1].puts[id].stored
    ensures id in ws[i].puts && ws[i].puts[id].ref == ws[i + 1].puts[id].ref
    ensures n in ws[i].puts[id].stored || (acts[i].Confirm? && acts[i] == Confirm(id, n, acts[i].upload))
  {
    CountedWhenConfirmed(plan, ws[i], acts[i], id, n);
  }

  lemma CountedWhenConfirmed(plan: Plan, w: World, a: Act, id: nat, n: string)
    requires Can(plan, w, a) && id in Do(plan, w, a).puts && n in Do(plan, w, a).puts[id].stored
    ensures id in w.puts && w.puts[id].ref == Do(plan, w, a).puts[id].ref
    ensures n in w.puts[id].stored || (a.Confirm? && a == Confirm(id, n, a.upload))
  {
  }

  /** When a node answers, and deleted nothing under the name since the PUT began, the object is there. */
  lemma AnswerMeansVisible(plan: Plan, ws: seq<World>, acts: seq<Act>, id: nat, n: string, start: nat, k: nat, t: Option<string>)
    requires Run(plan, ws, acts) && Initial(ws[0]) && start <= k < |acts| && id !in ws[start].puts
    requires acts[k] == Confirm(id, n, t) && NeverDeletes(acts, n, ws[k].puts[id].ref, start, k)
    ensures n in ws[k].nodes && Visible(ws[k].nodes[n], ws[k].puts[id].ref)
    ensures t.Some? ==> ws[k].nodes[n].uploads[t.value].phase.Settled?
    ensures t.Some? && ws[k].nodes[n].uploads[t.value].phase == Settled(true) ==> Pinned(ws[k].nodes[n], ws[k].puts[id].ref)
  {
    RunsStaySound(plan, ws, acts, k);
    if t.Some? {
      StaysUndeleted(plan, ws, acts, id, n, ws[k].puts[id].ref, start, k);
      LinkedIsVisible(plan.p, ws[k].nodes[n], t.value);
    }
  }
}
