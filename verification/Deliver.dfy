/**
Repair deliveries as runs of the cluster: sending one node's copy to a holder that
lacks it (internal/repair/repair.go, sendCopy) is a sequence of cluster acts that
adds exactly that copy, byte for byte, and changes nothing else that is served.
From any reachable state, enough of them lead to full replication.
*/
module Delivery {
  import opened Base
  import opened Sorting
  import opened Rows
  import opened Protocol
  import opened Machine
  import opened ObjectStore
  import C = Cluster

  type Copies = map<string, map<Ref, Bytes>>

  ghost function CopiesOf(w: C.World): (c: Copies) {
    map n | n in w.nodes :: Served(w.nodes[n])
  }

  datatype Send = Send(from: string, to: string, ref: Ref)

  predicate Lacks(c: Copies, s: Send) {
    s.from in c && s.to in c && s.ref in c[s.from] && s.ref !in c[s.to]
  }

  /** The copies after a delivery: one more, if the holder lacked it. */
  function Delivered(c: Copies, s: Send): (d: Copies) {
    if Lacks(c, s) then c[s.to := c[s.to][s.ref := c[s.from][s.ref]]] else c
  }

  function DeliveredAll(c: Copies, sends: seq<Send>): (d: Copies) {
    if |sends| == 0 then c else Delivered(DeliveredAll(c, sends[..|sends| - 1]), sends[|sends| - 1])
  }

  // ---- Runs put together ----

  lemma RunThen(plan: C.Plan, ws: seq<C.World>, acts: seq<C.Act>, vs: seq<C.World>, more: seq<C.Act>)
    requires C.Run(plan, ws, acts) && C.Run(plan, vs, more) && vs[0] == ws[|acts|]
    ensures C.Run(plan, ws + vs[1..], acts + more) && (ws + vs[1..])[0] == ws[0] && (ws + vs[1..])[|acts + more|] == vs[|more|]
  {
    var us, as1 := ws + vs[1..], acts + more;
    forall i | 0 <= i < |as1| ensures C.Can(plan, us[i], as1[i]) && us[i + 1] == C.Do(plan, us[i], as1[i]) {
      if i < |acts| {
        assert us[i] == ws[i] && us[i + 1] == ws[i + 1] && as1[i] == acts[i];
      } else {
        var k := i - |acts|;
        assert us[i] == vs[k] && us[i + 1] == vs[k + 1] && as1[i] == more[k];
      }
    }
  }

  lemma OneAct(plan: C.Plan, w: C.World, a: C.Act)
    requires C.Can(plan, w, a)
    ensures C.Run(plan, [w, C.Do(plan, w, a)], [a])
  {
  }

  /** A node's own steps, after an upload has been opened, are acts of the cluster. */
  lemma {:induction false} StepsAreARun(plan: C.Plan, w: C.World, n: string, steps: seq<Step>) returns (ws: seq<C.World>, acts: seq<C.Act>)
    requires n in w.nodes && Legal(plan.p, w.nodes[n], steps) && NoneBegun(steps)
    ensures C.Run(plan, ws, acts) && ws[0] == w && ws[|acts|] == w.(nodes := w.nodes[n := Exec(plan.p, w.nodes[n], steps)])
    decreases |steps|
  {
    if |steps| == 0 {
      ws, acts := [w], [];
      assert w.nodes == w.nodes[n := w.nodes[n]];
    } else {
      var a := C.Internal(n, steps[0]);
      var v := C.Do(plan, w, a);
      OneAct(plan, w, a);
      var vs, more := StepsAreARun(plan, v, n, steps[1..]);
      RunThen(plan, [w, v], [a], vs, more);
      ws, acts := [w, v] + vs[1..], [a] + more;
    }
  }

  // ---- One delivery ----

  /** A fresh Put adds its body to what a node serves and changes nothing else. */
  lemma PutServesOneMore(n: Node, r: Ref, declared: int, data: Bytes, durable: bool, rows: Table)
    ensures Served(Published1(n, r, declared, data, durable, rows)) == Served(n)[r := data]
  {
    var m := Published1(n, r, declared, data, durable, rows);
    forall q ensures SlotOf(m, q).now == if q == r then Some(Link(Inode(data, true), |n.log|)) else SlotOf(n, q).now {
    }
    ServedAsSlots(m);
    ServedAsSlots(n);
  }

  lemma ServedAsSlots(n: Node)
    ensures forall q :: q in Served(n) <==> Visible(n, q)
    ensures forall q :: q in Served(n) ==> Served(n)[q] == SlotOf(n, q).now.value.inode.data
  {
  }

  ghost predicate FreeTemp(w: C.World, t: string) {
    Incoming(t) && forall n :: n in w.nodes ==> t !in w.nodes[n].temps && t !in w.nodes[n].uploads
  }

  /** What a delivery needs of the states it starts and ends in. */
  ghost predicate Fit(plan: C.Plan, w: C.World, t: string) {
    C.Sound(plan, w) && FreeTemp(w, t)
  }

  /** The receiving node's upload: its own checks pass on the sender's bytes. */
  lemma ReceiverCanStore(plan: C.Plan, w: C.World, s: Send, t: string) returns (steps: seq<Step>)
    requires Fit(plan, w, t) && Lacks(CopiesOf(w), s)
    ensures var data := CopiesOf(w)[s.from][s.ref];
            var rows := Upserted(w.nodes[s.to].rows, s.ref, |data|, 0);
            && Legal(plan.p, w.nodes[s.to], steps) && OneUpload(steps, t, s.ref, |data|)
            && Exec(plan.p, w.nodes[s.to], steps) == Published1(w.nodes[s.to], s.ref, |data|, data, true, rows)
  {
    var data := CopiesOf(w)[s.from][s.ref];
    var n := w.nodes[s.to];
    VisibleWasPublished(plan.p, w.nodes[s.from], s.ref);
    assert !Visible(n, s.ref);
    assert [data][..0] == [] && Concat([data]) == Concat([]) + data == data;
    if s.ref in n.ledger {
      LedgerBelowLog(plan.p, n, s.ref);
    }
    steps := FreshPutRuns(plan.p, n, t, s.ref, |data|, [data], true, Upserted(n.rows, s.ref, |data|, 0));
  }

  /**
  Sending a copy is a run of the cluster: the repair message, the holder's upload
  and its steps. It ends with exactly one more copy, the sender's bytes.
  */
  lemma DeliveryIsARun(plan: C.Plan, w: C.World, s: Send, t: string) returns (ws: seq<C.World>, acts: seq<C.Act>)
    requires Fit(plan, w, t) && Lacks(CopiesOf(w), s) && s.from != s.to && s.to in plan.place(s.from, s.ref.key)
    ensures C.Run(plan, ws, acts) && ws[0] == w
    ensures CopiesOf(ws[|acts|]) == Delivered(CopiesOf(w), s) && Fit(plan, ws[|acts|], t)
    ensures ws[|acts|].up == w.up && ws[|acts|].puts == w.puts && ws[|acts|].nodes.Keys == w.nodes.Keys
  {
    var data := CopiesOf(w)[s.from][s.ref];
    var steps := ReceiverCanStore(plan, w, s, t);
    assert Visible(w.nodes[s.from], s.ref);
    ws, acts := UploadIsARun(plan, w, s, t, |data|, steps);
    RunKeepsInv(plan.p, w.nodes[s.to], steps);
    var rows := Upserted(w.nodes[s.to].rows, s.ref, |data|, 0);
    EndsFit(plan, w, ws[|acts|], s.to, t, Published1(w.nodes[s.to], s.ref, |data|, data, true, rows));
    EndsDelivered(w, ws[|acts|], s, data, rows);
  }

  /** The repair message, the holder opening an upload for it, and the holder's own steps. */
  lemma UploadIsARun(plan: C.Plan, w: C.World, s: Send, t: string, size: nat, steps: seq<Step>) returns (ws: seq<C.World>, acts: seq<C.Act>)
    requires s.from in w.nodes && s.to in w.nodes && Visible(w.nodes[s.from], s.ref) && s.from != s.to && s.to in plan.place(s.from, s.ref.key)
    requires Legal(plan.p, w.nodes[s.to], steps) && OneUpload(steps, t, s.ref, size)
    ensures C.Run(plan, ws, acts) && ws[0] == w
    ensures ws[|acts|].up == w.up && ws[|acts|].puts == w.puts
    ensures ws[|acts|].nodes == w.nodes[s.to := Exec(plan.p, w.nodes[s.to], steps)]
  {
    var m := C.Msg(s.to, HopRepair, s.ref);
    var ask, take := C.Repair(s.from, m), C.Accept(m, t, size, None);
    var w1 := C.Do(plan, w, ask);
    OneAct(plan, w, ask);
    var w2 := C.Do(plan, w1, take);
    OneAct(plan, w1, take);
    RunThen(plan, [w, w1], [ask], [w1, w2], [take]);
    var us, as1 := [w, w1] + [w1, w2][1..], [ask] + [take];
    var vs, more := StepsAreARun(plan, w2, s.to, steps[1..]);
    RunThen(plan, us, as1, vs, more);
    ws, acts := us + vs[1..], as1 + more;
    assert w2.nodes[s.to := Exec(plan.p, w2.nodes[s.to], steps[1..])] == w.nodes[s.to := Exec(plan.p, w.nodes[s.to], steps)];
  }

  lemma EndsFit(plan: C.Plan, w: C.World, v: C.World, n: string, t: string, node: Node)
    requires Fit(plan, w, t) && n in w.nodes && v.nodes == w.nodes[n := node]
    requires Inv(plan.p, node) && node.temps == w.nodes[n].temps && node.uploads == w.nodes[n].uploads
    ensures Fit(plan, v, t)
  {
  }

  lemma EndsDelivered(w: C.World, v: C.World, s: Send, data: Bytes, rows: Table)
    requires Lacks(CopiesOf(w), s) && data == CopiesOf(w)[s.from][s.ref]
    requires v.nodes == w.nodes[s.to := Published1(w.nodes[s.to], s.ref, |data|, data, true, rows)]
    ensures CopiesOf(v) == Delivered(CopiesOf(w), s)
  {
    PutServesOneMore(w.nodes[s.to], s.ref, |data|, data, true, rows);
  }

  // ---- Any number of them ----

  predicate Addressed(plan: C.Plan, w: C.World, s: Send) {
    s.from in w.nodes && s.to in w.nodes && s.from != s.to && s.to in plan.place(s.from, s.ref.key)
  }

  /** Any list of deliveries is a run of the cluster with the copies it should have. */
  lemma {:induction false} DeliveriesAreARun(plan: C.Plan, w: C.World, sends: seq<Send>, t: string) returns (ws: seq<C.World>, acts: seq<C.Act>)
    requires Fit(plan, w, t) && forall i :: 0 <= i < |sends| ==> Addressed(plan, w, sends[i])
    ensures C.Run(plan, ws, acts) && ws[0] == w && Fit(plan, ws[|acts|], t) && ws[|acts|].nodes.Keys == w.nodes.Keys
    ensures CopiesOf(ws[|acts|]) == DeliveredAll(CopiesOf(w), sends)
  {
    if |sends| == 0 {
      ws, acts := [w], [];
    } else {
      ws, acts := DeliveriesAreARun(plan, w, sends[..|sends| - 1], t);
      var v, s := ws[|acts|], sends[|sends| - 1];
      assert Addressed(plan, w, s);
      if Lacks(CopiesOf(v), s) {
        var vs, more := DeliveryIsARun(plan, v, s, t);
        RunThen(plan, ws, acts, vs, more);
        ws, acts := ws + vs[1..], acts + more;
      }
    }
  }

  // ---- Full replication is reachable ----

  /** These bytes were some node's copy at the start. */
  ghost predicate Original(start: Copies, r: Ref, b: Bytes) {
    exists n :: n in start && r in start[n] && start[n][r] == b
  }

  /** No copy is changed or removed. */
  ghost predicate Kept(start: Copies, c: Copies) {
    c.Keys == start.Keys && forall n, r :: n in start && r in start[n] ==> r in c[n] && c[n][r] == start[n][r]
  }

  /** Every copy is on a holder and equal to one there was. */
  ghost predicate Drawn(start: Copies, holders: string -> seq<string>, c: Copies) {
    forall n, r :: n in c && r in c[n] ==> n in holders(r.key) && Original(start, r, c[n][r])
  }

  lemma DeliveryKeeps(start: Copies, holders: string -> seq<string>, c: Copies, s: Send)
    requires Kept(start, c) && Drawn(start, holders, c) && s.to in holders(s.ref.key)
    ensures Kept(start, Delivered(c, s)) && Drawn(start, holders, Delivered(c, s))
  {
    assert s.from in c && s.ref in c[s.from] ==> Original(start, s.ref, c[s.from][s.ref]);
  }

  lemma {:induction false} DeliveriesKeep(start: Copies, holders: string -> seq<string>, sends: seq<Send>, n: nat)
    requires n <= |sends| && Drawn(start, holders, start)
    requires forall i :: 0 <= i < |sends| ==> sends[i].to in holders(sends[i].ref.key)
    ensures Kept(start, DeliveredAll(start, sends[..n])) && Drawn(start, holders, DeliveredAll(start, sends[..n]))
  {
    if n > 0 {
      assert sends[..n][..n - 1] == sends[..n - 1];
      DeliveriesKeep(start, holders, sends, n - 1);
      DeliveryKeeps(start, holders, DeliveredAll(start, sends[..n - 1]), sends[n - 1]);
    }
  }

  lemma {:induction false} DeliveredStays(start: Copies, sends: seq<Send>, i: nat, n: nat, to: string, r: Ref)
    requires i <= n <= |sends| && to in DeliveredAll(start, sends[..i]) && r in DeliveredAll(start, sends[..i])[to]
    ensures to in DeliveredAll(start, sends[..n]) && r in DeliveredAll(start, sends[..n])[to]
  {
    if i < n {
      assert sends[..n][..n - 1] == sends[..n - 1];
      DeliveredStays(start, sends, i, n - 1, to, r);
    }
  }

  /** Every node sends everything it has to every other holder. */
  ghost predicate SendsAll(start: Copies, holders: string -> seq<string>, sends: seq<Send>) {
    forall n, r, to :: n in start && r in start[n] && to in holders(r.key) && to in start && to != n ==> Send(n, to, r) in sends
  }

  lemma SentMeansThere(start: Copies, holders: string -> seq<string>, sends: seq<Send>, i: nat)
    requires Drawn(start, holders, start) && i < |sends| && sends[i].from in start && sends[i].to in start && sends[i].ref in start[sends[i].from]
    requires forall k :: 0 <= k < |sends| ==> sends[k].to in holders(sends[k].ref.key)
    ensures sends[i].to in DeliveredAll(start, sends) && sends[i].ref in DeliveredAll(start, sends)[sends[i].to]
  {
    DeliveriesKeep(start, holders, sends, i);
    assert sends[..i + 1][..i] == sends[..i];
    DeliveredStays(start, sends, i + 1, |sends|, sends[i].to, sends[i].ref);
    assert sends[..|sends|] == sends;
  }

  lemma AllSentMeansAllHave(start: Copies, holders: string -> seq<string>, sends: seq<Send>, n: string, r: Ref, to: string)
    requires Drawn(start, holders, start) && SendsAll(start, holders, sends)
    requires forall i :: 0 <= i < |sends| ==> sends[i].to in holders(sends[i].ref.key)
    requires Kept(start, DeliveredAll(start, sends)) && Drawn(start, holders, DeliveredAll(start, sends))
    requires n in start && r in start[n] && to in start
    ensures r in DeliveredAll(start, sends)[to] <==> to in holders(r.key)
  {
    if to in holders(r.key) && to != n {
      var i :| 0 <= i < |sends| && sends[i] == Send(n, to, r);
      SentMeansThere(start, holders, sends, i);
    }
  }

  // ---- The sends, and a name for the uploads, exist ----

  lemma {:induction false} ListOf(s: set<Send>) returns (list: seq<Send>)
    ensures forall x :: x in list <==> x in s
    decreases s
  {
    if s == {} {
      list := [];
    } else {
      var x :| x in s;
      var rest := ListOf(s - {x});
      list := rest + [x];
    }
  }

  /** Every copy, to every other node that should have it. */
  lemma EverySend(plan: C.Plan, holders: string -> seq<string>, w: C.World) returns (sends: seq<Send>)
    requires C.Shared(plan, w.nodes.Keys, holders)
    ensures SendsAll(CopiesOf(w), holders, sends) && forall k :: 0 <= k < |sends| ==> Addressed(plan, w, sends[k])
  {
    var c := CopiesOf(w);
    var all := set n: string, r: Ref, to: string | n in c && r in c[n] && to in c && to in holders(r.key) && to != n :: Send(n, to, r);
    sends := ListOf(all);
    forall k | 0 <= k < |sends| ensures Addressed(plan, w, sends[k]) {
      assert sends[k] in all;
      assert plan.place(sends[k].from, sends[k].ref.key) == holders(sends[k].ref.key);
    }
  }

  lemma {:induction false} LongerThanAll(s: set<string>) returns (n: nat)
    ensures forall x :: x in s ==> |x| < n
    decreases s
  {
    if s == {} {
      n := 0;
    } else {
      var x :| x in s;
      var m := LongerThanAll(s - {x});
      n := if |x| < m then m else |x| + 1;
    }
  }

  /** There is always a temporary name no node is using. */
  lemma SomeTempIsFree(w: C.World) returns (t: string)
    ensures FreeTemp(w, t)
  {
    var used := set n, x | n in w.nodes && x in w.nodes[n].temps.Keys + w.nodes[n].uploads.Keys :: x;
    var k := LongerThanAll(used);
    t := TMP_PREFIX + seq(k, _ => 'x');
    assert |t| > k;
    forall n | n in w.nodes ensures t !in w.nodes[n].temps && t !in w.nodes[n].uploads {
      assert forall x :: x in w.nodes[n].temps.Keys + w.nodes[n].uploads.Keys ==> x in used;
    }
  }

  /**
  From any state the cluster can reach there is a run, of repair deliveries only,
  that ends fully replicated: each object on exactly its holders, no old copy
  changed, and each new one equal to an old one.
  */
  lemma FullReplicationIsReachable(plan: C.Plan, holders: string -> seq<string>, ws: seq<C.World>, acts: seq<C.Act>, i: nat)
    returns (vs: seq<C.World>, more: seq<C.Act>)
    requires C.Run(plan, ws, acts) && C.Initial(ws[0]) && C.Shared(plan, ws[0].nodes.Keys, holders) && i < |ws|
    ensures C.Run(plan, vs, more) && vs[0] == ws[i]
    ensures var start, c := CopiesOf(ws[i]), CopiesOf(vs[|more|]);
            && Kept(start, c) && Drawn(start, holders, c)
            && forall n, r, to :: n in start && r in start[n] && to in start ==> (r in c[to] <==> to in holders(r.key))
  {
    C.RunsStaySound(plan, ws, acts, i);
    var sends := EverySend(plan, holders, ws[i]);
    var t := SomeTempIsFree(ws[i]);
    vs, more := DeliveriesAreARun(plan, ws[i], sends, t);
    ReachableIsDrawn(plan, holders, ws, acts, i);
    var start := CopiesOf(ws[i]);
    forall k | 0 <= k < |sends| ensures sends[k].to in holders(sends[k].ref.key) {
      assert Addressed(plan, ws[i], sends[k]);
      assert plan.place(sends[k].from, sends[k].ref.key) == holders(sends[k].ref.key);
    }
    DeliveriesKeep(start, holders, sends, |sends|);
    assert sends[..|sends|] == sends;
    forall n, r, to | n in start && r in start[n] && to in start ensures r in CopiesOf(vs[|more|])[to] <==> to in holders(r.key) {
      AllSentMeansAllHave(start, holders, sends, n, r, to);
    }
  }

  lemma ReachableIsDrawn(plan: C.Plan, holders: string -> seq<string>, ws: seq<C.World>, acts: seq<C.Act>, i: nat)
    requires C.Run(plan, ws, acts) && C.Initial(ws[0]) && C.Shared(plan, ws[0].nodes.Keys, holders) && i < |ws|
    ensures Drawn(CopiesOf(ws[i]), holders, CopiesOf(ws[i]))
  {
    var start := CopiesOf(ws[i]);
    forall n: string, r: Ref | n in start && r in start[n] ensures n in holders(r.key) && Original(start, r, start[n][r]) {
      assert Visible(ws[i].nodes[n], r);
      C.CopiesAreOnHolders(plan, holders, ws, acts, i, n, r);
    }
  }

  // ---- An acknowledgement is reachable ----

  /** An upload carried to its directory sync: settled, durable, its body under its name. */
  ghost predicate SettledAs(m: Node, t: string, r: Ref, data: Bytes) {
    && t in m.uploads && m.uploads[t].ref == r && m.uploads[t].phase == Settled(true)
    && Visible(m, r) && Contents(m, r) == data && Pinned(m, r)
  }

  lemma SettledPutRuns(p: Params, n: Node, t: string, r: Ref, data: Bytes) returns (steps: seq<Step>)
    requires Enabled(p, n, Begin(t, r, |data|)) && Passes(p, r, |data|, data)
    ensures Legal(p, n, steps) && OneUpload(steps, t, r, |data|) && SettledAs(Exec(p, n, steps), t, r, data)
  {
    var s0 := StagingSteps(t, r, |data|, [data]);
    StagingIsOneUpload(t, r, |data|, [data]);
    assert [data][..0] == [] && Concat([data]) == Concat([]) + data == data;
    StagingRuns(p, n, t, r, |data|, [data]);
    var s1 := LinkRuns(p, n, t, r, |data|, data);
    ExecAppend(p, n, s0, s1);
    ExecSnoc(p, n, s0 + s1, AfterRename(n, t, r, |data|, data), SyncDir(t));
    steps := s0 + s1 + [SyncDir(t)];
    assert SameDir(r, r);
  }

  /** A PUT in progress at a holder, all of whose holders are nodes of the cluster. */
  ghost predicate Coordinated(plan: C.Plan, w: C.World, id: nat, at: string, r: Ref) {
    && id in w.puts && w.puts[id].at == at && w.puts[id].ref == r && C.Msg(at, HopClient, r) in w.msgs
    && at in plan.place(at, r.key) && forall n :: n in plan.place(at, r.key) ==> n in w.nodes
  }

  /** What one more confirmed holder leaves: its own node changed, and itself counted. */
  ghost predicate Counts(w: C.World, v: C.World, id: nat, n: string, r: Ref) {
    && id in w.puts && n in w.nodes && n in v.nodes
    && v.nodes == w.nodes[n := v.nodes[n]] && w.msgs <= v.msgs && Visible(v.nodes[n], r)
    && v.puts == w.puts[id := w.puts[id].(stored := w.puts[id].stored + {n})]
  }

  /** A message in hand, a holder uploads the body, settles it and is counted. */
  lemma HolderStores(plan: C.Plan, w: C.World, id: nat, m: C.Msg, t: string, data: Bytes) returns (ws: seq<C.World>, acts: seq<C.Act>)
    requires m in w.msgs && m.to in w.nodes && C.Stores(plan, m) && id in w.puts && w.puts[id].ref == m.ref
    requires C.MayCount(plan, w.puts[id].at, m.ref.key, m.to)
    requires Enabled(plan.p, w.nodes[m.to], Begin(t, m.ref, |data|)) && Passes(plan.p, m.ref, |data|, data)
    ensures C.Run(plan, ws, acts) && ws[0] == w && Counts(w, ws[|acts|], id, m.to, m.ref)
  {
    var steps := SettledPutRuns(plan.p, w.nodes[m.to], t, m.ref, data);
    var take := C.Accept(m, t, |data|, Some(id));
    var w1 := C.Do(plan, w, take);
    OneAct(plan, w, take);
    var vs, more := StepsAreARun(plan, w1, m.to, steps[1..]);
    RunThen(plan, [w, w1], [take], vs, more);
    ws, acts := [w, w1] + vs[1..], [take] + more;
    var w2 := ws[|acts|];
    var confirm := C.Confirm(id, m.to, Some(t));
    OneAct(plan, w2, confirm);
    var w3 := C.Do(plan, w2, confirm);
    RunThen(plan, ws, acts, [w2, w3], [confirm]);
    ws, acts := ws + [w2, w3][1..], acts + [confirm];
  }

  /** A holder that has the content-addressed object answers at once; any other is sent a replica and stores it. */
  lemma OneHolderStores(plan: C.Plan, w: C.World, id: nat, at: string, r: Ref, data: Bytes, n: string) returns (ws: seq<C.World>, acts: seq<C.Act>)
    requires Coordinated(plan, w, id, at, r) && n in plan.place(at, r.key)
    requires ValidRef(r) && Passes(plan.p, r, |data|, data)
    ensures C.Run(plan, ws, acts) && ws[0] == w && Counts(w, ws[|acts|], id, n, r)
  {
    if ContentAddressed(r.ns) && Visible(w.nodes[n], r) {
      var confirm := C.Confirm(id, n, None);
      OneAct(plan, w, confirm);
      ws, acts := [w, C.Do(plan, w, confirm)], [confirm];
      assert w.nodes == w.nodes[n := w.nodes[n]];
    } else if n == at {
      var t := SomeTempIsFree(w);
      ws, acts := HolderStores(plan, w, id, C.Msg(at, HopClient, r), t, data);
    } else {
      var out := C.Msg(n, HopReplica, r);
      var send := C.Forward(C.Msg(at, HopClient, r), out);
      OneAct(plan, w, send);
      var w1 := C.Do(plan, w, send);
      var t := SomeTempIsFree(w1);
      var vs, more := HolderStores(plan, w1, id, out, t, data);
      RunThen(plan, [w, w1], [send], vs, more);
      ws, acts := [w, w1] + vs[1..], [send] + more;
    }
  }

  lemma {:induction false} HoldersStore(plan: C.Plan, w: C.World, id: nat, at: string, r: Ref, data: Bytes, k: nat) returns (ws: seq<C.World>, acts: seq<C.Act>)
    requires Coordinated(plan, w, id, at, r) && k <= |plan.place(at, r.key)|
    requires ValidRef(r) && Passes(plan.p, r, |data|, data)
    ensures C.Run(plan, ws, acts) && ws[0] == w
    ensures var v, first := ws[|acts|], plan.place(at, r.key)[..k];
            && Coordinated(plan, v, id, at, r) && v.nodes.Keys == w.nodes.Keys
            && v.puts == w.puts[id := w.puts[id].(stored := w.puts[id].stored + Elements(first))]
            && forall n :: n in first ==> Visible(v.nodes[n], r)
  {
    var holders := plan.place(at, r.key);
    if k == 0 {
      ws, acts := [w], [];
      assert w.puts[id].stored + Elements<string>([]) == w.puts[id].stored;
    } else {
      ws, acts := HoldersStore(plan, w, id, at, r, data, k - 1);
      var v := ws[|acts|];
      var vs, more := OneHolderStores(plan, v, id, at, r, data, holders[k - 1]);
      RunThen(plan, ws, acts, vs, more);
      assert holders[..k] == holders[..k - 1] + [holders[k - 1]];
      assert Elements(holders[..k]) == Elements(holders[..k - 1]) + {holders[k - 1]};
      ws, acts := ws + vs[1..], acts + more;
      assert w.puts[id].stored + Elements(holders[..k]) == v.puts[id].stored + {holders[k - 1]};
    }
  }

  /**
  Acknowledgements are not idle: from any state at all, a client PUT of a body
  that passes the checks, to a holder whose holders are different nodes of the
  cluster, has a run that ends acknowledged, counting exactly those holders, with
  the object on every one of them.
  */
  lemma AcknowledgementIsReachable(plan: C.Plan, w: C.World, id: nat, at: string, r: Ref, data: Bytes) returns (ws: seq<C.World>, acts: seq<C.Act>)
    requires id !in w.puts && at in plan.place(at, r.key) && Distinct(plan.place(at, r.key))
    requires forall n :: n in plan.place(at, r.key) ==> n in w.nodes
    requires ValidRef(r) && Passes(plan.p, r, |data|, data)
    ensures C.Run(plan, ws, acts) && ws[0] == w
    ensures var v := ws[|acts|];
            && id in v.puts && v.puts[id] == C.Put(at, r, Elements(plan.place(at, r.key)), true)
            && forall n :: n in plan.place(at, r.key) ==> n in v.nodes && Visible(v.nodes[n], r)
  {
    var holders, m := plan.place(at, r.key), C.Msg(at, HopClient, r);
    var w1 := C.Do(plan, w, C.Client(at, r));
    OneAct(plan, w, C.Client(at, r));
    var w2 := C.Do(plan, w1, C.Start(id, m));
    OneAct(plan, w1, C.Start(id, m));
    RunThen(plan, [w, w1], [C.Client(at, r)], [w1, w2], [C.Start(id, m)]);
    var us, first := [w, w1] + [w1, w2][1..], [C.Client(at, r)] + [C.Start(id, m)];
    var vs, more := HoldersStore(plan, w2, id, at, r, data, |holders|);
    RunThen(plan, us, first, vs, more);
    ws, acts := us + vs[1..], first + more;
    var v := ws[|acts|];
    assert holders[..|holders|] == holders;
    DistinctSize(holders);
    assert v.puts[id].stored == Elements(holders);
    OneAct(plan, v, C.Ack(id));
    RunThen(plan, ws, acts, [v, C.Do(plan, v, C.Ack(id))], [C.Ack(id)]);
    ws, acts := ws + [v, C.Do(plan, v, C.Ack(id))][1..], acts + [C.Ack(id)];
  }

  lemma {:induction false} AllGoDown(plan: C.Plan, w: C.World, names: seq<string>) returns (ws: seq<C.World>, acts: seq<C.Act>)
    requires forall n :: n in names ==> n in w.nodes
    ensures C.Run(plan, ws, acts) && ws[0] == w && ws[|acts|] == w.(up := w.up - Elements(names))
  {
    if |names| == 0 {
      ws, acts := [w], [];
      assert w.up - Elements(names) == w.up;
    } else {
      var front, last := names[..|names| - 1], names[|names| - 1];
      assert names == front + [last];
      ws, acts := AllGoDown(plan, w, front);
      var v := ws[|acts|];
      OneAct(plan, v, C.Fail(last));
      RunThen(plan, ws, acts, [v, C.Do(plan, v, C.Fail(last))], [C.Fail(last)]);
      ws, acts := ws + [v, C.Do(plan, v, C.Fail(last))][1..], acts + [C.Fail(last)];
      assert w.up - Elements(front) - {last} == w.up - Elements(names);
    }
  }

  lemma {:induction false} AllComeBack(plan: C.Plan, w: C.World, names: seq<string>) returns (ws: seq<C.World>, acts: seq<C.Act>)
    requires forall n :: n in names ==> n in w.nodes
    ensures C.Run(plan, ws, acts) && ws[0] == w && ws[|acts|] == w.(up := w.up + Elements(names))
  {
    if |names| == 0 {
      ws, acts := [w], [];
      assert w.up + Elements(names) == w.up;
    } else {
      var front, last := names[..|names| - 1], names[|names| - 1];
      assert names == front + [last];
      ws, acts := AllComeBack(plan, w, front);
      var v := ws[|acts|];
      OneAct(plan, v, C.Rejoin(last));
      RunThen(plan, ws, acts, [v, C.Do(plan, v, C.Rejoin(last))], [C.Rejoin(last)]);
      ws, acts := ws + [v, C.Do(plan, v, C.Rejoin(last))][1..], acts + [C.Rejoin(last)];
      assert w.up + Elements(front) + {last} == w.up + Elements(names);
    }
  }

  /** Any nodes may go down together and come back, and then everything is as it was, except that they are up. */
  lemma OutageLosesNothing(plan: C.Plan, w: C.World, names: seq<string>) returns (ws: seq<C.World>, acts: seq<C.Act>, down: nat)
    requires forall n :: n in names ==> n in w.nodes
    ensures C.Run(plan, ws, acts) && ws[0] == w && down < |ws|
    ensures ws[down].up == w.up - Elements(names) && ws[|acts|] == w.(up := w.up + Elements(names))
  {
    ws, acts := AllGoDown(plan, w, names);
    down := |acts|;
    var vs, more := AllComeBack(plan, ws[down], names);
    RunThen(plan, ws, acts, vs, more);
    ws, acts := ws + vs[1..], acts + more;
    assert w.up - Elements(names) + Elements(names) == w.up + Elements(names);
  }

  /** As many failures as copies are too many: such an acknowledged PUT can be followed by the failure of every node that has the object. */
  lemma EveryCopyMayGoDown(plan: C.Plan, w: C.World, id: nat, at: string, r: Ref, data: Bytes) returns (ws: seq<C.World>, acts: seq<C.Act>)
    requires id !in w.puts && at in plan.place(at, r.key) && Distinct(plan.place(at, r.key))
    requires forall n :: n in plan.place(at, r.key) ==> n in w.nodes
    requires ValidRef(r) && Passes(plan.p, r, |data|, data)
    ensures C.Run(plan, ws, acts) && ws[0] == w
    ensures var v := ws[|acts|];
            && id in v.puts && v.puts[id].acked && v.puts[id].stored == Elements(plan.place(at, r.key))
            && forall n :: n in v.puts[id].stored ==> n in v.nodes && Visible(v.nodes[n], r) && n !in v.up
  {
    ws, acts := AcknowledgementIsReachable(plan, w, id, at, r, data);
    var vs, more := AllGoDown(plan, ws[|acts|], plan.place(at, r.key));
    RunThen(plan, ws, acts, vs, more);
    ws, acts := ws + vs[1..], acts + more;
  }
}
