/**
Hop roles (internal/protocol/protocol.go), how they travel between nodes
(internal/cluster/client.go, internal/httpapi/cache.go), and the bound they put
on forwarding.
*/
module Protocol {
  import opened Sorting
  import opened Ring

  datatype Hop = HopClient | HopCoordinator | HopReplica | HopRepair | HopRead

  const ALL_HOPS: set<Hop> := {HopClient, HopCoordinator, HopReplica, HopRepair, HopRead}

  /** The header value a hop is sent as. */
  function Header(h: Hop): (s: string) {
    match h
    case HopClient => ""
    case HopCoordinator => "coordinator"
    case HopReplica => "replica"
    case HopRepair => "repair"
    case HopRead => "read"
  }

  function ParseHop(s: string): (h: Hop) {
    if s == "coordinator" then HopCoordinator
    else if s == "replica" then HopReplica
    else if s == "repair" then HopRepair
    else if s == "read" then HopRead
    else if s == "" then HopClient
    else HopReplica
  }

  predicate Terminal(h: Hop) {
    h == HopReplica || h == HopRead || h == HopRepair
  }

  /** How many more times a request in this role may be forwarded. */
  function Rank(h: Hop): (r: nat) {
    match h
    case HopClient => 2
    case HopCoordinator => 1
    case _ => 0
  }

  /** The two headers that decide a request's role. */
  datatype Envelope = Envelope(forwardedBy: string, hop: string)

  function Sealed(self: string, h: Hop): (e: Envelope) {
    Envelope(self, Header(h))
  }

  function InboundHop(e: Envelope): (h: Hop) {
    if e.forwardedBy == "" then HopClient else ParseHop(e.hop)
  }

  /**
  A role survives the wire exactly when its sender has a name: a nameless
  sender's requests all arrive as client requests.
  */
  lemma HopSurvivesTheWire(self: string, h: Hop)
    ensures InboundHop(Sealed(self, h)) == h <==> self != "" || h == HopClient
  {
    assert "coordinator"[0] != "replica"[0] && "coordinator"[0] != "read"[0];
    assert |"replica"| != |"repair"| && |"replica"| != |"read"| && |"repair"| != |"read"|;
  }

  /** A value no version of this table knows is read as the role that forwards nothing. */
  lemma UnknownHopIsTerminal(s: string)
    requires forall h :: h in ALL_HOPS ==> s != Header(h)
    ensures Terminal(ParseHop(s)) && ParseHop(s) == HopReplica
  {
    assert HopClient in ALL_HOPS && HopCoordinator in ALL_HOPS && HopRepair in ALL_HOPS && HopRead in ALL_HOPS;
    assert s != Header(HopClient) && s != Header(HopCoordinator) && s != Header(HopRepair) && s != Header(HopRead);
  }

  /**
  A forwarded request is taken as one to forward no further exactly when it names
  a hop other than the coordinator's. Naming none is not enough, though the
  handler's comment says it is: such a request is served as a client's.
  */
  lemma ForwardedIsTerminalIff(e: Envelope)
    requires e.forwardedBy != ""
    ensures Terminal(InboundHop(e)) <==> e.hop != "" && e.hop != "coordinator"
    ensures InboundHop(e) == HopCoordinator <==> e.hop == "coordinator"
    ensures InboundHop(e) == HopRepair <==> e.hop == "repair"
    ensures InboundHop(e) == HopRead <==> e.hop == "read"
    ensures !Terminal(InboundHop(Envelope("a", ""))) && InboundHop(Envelope("a", "")) == HopClient
  {
  }

  // ---- What a node sends while serving a request ----

  datatype Message = Message(to: string, hop: Hop)

  /** One node's configuration: its own ring, which need not be anyone else's. */
  datatype Config = Config(ring: Ring, replicas: int)

  function HolderNames(h: Hashes, c: Config, key: string): (out: seq<string>) {
    Names(Holders(h, c.ring, key, c.replicas))
  }

  function Others(names: seq<string>, self: string): (out: seq<string>) {
    Without(names, self)
  }

  function To(names: seq<string>, hop: Hop): (out: seq<Message>)
    ensures |out| == |names|
    ensures forall i :: 0 <= i < |names| ==> out[i] == Message(names[i], hop)
  {
    seq(|names|, i requires 0 <= i < |names| => Message(names[i], hop))
  }

  /** The most peer writes a PUT in this role can make a node send. */
  function PutMessages(h: Hashes, c: Config, key: string, hop: Hop): (out: seq<Message>) {
    var holders := HolderNames(h, c, key);
    var replicas := To(Others(holders, c.ring.self), HopReplica);
    match hop
    case HopCoordinator => replicas
    case HopClient =>
      if c.ring.self in holders then replicas
      else if |holders| > 0 then [Message(holders[0], HopCoordinator)] else []
    case _ => []
  }

  function ReadMessages(h: Hashes, c: Config, key: string, hop: Hop): (out: seq<Message>) {
    if Terminal(hop) then []
    else To(Others(Names(Owners(h, c.ring, key)), c.ring.self), HopRead)
  }

  /** Every message is of strictly lower rank than the request it serves, on any ring. */
  lemma ForwardingDescends(h: Hashes, c: Config, key: string, hop: Hop, m: Message)
    requires m in PutMessages(h, c, key, hop) || m in ReadMessages(h, c, key, hop)
    ensures Rank(m.hop) < Rank(hop)
  {
  }

  /** A node's name and the role in which a request reaches it. */
  datatype Visit = Visit(node: string, hop: Hop)

  /** b is reached by a message a sends, with the role b decodes. */
  ghost predicate Forwards(h: Hashes, nodes: map<string, Config>, key: string, a: Visit, b: Visit) {
    a.node in nodes && var c := nodes[a.node];
    exists m :: (m in PutMessages(h, c, key, a.hop) || m in ReadMessages(h, c, key, a.hop))
                && m.to == b.node && b.hop == InboundHop(Sealed(c.ring.self, m.hop))
  }

  ghost predicate Chain(h: Hashes, nodes: map<string, Config>, key: string, vs: seq<Visit>) {
    forall i :: 0 <= i < |vs| - 1 ==> Forwards(h, nodes, key, vs[i], vs[i + 1])
  }

  ghost predicate AllNamed(nodes: map<string, Config>) {
    forall n :: n in nodes ==> nodes[n].ring.self != ""
  }

  lemma StepDescends(h: Hashes, nodes: map<string, Config>, key: string, a: Visit, b: Visit)
    requires AllNamed(nodes) && Forwards(h, nodes, key, a, b)
    ensures Rank(b.hop) < Rank(a.hop)
  {
    var c := nodes[a.node];
    var m :| (m in PutMessages(h, c, key, a.hop) || m in ReadMessages(h, c, key, a.hop))
             && m.to == b.node && b.hop == InboundHop(Sealed(c.ring.self, m.hop));
    ForwardingDescends(h, c, key, a.hop, m);
    HopSurvivesTheWire(c.ring.self, m.hop);
  }

  /** No request visits more than 1 + Rank nodes, whatever rings the nodes were given. */
  lemma {:induction false} ChainsAreShort(h: Hashes, nodes: map<string, Config>, key: string, vs: seq<Visit>)
    requires AllNamed(nodes) && Chain(h, nodes, key, vs) && |vs| > 0
    ensures |vs| <= Rank(vs[0].hop) + 1 <= 3
  {
    if |vs| > 1 {
      assert Forwards(h, nodes, key, vs[0], vs[1]);
      StepDescends(h, nodes, key, vs[0], vs[1]);
      forall i | 0 <= i < |vs[1..]| - 1 ensures Forwards(h, nodes, key, vs[1..][i], vs[1..][i + 1]) {
        assert Forwards(h, nodes, key, vs[i + 1], vs[i + 2]);
      }
      ChainsAreShort(h, nodes, key, vs[1..]);
    }
  }

  /** A ring with one member. */
  function Alone(name: string, self: string): (c: Config) {
    Config(Ring([Member(name, "u", 0)], self), 1)
  }

  /**
  The bound needs the name: a node with an empty name, which New accepts, sends
  its client PUTs to its first holder as client PUTs, so one whose ring is itself
  alone forwards to itself without end, whatever the other nodes are.
  */
  lemma NamelessNodesForwardForever(h: Hashes, nodes: map<string, Config>, key: string, a: string, n: nat)
    requires a in nodes && a != "" && nodes[a] == Alone(a, "")
    ensures Chain(h, nodes, key, seq(n, _ => Visit(a, HopClient)))
  {
    var c := nodes[a];
    var less := Prefer(MemberWeight(h, key));
    assert c.ring.members[..0] == [];
    assert Sort(less, c.ring.members) == Insert(less, c.ring.members[0], []);
    assert Owners(h, c.ring, key) == c.ring.members;
    assert HolderNames(h, c, key) == [a];
    assert Message(a, HopCoordinator) in PutMessages(h, c, key, HopClient);
    assert Forwards(h, nodes, key, Visit(a, HopClient), Visit(a, HopClient));
  }

  /** Rings New accepts, for nodes whose own names are given by address. */
  ghost predicate Configured(nodes: map<string, Config>, selves: map<string, string>) {
    && nodes.Keys == selves.Keys
    && forall a :: a in nodes ==>
         && ValidRing(nodes[a].ring) && nodes[a].ring.self == selves[a] && "" !in Names(nodes[a].ring.members)
         && (selves[a] != "" ==> selves[a] in Names(nodes[a].ring.members))
  }

  /** Whatever rings these nodes are given, no request is forwarded further than its rank. */
  ghost predicate ForwardingBounded(h: Hashes, key: string, selves: map<string, string>) {
    forall nodes: map<string, Config>, vs: seq<Visit> :: Configured(nodes, selves) && Chain(h, nodes, key, vs) && |vs| > 0 ==> |vs| <= Rank(vs[0].hop) + 1
  }

  /** Forwarding is bounded for every choice of rings exactly when every node has a name. */
  lemma ForwardingBoundedIffNamed(h: Hashes, key: string, selves: map<string, string>)
    requires "" !in selves
    ensures ForwardingBounded(h, key, selves) <==> forall a :: a in selves ==> selves[a] != ""
  {
    if forall a :: a in selves ==> selves[a] != "" {
      forall nodes: map<string, Config>, vs: seq<Visit> | Configured(nodes, selves) && Chain(h, nodes, key, vs) && |vs| > 0 ensures |vs| <= Rank(vs[0].hop) + 1 {
        ChainsAreShort(h, nodes, key, vs);
      }
    } else {
      var a :| a in selves && selves[a] == "";
      var nodes := AllAlone(selves);
      AllAloneConfigured(selves);
      NamelessNodesForwardForever(h, nodes, key, a, 4);
      var vs := seq(4, _ => Visit(a, HopClient));
      assert |vs| > Rank(vs[0].hop) + 1;
    }
  }

  /** Every node in a ring of its own. */
  function AllAlone(selves: map<string, string>): (nodes: map<string, Config>) {
    map b | b in selves :: Alone(if selves[b] == "" then b else selves[b], selves[b])
  }

  lemma AllAloneConfigured(selves: map<string, string>)
    requires "" !in selves
    ensures Configured(AllAlone(selves), selves)
  {
    forall b | b in selves ensures Names(AllAlone(selves)[b].ring.members) == [if selves[b] == "" then b else selves[b]] {
    }
  }

  // ---- How many peer writes one PUT causes, transitively ----

  /** All peer writes a PUT arriving at a node can cause, its own and those of the nodes it reaches. */
  function WritesCaused(h: Hashes, nodes: map<string, Config>, key: string, at: string, hop: Hop): (out: seq<Message>)
    decreases Rank(hop), 0
  {
    if at !in nodes then []
    else
      var sent := PutMessages(h, nodes[at], key, hop);
      sent + OnwardWrites(h, nodes, key, hop, sent)
  }

  function OnwardWrites(h: Hashes, nodes: map<string, Config>, key: string, hop: Hop, sent: seq<Message>): (out: seq<Message>)
    decreases Rank(hop), 0, |sent|
  {
    if |sent| == 0 || Rank(sent[0].hop) >= Rank(hop) then []
    else WritesCaused(h, nodes, key, sent[0].to, sent[0].hop) + OnwardWrites(h, nodes, key, hop, sent[1..])
  }

  lemma {:induction false} OthersShorter(names: seq<string>, self: string)
    ensures |Others(names, self)| <= |names|
    ensures self !in Others(names, self)
  {
    if |names| > 0 {
      OthersShorter(names[1..], self);
    }
  }

  lemma {:induction false} ReplicasCauseNothing(h: Hashes, nodes: map<string, Config>, key: string, hop: Hop, sent: seq<Message>)
    requires forall i :: 0 <= i < |sent| ==> Terminal(sent[i].hop)
    ensures OnwardWrites(h, nodes, key, hop, sent) == []
  {
    if |sent| > 0 && Rank(hop) > 0 {
      ReplicasCauseNothing(h, nodes, key, hop, sent[1..]);
      var onward := OnwardWrites(h, nodes, key, sent[0].hop, []);
      assert WritesCaused(h, nodes, key, sent[0].to, sent[0].hop) == [];
    }
  }

  lemma CoordinatorWrites(h: Hashes, nodes: map<string, Config>, key: string, at: string, bound: nat)
    requires forall n :: n in nodes ==> |HolderNames(h, nodes[n], key)| <= bound
    ensures |WritesCaused(h, nodes, key, at, HopCoordinator)| <= bound
  {
    if at in nodes {
      var c := nodes[at];
      OthersShorter(HolderNames(h, c, key), c.ring.self);
      ReplicasCauseNothing(h, nodes, key, HopCoordinator, PutMessages(h, c, key, HopCoordinator));
    }
  }

  /** One client PUT causes at most one proxied write plus one write per holder, on any rings. */
  lemma ClientPutWritesAreBounded(h: Hashes, nodes: map<string, Config>, key: string, at: string, bound: nat)
    requires forall n :: n in nodes ==> |HolderNames(h, nodes[n], key)| <= bound
    ensures |WritesCaused(h, nodes, key, at, HopClient)| <= 1 + bound
  {
    if at in nodes {
      var c := nodes[at];
      var holders := HolderNames(h, c, key);
      var sent := PutMessages(h, c, key, HopClient);
      if c.ring.self in holders {
        OthersShorter(holders, c.ring.self);
        ReplicasCauseNothing(h, nodes, key, HopClient, sent);
      } else if |holders| > 0 {
        CoordinatorWrites(h, nodes, key, holders[0], bound);
        assert sent[1..] == [];
        assert OnwardWrites(h, nodes, key, HopClient, sent[1..]) == [];
        assert OnwardWrites(h, nodes, key, HopClient, sent)
            == WritesCaused(h, nodes, key, holders[0], HopCoordinator) + [];
      }
    }
  }
}
