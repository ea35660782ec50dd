/**
The coordinator (internal/cluster/coordinator.go): hop dispatch, synchronous
replication, and read fallback. The local store's answer and each peer's answer
are parameters, so the results hold for every failure pattern.
*/
module Coordination {
  import opened Base
  import opened Sorting
  import opened Ring
  import opened Protocol

  /** What the local store answered to a Put. */
  datatype LocalPut = LocalStored(size: int, already: bool, durable: bool) | LocalRefused

  /** What a peer write came to; only Accepted is a nil error. */
  datatype Reply = Accepted | DeclinedOverQuota | Failed

  datatype Outcome = Outcome(size: int, already: bool, copies: nat, wanted: nat, holders: seq<string>, durable: bool)

  datatype PutError = ErrOverQuota | ErrLocal | ErrNoPeers | ErrInsufficientReplicas(want: nat, got: nat)

  datatype PutAnswer = Acked(outcome: Outcome) | Nacked(outcome: Outcome, error: PutError)

  const NOTHING := Outcome(0, false, 0, 0, [], false)

  datatype FanOutResult = FanOutResult(peer: string, reply: Reply)

  /** The quota probe's reading: none when there is no probe or the index could not be read. */
  datatype Usage = Usage(used: nat, high: nat)

  predicate OverHighWater(probe: Option<Usage>) {
    probe.Some? && probe.value.used > probe.value.high
  }

  /** The targets that accepted, in target order. */
  function Accepting(targets: seq<string>, reply: string -> Reply): (out: seq<string>) {
    if |targets| == 0 then []
    else if reply(targets[0]) == Accepted then [targets[0]] + Accepting(targets[1..], reply)
    else Accepting(targets[1..], reply)
  }

  lemma {:induction false} AcceptingSnoc(targets: seq<string>, t: string, reply: string -> Reply)
    ensures Accepting(targets + [t], reply) == Accepting(targets, reply) + (if reply(t) == Accepted then [t] else [])
  {
    if |targets| == 0 {
      assert targets + [t] == [t];
      assert [t][1..] == [];
    } else {
      assert (targets + [t])[1..] == targets[1..] + [t];
      AcceptingSnoc(targets[1..], t, reply);
    }
  }

  lemma {:induction false} AcceptingMembers(targets: seq<string>, reply: string -> Reply)
    ensures forall n :: n in Accepting(targets, reply) <==> n in targets && reply(n) == Accepted
    ensures |Accepting(targets, reply)| <= |targets|
    ensures |Accepting(targets, reply)| == |targets| <==> forall n :: n in targets ==> reply(n) == Accepted
  {
    if |targets| > 0 {
      AcceptingMembers(targets[1..], reply);
      assert targets == [targets[0]] + targets[1..];
    }
  }

  lemma {:induction false} AcceptingDistinct(targets: seq<string>, reply: string -> Reply)
    requires Distinct(targets)
    ensures Distinct(Accepting(targets, reply))
  {
    if |targets| > 0 {
      AcceptingDistinct(targets[1..], reply);
      AcceptingMembers(targets[1..], reply);
    }
  }

  lemma {:induction false} OthersDistinct(names: seq<string>, self: string)
    requires Distinct(names)
    ensures Distinct(Others(names, self))
    ensures forall n :: n in Others(names, self) <==> n in names && n != self
    ensures |Others(names, self)| == if self in names then |names| - 1 else |names|
  {
    if |names| > 0 {
      OthersDistinct(names[1..], self);
      assert names == [names[0]] + names[1..];
      assert names[0] !in names[1..];
    }
  }

  /** The schedule in which the fan-out goroutines happen to finish. */
  ghost predicate Schedule(order: seq<nat>, n: nat) {
    |order| == n && Distinct(order) && forall i :: 0 <= i < n ==> order[i] < n
  }

  lemma ScheduleCovers(order: seq<nat>, n: nat, i: nat)
    requires Schedule(order, n) && i < n
    ensures i in order
  {
    UptoSize(n);
    DistinctSize(order);
    SubsetSize(Elements(order), Upto(n));
    assert i in Elements(order);
  }

  function Upto(n: nat): (r: set<nat>)
    ensures forall k: nat :: k in r <==> k < n
  {
    if n == 0 then {} else Upto(n - 1) + {n - 1}
  }

  lemma {:induction false} UptoSize(n: nat)
    ensures |Upto(n)| == n
  {
    if n > 0 {
      UptoSize(n - 1);
    }
  }

  // ---- Reads ----

  datatype LocalRead = LocalHit | LocalAbsent | LocalError

  datatype ReadReply = Hit | Absent | Unreachable

  datatype Verdict = ServedLocally | ServedBy(node: string) | NotFound | AllUnreachable | ReadFailed

  /** The peers a client read tries, in order. */
  function ReadOrder(h: Hashes, c: Config, key: string): (out: seq<string>) {
    Others(Names(Owners(h, c.ring, key)), c.ring.self)
  }

  /** Every ring member but this node, each once, and those are the messages a client read may send. */
  lemma ReadOrderIsEveryOther(h: Hashes, c: Config, key: string)
    requires ValidRing(c.ring)
    ensures Distinct(ReadOrder(h, c, key))
    ensures forall n :: n in ReadOrder(h, c, key) <==> n in Names(c.ring.members) && n != c.ring.self
    ensures ReadMessages(h, c, key, HopClient) == To(ReadOrder(h, c, key), HopRead)
  {
    var owners := Owners(h, c.ring, key);
    OwnersAreTheMembers(h, c.ring, key);
    NamesDistinct(c.ring, owners);
    OthersDistinct(Names(owners), c.ring.self);
    forall n ensures n in Names(owners) <==> n in Names(c.ring.members) {
      SameNames(owners, c.ring.members, n);
      SameNames(c.ring.members, owners, n);
    }
  }

  /** Two entries of a list with one value left out are entries of the list, in the same order. */
  lemma {:induction false} WithoutKeepsOrder<T(!new)>(s: seq<T>, x: T, i: nat, j: nat) returns (p: nat, q: nat)
    requires i < j < |Without(s, x)|
    ensures p < q < |s| && s[p] == Without(s, x)[i] && s[q] == Without(s, x)[j]
  {
    if s[0] == x {
      p, q := WithoutKeepsOrder(s[1..], x, i, j);
      p, q := p + 1, q + 1;
    } else if i > 0 {
      p, q := WithoutKeepsOrder(s[1..], x, i - 1, j - 1);
      p, q := p + 1, q + 1;
    } else {
      q := WithoutHas(s[1..], x, j - 1);
      p, q := 0, q + 1;
    }
  }

  lemma {:induction false} WithoutHas<T(!new)>(s: seq<T>, x: T, j: nat) returns (q: nat)
    requires j < |Without(s, x)|
    ensures q < |s| && s[q] == Without(s, x)[j]
  {
    if s[0] == x {
      q := WithoutHas(s[1..], x, j);
      q := q + 1;
    } else if j == 0 {
      q := 0;
    } else {
      q := WithoutHas(s[1..], x, j - 1);
      q := q + 1;
    }
  }

  /** A member asked earlier outweighs one asked later, and the key's holders are asked before everyone else. */
  lemma HoldersAreAskedFirst(h: Hashes, c: Config, key: string, i: nat, j: nat, a: Member, b: Member)
    requires ValidRing(c.ring) && i < j < |ReadOrder(h, c, key)|
    requires a in c.ring.members && a.name == ReadOrder(h, c, key)[i]
    requires b in c.ring.members && b.name == ReadOrder(h, c, key)[j]
    ensures Weight(KeySeed(h, key), a.seed) >= Weight(KeySeed(h, key), b.seed)
    ensures b.name in HolderNames(h, c, key) ==> a.name in HolderNames(h, c, key)
  {
    var p, q := AskedInOrder(h, c, key, i, j, a, b);
    OwnersAreTheMembers(h, c.ring, key);
    NamesDistinct(c.ring, Owners(h, c.ring, key));
    HoldersComeFirst(h, c, key);
    EarlierInPrefix(Names(Owners(h, c.ring, key)), |HolderNames(h, c, key)|, p, q);
  }

  lemma AskedInOrder(h: Hashes, c: Config, key: string, i: nat, j: nat, a: Member, b: Member) returns (p: nat, q: nat)
    requires ValidRing(c.ring) && i < j < |ReadOrder(h, c, key)|
    requires a in c.ring.members && a.name == ReadOrder(h, c, key)[i]
    requires b in c.ring.members && b.name == ReadOrder(h, c, key)[j]
    ensures p < q < |Owners(h, c.ring, key)| && Owners(h, c.ring, key)[p] == a && Owners(h, c.ring, key)[q] == b
  {
    var owners := Owners(h, c.ring, key);
    p, q := WithoutKeepsOrder(Names(owners), c.ring.self, i, j);
    OwnersAreTheMembers(h, c.ring, key);
    ValidRingNames(c.ring);
    assert owners[p] in Elements(owners) && owners[q] in Elements(owners);
    assert a in Elements(c.ring.members) && b in Elements(c.ring.members);
  }

  lemma HoldersComeFirst(h: Hashes, c: Config, key: string)
    requires ValidRing(c.ring)
    ensures var names, n := Names(Owners(h, c.ring, key)), |HolderNames(h, c, key)|;
            n <= |names| && HolderNames(h, c, key) == names[..n]
  {
    HoldersAreDistinctMembers(h, c.ring, key, c.replicas);
  }

  lemma EarlierInPrefix(names: seq<string>, n: nat, p: nat, q: nat)
    requires Distinct(names) && n <= |names| && p < q < |names|
    ensures names[q] in names[..n] ==> names[p] in names[..n]
  {
    if names[q] in names[..n] {
      var k :| 0 <= k < n && names[k] == names[q];
      assert names[..n][p] == names[p];
    }
  }

  lemma SameNames(a: seq<Member>, b: seq<Member>, n: string)
    requires Elements(a) <= Elements(b)
    ensures n in Names(a) ==> n in Names(b)
  {
    if n in Names(a) {
      var i :| 0 <= i < |a| && Names(a)[i] == n;
      assert a[i] in Elements(a);
      assert a[i] in b;
      var j :| 0 <= j < |b| && b[j] == a[i];
      assert Names(b)[j] == n;
    }
  }

  /** What a read of a key this node does not have comes to. */
  ghost predicate FallbackVerdict(order: seq<string>, reply: string -> ReadReply, v: Verdict) {
    match v
    case ServedBy(n) =>
      exists i :: 0 <= i < |order| && order[i] == n && reply(n) == Hit
                  && forall j :: 0 <= j < i ==> reply(order[j]) != Hit
    case NotFound => forall n :: n in order ==> reply(n) == Absent
    case AllUnreachable =>
      (forall n :: n in order ==> reply(n) != Hit) && exists n :: n in order && reply(n) == Unreachable
    case _ => false
  }

  /** The nodes a coordinated PUT counts: this one, then the targets that accepted. */
  function CopyHolders(self: string, targets: seq<string>, hasPeers: bool, reply: string -> Reply): (out: seq<string>) {
    [self] + if hasPeers then Accepting(targets, reply) else []
  }

  /**
  The counted nodes are pairwise different and each really accepted, so a count
  of Wanted is Wanted distinct copies -- also on a coordinator that is not one of
  its own ring's holders. From a holder, Wanted is reached only if all accept.
  */
  lemma AckMeansDistinctCopies(h: Hashes, c: Config, key: string, hasPeers: bool, reply: string -> Reply)
    requires ValidRing(c.ring)
    ensures var holders := HolderNames(h, c, key);
            var acked := CopyHolders(c.ring.self, Others(holders, c.ring.self), hasPeers, reply);
            && Distinct(acked) && |Elements(acked)| == |acked|
            && (forall n :: n in acked <==> n == c.ring.self || (hasPeers && n in holders && reply(n) == Accepted))
            && (hasPeers && c.ring.self in holders ==>
                  (|acked| >= |holders| <==> forall n :: n in holders && n != c.ring.self ==> reply(n) == Accepted))
  {
    var holders := HolderNames(h, c, key);
    var targets := Others(holders, c.ring.self);
    HoldersAreDistinctMembers(h, c.ring, key, c.replicas);
    OthersDistinct(holders, c.ring.self);
    AcceptingMembers(targets, reply);
    AcceptingDistinct(targets, reply);
    DistinctSize(CopyHolders(c.ring.self, targets, hasPeers, reply));
  }

  /** The loop Open and Stat both run over the other members; asked is whom it contacted. */
  method TryPeers(order: seq<string>, reply: string -> ReadReply) returns (v: Verdict, asked: seq<string>)
    ensures FallbackVerdict(order, reply, v)
    ensures asked <= order
    ensures v.ServedBy? ==> |asked| > 0 && v.node == asked[|asked| - 1]
    ensures !v.ServedBy? ==> asked == order
  {
    asked := [];
    var lastErr := false;
    for i := 0 to |order|
      invariant asked == order[..i]
      invariant forall j :: 0 <= j < i ==> reply(order[j]) != Hit
      invariant lastErr <==> exists j :: 0 <= j < i && reply(order[j]) == Unreachable
    {
      asked := asked + [order[i]];
      assert order[..i + 1] == order[..i] + [order[i]];
      if reply(order[i]) == Hit {
        return ServedBy(order[i]), asked;
      }
      if reply(order[i]) != Absent {
        lastErr := true;
      }
    }
    assert order[..|order|] == order;
    v := if lastErr then AllUnreachable else NotFound;
  }

  lemma SentToOthers(names: seq<string>, self: string)
    requires Distinct(names)
    ensures forall m: Message :: m in To(Others(names, self), HopReplica) <==> m.hop == HopReplica && m.to in names && m.to != self
  {
    OthersDistinct(names, self);
    var targets := Others(names, self);
    forall m: Message | m.hop == HopReplica && m.to in targets ensures m in To(targets, HopReplica) {
      var i :| 0 <= i < |targets| && targets[i] == m.to;
      assert To(targets, HopReplica)[i] == m;
    }
  }

  class Coordinator {
    const h: Hashes
    const config: Config
    const hasPeers: bool

    var coordinatedPuts: nat
    var forwardedPuts: nat
    var replicaWrites: nat
    var replicaFailures: nat
    var insufficientAcks: nat
    var repairDeclined: nat
    var localHits: nat
    var peerHits: nat
    var misses: nat

    ghost predicate Valid() {
      ValidRing(config.ring)
    }

    function Wanted(key: string): (w: nat) {
      |HolderNames(h, config, key)|
    }

    constructor (h: Hashes, ring: Ring, replicaCount: int, hasPeers: bool)
      requires ValidRing(ring)
      ensures Valid() && this.h == h && config.ring == ring && this.hasPeers == hasPeers
      ensures 1 <= config.replicas <= |ring.members|
      ensures 1 <= replicaCount <= |ring.members| ==> config.replicas == replicaCount
      ensures replicaCount < 1 ==> config.replicas == 1
      ensures replicaCount > |ring.members| ==> config.replicas == |ring.members|
    {
      this.h := h;
      config := Config(ring, Clamp(replicaCount, |ring.members|));
      this.hasPeers := hasPeers;
      coordinatedPuts, forwardedPuts, replicaWrites, replicaFailures := 0, 0, 0, 0;
      insufficientAcks, repairDeclined, localHits, peerHits, misses := 0, 0, 0, 0, 0;
    }

    /** Whatever order the goroutines finish in, slot i holds target i's own result. */
    method FanOut(targets: seq<string>, reply: string -> Reply, order: seq<nat>) returns (results: seq<FanOutResult>)
      requires Schedule(order, |targets|)
      ensures |results| == |targets|
      ensures forall i :: 0 <= i < |targets| ==> results[i] == FanOutResult(targets[i], reply(targets[i]))
    {
      var slots := new FanOutResult[|targets|](_ => FanOutResult("", Failed));
      for k := 0 to |order|
        invariant forall j :: 0 <= j < k ==> slots[order[j]] == FanOutResult(targets[order[j]], reply(targets[order[j]]))
      {
        var i := order[k];
        slots[i] := FanOutResult(targets[i], reply(targets[i]));
      }
      forall i | 0 <= i < |targets| ensures slots[i] == FanOutResult(targets[i], reply(targets[i])) {
        ScheduleCovers(order, |targets|, i);
      }
      results := slots[..];
    }

    /** Fan out and collect: the peers that accepted, in target order, and how many did not. */
    method Replicate(targets: seq<string>, reply: string -> Reply, order: seq<nat>) returns (acked: seq<string>, failures: nat)
      requires Schedule(order, |targets|)
      ensures acked == Accepting(targets, reply) && failures == |targets| - |acked|
    {
      var results := FanOut(targets, reply, order);
      acked, failures := [], 0;
      for i := 0 to |results|
        invariant acked == Accepting(targets[..i], reply) && failures == i - |acked|
      {
        AcceptingSnoc(targets[..i], targets[i], reply);
        assert targets[..i + 1] == targets[..i] + [targets[i]];
        if results[i].reply == Accepted {
          acked := acked + [results[i].peer];
        } else {
          failures := failures + 1;
        }
      }
      assert targets[..|targets|] == targets;
    }

    /**
    Success means at least Wanted different nodes stored the object, and anything
    less is an error that carries the true count. reply(n) is what replicating to
    n came to, including a local copy that could not be reopened.
    */
    method Coordinate(key: string, local: LocalPut, reply: string -> Reply, order: seq<nat>)
      returns (a: PutAnswer, ghost sent: seq<Message>)
      requires Valid() && Schedule(order, |Others(HolderNames(h, config, key), config.ring.self)|)
      modifies this`coordinatedPuts, this`replicaFailures, this`insufficientAcks
      ensures local.LocalRefused? ==> a == Nacked(NOTHING, ErrLocal) && sent == [] && unchanged(this)
      ensures local.LocalStored? ==>
                var targets := Others(HolderNames(h, config, key), config.ring.self);
                var acked := CopyHolders(config.ring.self, targets, hasPeers, reply);
                && a.outcome == Outcome(local.size, local.already, |acked|, Wanted(key), acked, local.durable)
                && (a.Acked? <==> |acked| >= Wanted(key))
                && (a.Nacked? ==> a.error == ErrInsufficientReplicas(Wanted(key), |acked|))
                && insufficientAcks == old(insufficientAcks) + (if a.Nacked? then 1 else 0)
                && coordinatedPuts == old(coordinatedPuts) + 1
                && replicaFailures == old(replicaFailures) + (if hasPeers then |targets| + 1 - |acked| else 0)
                && sent == if hasPeers then To(targets, HopReplica) else []
    {
      sent := [];
      var holders := HolderNames(h, config, key);
      var self := config.ring.self;
      if local.LocalRefused? {
        return Nacked(NOTHING, ErrLocal), [];
      }
      coordinatedPuts := coordinatedPuts + 1;
      var acked := [self];
      var targets := Others(holders, self);
      if |targets| > 0 && hasPeers {
        var remote, failures := Replicate(targets, reply, order);
        sent := To(targets, HopReplica);
        acked := acked + remote;
        replicaFailures := replicaFailures + failures;
      }
      assert acked == CopyHolders(self, targets, hasPeers, reply);
      var outcome := Outcome(local.size, local.already, |acked|, |holders|, acked, local.durable);
      if |acked| < |holders| {
        insufficientAcks := insufficientAcks + 1;
        return Nacked(outcome, ErrInsufficientReplicas(|holders|, |acked|)), sent;
      }
      a := Acked(outcome);
    }

    /**
    A front door that is not a holder stores nothing and sends one message. Its
    acknowledgement repeats its own ring's holder list, not what the owner wrote.
    */
    method ProxyPut(key: string, declaredSize: int, reply: Reply) returns (a: PutAnswer, ghost sent: seq<Message>)
      requires Valid() && config.ring.self !in HolderNames(h, config, key)
      modifies this`forwardedPuts, this`insufficientAcks
      ensures a.Acked? <==> hasPeers && reply == Accepted
      ensures a.Acked? ==> a.outcome == FrontOutcome(h, config, key, declaredSize)
      ensures !hasPeers ==> a == Nacked(NOTHING, ErrNoPeers)
      ensures a.Nacked? && hasPeers ==> a.outcome == NOTHING.(wanted := Wanted(key)) && a.error == ErrInsufficientReplicas(Wanted(key), 0)
      ensures sent == if hasPeers then PutMessages(h, config, key, HopClient) else []
      ensures forwardedPuts == old(forwardedPuts) + if hasPeers then 1 else 0
      ensures insufficientAcks == old(insufficientAcks) + if hasPeers && a.Nacked? then 1 else 0
    {
      if !hasPeers {
        return Nacked(NOTHING, ErrNoPeers), [];
      }
      HoldersAreDistinctMembers(h, config.ring, key, config.replicas);
      var holders := HolderNames(h, config, key);
      forwardedPuts := forwardedPuts + 1;
      sent := [Message(holders[0], HopCoordinator)];
      if reply == Accepted {
        return Acked(Outcome(declaredSize, false, |holders|, |holders|, holders, true)), sent;
      }
      insufficientAcks := insufficientAcks + 1;
      return Nacked(NOTHING.(wanted := |holders|), ErrInsufficientReplicas(|holders|, 0)), sent;
    }

    /** Store one copy here and nothing else. */
    method PutLocalOnly(local: LocalPut) returns (a: PutAnswer)
      modifies this`replicaWrites
      ensures local.LocalRefused? ==> a == Nacked(NOTHING, ErrLocal) && unchanged(this)
      ensures local.LocalStored? ==>
                && a == Acked(Outcome(local.size, local.already, 1, 1, [config.ring.self], local.durable))
                && replicaWrites == old(replicaWrites) + 1
    {
      if local.LocalRefused? {
        return Nacked(NOTHING, ErrLocal);
      }
      replicaWrites := replicaWrites + 1;
      return Acked(Outcome(local.size, local.already, 1, 1, [config.ring.self], local.durable));
    }

    /**
    Hop dispatch. stored says whether the local store was asked to write; a
    repair write never reaches it while the node is over its high-water mark.
    */
    method Put(key: string, declaredSize: int, hop: Hop, probe: Option<Usage>, local: LocalPut, reply: string -> Reply, order: seq<nat>)
      returns (a: PutAnswer, stored: bool, ghost sent: seq<Message>)
      requires Valid() && Schedule(order, |Others(HolderNames(h, config, key), config.ring.self)|)
      modifies this
      ensures stored <==> if hop == HopRepair then probe.Some? ==> probe.value.used <= probe.value.high
                          else hop == HopClient ==> config.ring.self in HolderNames(h, config, key)
      ensures hop == HopRepair && !stored ==>
                a == Nacked(Outcome(0, false, 0, 0, [], false), ErrOverQuota) && repairDeclined == old(repairDeclined) + 1
      ensures stored && local.LocalRefused? ==> a == Nacked(Outcome(0, false, 0, 0, [], false), ErrLocal)
      ensures Terminal(hop) && stored && local.LocalStored? ==>
                && a == Acked(Outcome(local.size, local.already, 1, 1, [config.ring.self], local.durable))
                && replicaWrites == old(replicaWrites) + 1
      ensures !Terminal(hop) && stored && local.LocalStored? ==>
                var holders, o := HolderNames(h, config, key), a.outcome;
                && o.size == local.size && o.already == local.already && o.durable == local.durable
                && o.wanted == |holders| && o.copies == |o.holders| == |Elements(o.holders)|
                && (forall n :: n in o.holders <==> n == config.ring.self || (hasPeers && n in holders && reply(n) == Accepted))
                && (a.Acked? <==> o.copies >= o.wanted)
                && (a.Nacked? ==> a.error == ErrInsufficientReplicas(o.wanted, o.copies))
                && (hasPeers && config.ring.self in holders ==>
                      (a.Acked? <==> forall n :: n in holders && n != config.ring.self ==> reply(n) == Accepted))
                && coordinatedPuts == old(coordinatedPuts) + 1
                && insufficientAcks == old(insufficientAcks) + if a.Nacked? then 1 else 0
      ensures hop == HopClient && !stored ==>
                var holders := HolderNames(h, config, key);
                && |holders| > 0 && (a.Acked? <==> hasPeers && reply(holders[0]) == Accepted)
                && (a.Acked? ==> a.outcome == Outcome(declaredSize, false, |holders|, |holders|, holders, true))
                && (a.Nacked? ==> a.error == if hasPeers then ErrInsufficientReplicas(|holders|, 0) else ErrNoPeers)
                && forwardedPuts == old(forwardedPuts) + if hasPeers then 1 else 0
      ensures forall m :: m in sent <==>
                && m in PutMessages(h, config, key, hop) && hasPeers && (stored ==> local.LocalStored?)
      ensures forall m :: m in sent <==>
                && hasPeers && !Terminal(hop)
                && if stored then local.LocalStored? && m.hop == HopReplica && m.to in HolderNames(h, config, key) && m.to != config.ring.self
                   else |HolderNames(h, config, key)| > 0 && m == Message(HolderNames(h, config, key)[0], HopCoordinator)
    {
      sent, stored := [], true;
      HoldersAreDistinctMembers(h, config.ring, key, config.replicas);
      AckMeansDistinctCopies(h, config, key, hasPeers, reply);
      SentToOthers(HolderNames(h, config, key), config.ring.self);
      match hop {
        case HopRepair =>
          if OverHighWater(probe) {
            repairDeclined := repairDeclined + 1;
            return Nacked(NOTHING, ErrOverQuota), false, [];
          }
          a := PutLocalOnly(local);
        case HopReplica =>
          a := PutLocalOnly(local);
        case HopCoordinator =>
          a, sent := Coordinate(key, local, reply, order);
        case HopRead =>
          a := PutLocalOnly(local);
        case HopClient =>
          var holders := HolderNames(h, config, key);
          if config.ring.self in holders {
            a, sent := Coordinate(key, local, reply, order);
          } else {
            stored := false;
            a, sent := ProxyPut(key, declaredSize, reply(holders[0]));
          }
      }
    }

    /**
    Open: local copy first, then every other member in preference order. A miss
    is reported only when all of them said so; asked is whom this read contacted.
    */
    method Open(key: string, hop: Hop, local: LocalRead, reply: string -> ReadReply)
      returns (v: Verdict, ghost asked: seq<string>)
      requires Valid()
      modifies this`localHits, this`peerHits, this`misses
      ensures v == ServedLocally <==> local == LocalHit
      ensures v == ReadFailed <==> local == LocalError
      ensures local == LocalAbsent && (Terminal(hop) || !hasPeers) ==> v == NotFound && asked == []
      ensures local == LocalAbsent && !Terminal(hop) && hasPeers ==>
                && FallbackVerdict(ReadOrder(h, config, key), reply, v)
                && asked <= ReadOrder(h, config, key)
                && (v.ServedBy? ==> |asked| > 0 && v.node == asked[|asked| - 1])
                && (!v.ServedBy? ==> asked == ReadOrder(h, config, key))
      ensures local != LocalAbsent ==> asked == []
      ensures localHits == old(localHits) + if v == ServedLocally then 1 else 0
      ensures peerHits == old(peerHits) + if v.ServedBy? then 1 else 0
      ensures misses == old(misses) + if v == NotFound || v == AllUnreachable then 1 else 0
    {
      asked := [];
      if local == LocalHit {
        localHits := localHits + 1;
        return ServedLocally, [];
      }
      if local == LocalError {
        return ReadFailed, [];
      }
      if Terminal(hop) || !hasPeers {
        misses := misses + 1;
        return NotFound, [];
      }
      v, asked := TryPeers(ReadOrder(h, config, key), reply);
      if v.ServedBy? {
        peerHits := peerHits + 1;
      } else {
        misses := misses + 1;
      }
    }

    /** Stat asks the same members the same way, so the same answers give the same verdict. */
    method Stat(key: string, hop: Hop, local: LocalRead, reply: string -> ReadReply)
      returns (v: Verdict)
      requires Valid()
      modifies this`localHits, this`peerHits, this`misses
      ensures v == ServedLocally <==> local == LocalHit
      ensures v == ReadFailed <==> local == LocalError
      ensures local == LocalAbsent && (Terminal(hop) || !hasPeers) ==> v == NotFound
      ensures local == LocalAbsent && !Terminal(hop) && hasPeers ==>
                FallbackVerdict(ReadOrder(h, config, key), reply, v)
      ensures localHits == old(localHits) + if v == ServedLocally then 1 else 0
      ensures peerHits == old(peerHits) + if v.ServedBy? then 1 else 0
      ensures misses == old(misses) + if v == NotFound || v == AllUnreachable then 1 else 0
    {
      if local == LocalHit {
        localHits := localHits + 1;
        return ServedLocally;
      }
      if local == LocalError {
        return ReadFailed;
      }
      if Terminal(hop) || !hasPeers {
        misses := misses + 1;
        return NotFound;
      }
      var asked;
      v, asked := TryPeers(ReadOrder(h, config, key), reply);
      if v.ServedBy? {
        peerHits := peerHits + 1;
      } else {
        misses := misses + 1;
      }
    }
  }

  /** The verdict is a function of the answers: Open and Stat cannot disagree on the same ones. */
  lemma VerdictIsDetermined(order: seq<string>, reply: string -> ReadReply, v1: Verdict, v2: Verdict)
    requires Distinct(order)
    requires FallbackVerdict(order, reply, v1) && FallbackVerdict(order, reply, v2)
    ensures v1 == v2
  {
    if v1.ServedBy? && v2.ServedBy? {
      var i :| 0 <= i < |order| && order[i] == v1.node && reply(v1.node) == Hit
               && forall j :: 0 <= j < i ==> reply(order[j]) != Hit;
      var k :| 0 <= k < |order| && order[k] == v2.node && reply(v2.node) == Hit
               && forall j :: 0 <= j < k ==> reply(order[j]) != Hit;
      assert i == k;
    }
  }

  /** With an answer in hand, a verdict is a hit exactly when some member had the object. */
  lemma HitIffSomeoneHasIt(order: seq<string>, reply: string -> ReadReply, v: Verdict)
    requires FallbackVerdict(order, reply, v)
    ensures v.ServedBy? <==> exists n :: n in order && reply(n) == Hit
  {
    if v.ServedBy? {
      assert v.node in order && reply(v.node) == Hit;
    }
  }

  // ---- A proxied acknowledgement speaks for a ring that may not be the owner's ----

  function CopiesAt(h: Hashes, c: Config, key: string, reply: string -> Reply): (out: seq<string>) {
    CopyHolders(c.ring.self, Others(HolderNames(h, c, key), c.ring.self), true, reply)
  }

  /** Some answers let the owner acknowledge with exactly as many copies as its own ring wants. */
  lemma OwnerMayStopAtWanted(h: Hashes, c: Config, key: string) returns (reply: string -> Reply)
    requires ValidRing(c.ring)
    ensures |CopiesAt(h, c, key, reply)| == |HolderNames(h, c, key)|
  {
    var holders, self := HolderNames(h, c, key), c.ring.self;
    HoldersAreDistinctMembers(h, c.ring, key, c.replicas);
    OthersDistinct(holders, self);
    var targets := Others(holders, self);
    if self in holders {
      reply := _ => Accepted;
      AcceptingMembers(targets, reply);
    } else {
      reply := n => if n == holders[0] then Failed else Accepted;
      AcceptingMembers(targets, reply);
      AcceptingDistinct(targets, reply);
      DistinctSize(Accepting(targets, reply));
      DistinctSize(targets);
      assert Elements(Accepting(targets, reply)) == Elements(targets) - {holders[0]};
    }
  }

  /** What the owner of a proxied PUT answers, and what its front door then reports. */
  function OwnerOutcome(h: Hashes, owner: Config, key: string, local: LocalPut, reply: string -> Reply): (o: Outcome)
    requires local.LocalStored?
  {
    var copies := CopiesAt(h, owner, key, reply);
    Outcome(local.size, local.already, |copies|, |HolderNames(h, owner, key)|, copies, local.durable)
  }

  function FrontOutcome(h: Hashes, front: Config, key: string, declared: int): (o: Outcome) {
    var holders := HolderNames(h, front, key);
    Outcome(declared, false, |holders|, |holders|, holders, true)
  }

  /** Nothing is reported that is not so: size and prior presence as they are, no more copies, no other nodes, no more durability. */
  ghost predicate Truthful(reported: Outcome, actual: Outcome) {
    && reported.size == actual.size && reported.already == actual.already
    && reported.copies <= actual.copies
    && Elements(reported.holders) <= Elements(actual.holders)
    && (reported.durable ==> actual.durable)
  }

  /** The nodes that have a copy whenever the owner acknowledges: its holders, or only itself if it is not one of them. */
  function SureCopies(h: Hashes, owner: Config, key: string): (s: set<string>) {
    if owner.ring.self in HolderNames(h, owner, key) then Elements(HolderNames(h, owner, key)) else {owner.ring.self}
  }

  lemma AcknowledgedOwnersHaveThese(h: Hashes, owner: Config, key: string, reply: string -> Reply)
    requires ValidRing(owner.ring) && |CopiesAt(h, owner, key, reply)| >= |HolderNames(h, owner, key)|
    ensures SureCopies(h, owner, key) <= Elements(CopiesAt(h, owner, key, reply))
  {
    AckMeansDistinctCopies(h, owner, key, true, reply);
    var holders, self := HolderNames(h, owner, key), owner.ring.self;
    HoldersAreDistinctMembers(h, owner.ring, key, owner.replicas);
    OthersDistinct(holders, self);
    AcceptingMembers(Others(holders, self), reply);
    var copies := CopiesAt(h, owner, key, reply);
    assert copies[0] == self;
    forall n | n in SureCopies(h, owner, key) ensures n in copies {
      if n != self {
        assert n in Accepting(Others(holders, self), reply);
      }
    }
  }

  /** No other node is sure to have one: some answers acknowledge without it. */
  lemma AnyOtherMayLack(h: Hashes, owner: Config, key: string, n: string) returns (reply: string -> Reply)
    requires ValidRing(owner.ring) && n !in SureCopies(h, owner, key)
    ensures |CopiesAt(h, owner, key, reply)| >= |HolderNames(h, owner, key)| && n !in CopiesAt(h, owner, key, reply)
  {
    var holders, self := HolderNames(h, owner, key), owner.ring.self;
    HoldersAreDistinctMembers(h, owner.ring, key, owner.replicas);
    OthersDistinct(holders, self);
    var targets := Others(holders, self);
    reply := m => if m == n then Failed else Accepted;
    AcceptingMembers(targets, reply);
    AcceptingDistinct(targets, reply);
    DistinctSize(Accepting(targets, reply));
    DistinctSize(targets);
    var accepted := Accepting(targets, reply);
    assert Elements(accepted) == Elements(targets) - {n};
    SubsetSize(Elements(targets) - {n}, Elements(targets));
    assert Elements(targets) <= (Elements(targets) - {n}) + {n};
    SubsetSize(Elements(targets), (Elements(targets) - {n}) + {n});
  }

  /**
  What a front door reports for a PUT it proxied is true, for all answers the
  owner's peers may give, exactly when the declared size is the stored one, the
  owner did not have the object already, its copy is durable, and every holder
  named is sure to have a copy by the owner's ring.
  */
  lemma ProxiedReportIsTrueIff(h: Hashes, front: Config, owner: Config, key: string, declared: int, local: LocalPut)
    requires ValidRing(front.ring) && ValidRing(owner.ring) && local.LocalStored?
    ensures (forall reply: string -> Reply :: |CopiesAt(h, owner, key, reply)| >= |HolderNames(h, owner, key)| ==>
               Truthful(FrontOutcome(h, front, key, declared), OwnerOutcome(h, owner, key, local, reply)))
            <==> declared == local.size && !local.already && local.durable
                 && Elements(HolderNames(h, front, key)) <= SureCopies(h, owner, key)
  {
    var named := HolderNames(h, front, key);
    HoldersAreDistinctMembers(h, front.ring, key, front.replicas);
    if !(Elements(named) <= SureCopies(h, owner, key)) {
      var n :| n in Elements(named) && n !in SureCopies(h, owner, key);
      var reply := AnyOtherMayLack(h, owner, key, n);
      assert n !in Elements(CopiesAt(h, owner, key, reply));
      assert !Truthful(FrontOutcome(h, front, key, declared), OwnerOutcome(h, owner, key, local, reply));
    } else if declared == local.size && !local.already && local.durable {
      forall reply: string -> Reply | |CopiesAt(h, owner, key, reply)| >= |HolderNames(h, owner, key)|
        ensures Truthful(FrontOutcome(h, front, key, declared), OwnerOutcome(h, owner, key, local, reply))
      {
        AcknowledgedOwnersHaveThese(h, owner, key, reply);
        NamedAreCounted(named, CopiesAt(h, owner, key, reply));
      }
    } else {
      var reply := OwnerMayStopAtWanted(h, owner, key);
      assert !Truthful(FrontOutcome(h, front, key, declared), OwnerOutcome(h, owner, key, local, reply));
    }
  }

  /** A body sent without a length is declared as -1 and reported so, whatever was stored. */
  lemma ChunkedPutsAreMisreported(h: Hashes, front: Config, owner: Config, key: string, local: LocalPut, reply: string -> Reply)
    requires local.LocalStored? && local.size >= 0
    ensures FrontOutcome(h, front, key, -1).size == -1
    ensures !Truthful(FrontOutcome(h, front, key, -1), OwnerOutcome(h, owner, key, local, reply))
  {
  }

  lemma NamedAreCounted(named: seq<string>, copies: seq<string>)
    requires Distinct(named) && Elements(named) <= Elements(copies)
    ensures |named| <= |copies|
  {
    DistinctSize(named);
    SizeDistinct(copies);
    SubsetSize(Elements(named), Elements(copies));
  }

  /**
  Equal counts are not enough: an owner among its own holders, all of whose peers
  accept, is reported under the front door's names, and any of those outside the
  owner's holders has no copy.
  */
  lemma ProxiedReportMayNameAnyone(h: Hashes, front: Config, owner: Config, key: string, size: int, n: string)
    requires ValidRing(front.ring) && ValidRing(owner.ring) && owner.ring.self in HolderNames(h, owner, key)
    requires |HolderNames(h, front, key)| == |HolderNames(h, owner, key)|
    requires n in HolderNames(h, front, key) && n !in HolderNames(h, owner, key)
    ensures var reply: string -> Reply := _ => Accepted;
            && |CopiesAt(h, owner, key, reply)| >= |HolderNames(h, owner, key)|
            && n in FrontOutcome(h, front, key, size).holders && n !in CopiesAt(h, owner, key, reply)
  {
    var reply: string -> Reply := _ => Accepted;
    HoldersAreDistinctMembers(h, owner.ring, key, owner.replicas);
    OthersDistinct(HolderNames(h, owner, key), owner.ring.self);
    AcceptingMembers(Others(HolderNames(h, owner, key), owner.ring.self), reply);
  }
}
