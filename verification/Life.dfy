/**
A node's life as seen by its index and its quota: Puts, deletions, recorded reads
and eviction sweeps one after another, each as its method promises.
*/
module NodeLife {
  import opened Base
  import opened Rows
  import opened Sorting
  import opened Machine
  import opened ObjectStore
  import opened Eviction
  import opened Coordination

  datatype Event =
    | Wrote(temp: string, ref: Ref, declared: int, data: Bytes, durable: bool, now: int)
    | Deleted(ref: Ref)
    | Recorded(touches: map<Ref, int>)
    | Nothing
    | Swept(start: Table, gone: seq<Ref>, evicted: nat, freed: nat, done: bool)

  /** What Store.Put, Store.Delete, Index.FlushTouches and Evictor.Sweep ensure when their index writes succeed. */
  ghost predicate Happens(p: Params, q: Quota, n: Node, e: Event, m: Node) {
    match e
    case Wrote(t, r, declared, data, durable, now) =>
      && Enabled(p, n, Begin(t, r, declared)) && Passes(p, r, declared, data)
      && m == Published1(n, r, declared, data, durable, Upserted(n.rows, r, |data|, now))
    case Deleted(r) =>
      m == if Visible(n, r) then Unlinked(n, r).(rows := n.rows - {r}) else n
    case Recorded(touches) => m == n.(rows := Flushed(n.rows, touches))
    case Nothing => m == n
    case Swept(start, gone, evicted, freed, done) =>
      && SameObjects(n.rows, start) && ByteTotal(start) == ByteTotal(n.rows)
      && Drained(n.(rows := start), m, gone, evicted, freed, ByteTotal(start) - LowBytes(q))
      && (ByteTotal(start) <= HighBytes(q) ==> gone == [])
      && (done && ByteTotal(start) > HighBytes(q) ==> ByteTotal(m.rows) <= LowBytes(q))
  }

  ghost predicate Life(p: Params, q: Quota, states: seq<Node>, events: seq<Event>) {
    && |states| == |events| + 1
    && forall i :: 0 <= i < |events| ==> Happens(p, q, states[i], events[i], states[i + 1])
  }

  // ---- The index follows the disk ----

  lemma DrainIsAnEmptying(n: Node, m: Node, start: Table, gone: seq<Ref>, evicted: nat, freed: nat, mustFree: int)
    requires Drained(n.(rows := start), m, gone, evicted, freed, mustFree)
    ensures m == Emptied(n, gone).(rows := start - Elements(gone))
  {
    EmptiedRows(n, start, gone);
  }

  lemma EmptyingKeepsInv(p: Params, n: Node, gone: seq<Ref>, rows: Table)
    requires Inv(p, n) && n.uploads == map[]
    ensures Inv(p, Emptied(n, gone).(rows := rows)) && Emptied(n, gone).uploads == map[]
  {
    EmptiedKeepsInv(p, n, gone);
    EmptiedIsExact(n, gone);
    ReindexKeepsInv(p, Emptied(n, gone), rows);
  }

  lemma EmptyingKeepsAgreement(n: Node, gone: seq<Ref>, start: Table)
    requires Agrees(n) && SameObjects(n.rows, start)
    ensures Agrees(Emptied(n, gone).(rows := start - Elements(gone)))
  {
    EmptiedIsExact(n, gone);
    var e := Emptied(n, gone);
    var m := e.(rows := start - Elements(gone));
    forall r ensures SlotOf(m, r) == SlotOf(e, r) && (r in m.rows <==> Visible(m, r)) {
      assert r in n.rows <==> Visible(n, r);
    }
    forall r | r in m.rows ensures m.rows[r].size == |Contents(m, r)| {
      assert SlotOf(m, r) == SlotOf(e, r) == SlotOf(n, r);
    }
  }

  lemma ReindexKeepsInv(p: Params, n: Node, rows: Table)
    requires Inv(p, n)
    ensures Inv(p, n.(rows := rows))
  {
    StepKeepsInv(p, n, Reindex(rows));
  }

  lemma DeletionKeepsAgreement(p: Params, n: Node, r: Ref)
    requires Inv(p, n) && Agrees(n) && n.uploads == map[] && Visible(n, r)
    ensures var m := Unlinked(n, r).(rows := n.rows - {r});
            Inv(p, m) && Agrees(m) && m.uploads == map[]
  {
    UnlinkedIsAStep(p, n, r);
    DeleteKeepsAgreement(n, r);
    ReindexKeepsInv(p, Unlinked(n, r), n.rows - {r});
  }

  lemma FlushKeepsAgreement(p: Params, n: Node, touches: map<Ref, int>)
    requires Inv(p, n) && Agrees(n)
    ensures Inv(p, n.(rows := Flushed(n.rows, touches))) && Agrees(n.(rows := Flushed(n.rows, touches)))
  {
    var m := n.(rows := Flushed(n.rows, touches));
    ReindexKeepsInv(p, n, m.rows);
    forall r ensures SlotOf(m, r) == SlotOf(n, r) && (r in m.rows <==> Visible(m, r)) {
      assert r in n.rows <==> Visible(n, r);
    }
  }

  lemma WriteKeepsAgreement(p: Params, n: Node, t: string, r: Ref, declared: int, data: Bytes, durable: bool, now: int)
    requires Inv(p, n) && Agrees(n) && Enabled(p, n, Begin(t, r, declared)) && Passes(p, r, declared, data)
    ensures var m := Published1(n, r, declared, data, durable, Upserted(n.rows, r, |data|, now));
            Inv(p, m) && Agrees(m)
  {
    assert [data][..0] == [] && Concat([data]) == Concat([]) + data == data;
    var steps := FreshPutKeepsTheRules(p, n, t, r, declared, [data], durable, Upserted(n.rows, r, |data|, now));
    PublishKeepsAgreement(n, r, declared, data, durable, now);
  }

  lemma EventKeepsAgreement(p: Params, q: Quota, n: Node, e: Event, m: Node)
    requires Inv(p, n) && Agrees(n) && n.uploads == map[] && Happens(p, q, n, e, m)
    ensures Inv(p, m) && Agrees(m) && m.uploads == map[]
  {
    match e
    case Wrote(t, r, declared, data, durable, now) =>
      WriteKeepsAgreement(p, n, t, r, declared, data, durable, now);
    case Deleted(r) =>
      if Visible(n, r) {
        DeletionKeepsAgreement(p, n, r);
      }
    case Recorded(touches) => FlushKeepsAgreement(p, n, touches);
    case Nothing =>
    case Swept(start, gone, evicted, freed, done) =>
      DrainIsAnEmptying(n, m, start, gone, evicted, freed, ByteTotal(start) - LowBytes(q));
      EmptyingKeepsInv(p, n, gone, start - Elements(gone));
      EmptyingKeepsAgreement(n, gone, start);
  }

  /** However long the node runs, the index lists exactly the files on disk, at their sizes. */
  lemma {:induction false} IndexFollowsDisk(p: Params, q: Quota, states: seq<Node>, events: seq<Event>, i: nat)
    requires Life(p, q, states, events) && i < |states|
    requires Inv(p, states[0]) && Agrees(states[0]) && states[0].uploads == map[]
    ensures Inv(p, states[i]) && Agrees(states[i]) && states[i].uploads == map[]
  {
    if i > 0 {
      IndexFollowsDisk(p, q, states, events, i - 1);
      EventKeepsAgreement(p, q, states[i - 1], events[i - 1], states[i]);
    }
  }

  // ---- Eviction is paid for by writes ----

  /** Bytes accepted by one event. */
  function Gain(e: Event): (n: nat) {
    if e.Wrote? then |e.data| else 0
  }

  function Sum(s: seq<nat>): (n: nat) {
    if |s| == 0 then 0 else Sum(s[..|s| - 1]) + s[|s| - 1]
  }

  function Count(s: seq<bool>): (n: nat) {
    if |s| == 0 then 0 else Count(s[..|s| - 1]) + if s[|s| - 1] then 1 else 0
  }

  /** Everything accepted over a run. */
  function Written(events: seq<Event>): (n: nat) {
    Sum(seq(|events|, i requires 0 <= i < |events| => Gain(events[i])))
  }

  /** A sweep that found the store over its high mark and reached the low one. */
  ghost predicate Worked(q: Quota, n: Node, e: Event) {
    e.Swept? && e.done && ByteTotal(n.rows) > HighBytes(q)
  }

  /** How many sweeps worked. */
  ghost function Sweeps(q: Quota, states: seq<Node>, events: seq<Event>): (n: nat)
    requires |states| == |events| + 1
  {
    Count(seq(|events|, i requires 0 <= i < |events| => Worked(q, states[i], events[i])))
  }

  /** Only a write raises usage, and by no more than its size. */
  lemma UsageGrowsByWrites(p: Params, q: Quota, n: Node, e: Event, m: Node)
    requires Happens(p, q, n, e, m)
    ensures ByteTotal(m.rows) <= ByteTotal(n.rows) + Gain(e)
    ensures Worked(q, n, e) ==> ByteTotal(m.rows) <= LowBytes(q)
  {
    match e
    case Wrote(t, r, declared, data, durable, now) => UpsertBytes(n.rows, r, |data|, now);
    case Deleted(r) => BytesShrink(n.rows, {r});
    case Recorded(touches) => FlushKeepsSizes(n.rows, touches);
    case Nothing =>
    case Swept(start, gone, evicted, freed, done) =>
  }

  predicate Moves(from: int, gain: nat, drop: bool, to: int, low: int, high: int) {
    to <= from + gain && (drop ==> from > high && to <= low)
  }

  /** A level that falls to low whenever it is brought down from above high rises by the whole gap in between. */
  lemma {:induction false} LevelIsPaidFor(level: seq<int>, gain: seq<nat>, drop: seq<bool>, low: int, high: int)
    requires |level| == |gain| + 1 == |drop| + 1 && Count(drop) >= 1
    requires forall i :: 0 <= i < |gain| ==> Moves(level[i], gain[i], drop[i], level[i + 1], low, high)
    ensures Sum(gain) >= (Count(drop) - 1) * (high - low + 1)
    ensures level[|gain|] <= low + Sum(gain) - (Count(drop) - 1) * (high - low + 1)
  {
    var k := |gain| - 1;
    assert Moves(level[k], gain[k], drop[k], level[k + 1], low, high);
    if Count(drop[..k]) >= 1 {
      var l, g, d := level[..k + 1], gain[..k], drop[..k];
      forall i | 0 <= i < k ensures Moves(l[i], g[i], d[i], l[i + 1], low, high) {
        assert Moves(level[i], gain[i], drop[i], level[i + 1], low, high);
      }
      LevelIsPaidFor(l, g, d, low, high);
      OneMoreGap(Count(drop[..k]), high - low + 1);
    }
  }

  lemma OneMoreGap(w: nat, gap: int)
    ensures w * gap == (w - 1) * gap + gap
  {
  }

  /** How usage moves over a run. */
  ghost predicate UsageMoves(q: Quota, states: seq<Node>, events: seq<Event>) {
    && |states| == |events| + 1
    && forall i :: 0 <= i < |events| ==> UsageMove(q, states[i], events[i], states[i + 1])
  }

  ghost predicate UsageMove(q: Quota, n: Node, e: Event, m: Node) {
    && ByteTotal(m.rows) <= ByteTotal(n.rows) + Gain(e)
    && (Worked(q, n, e) ==> ByteTotal(m.rows) <= LowBytes(q))
  }

  lemma LifeMovesUsage(p: Params, q: Quota, states: seq<Node>, events: seq<Event>)
    requires Life(p, q, states, events)
    ensures UsageMoves(q, states, events)
  {
    forall i | 0 <= i < |events| ensures UsageMove(q, states[i], events[i], states[i + 1]) {
      UsageGrowsByWrites(p, q, states[i], events[i], states[i + 1]);
    }
  }

  lemma MovesArePaidFor(q: Quota, states: seq<Node>, events: seq<Event>, low: int, high: int)
    requires UsageMoves(q, states, events) && Sweeps(q, states, events) >= 1
    requires low == LowBytes(q) && high == HighBytes(q)
    ensures Written(events) >= (Sweeps(q, states, events) - 1) * (high - low + 1)
    ensures ByteTotal(states[|events|].rows) <= low + Written(events) - (Sweeps(q, states, events) - 1) * (high - low + 1)
  {
    var level := seq(|states|, i requires 0 <= i < |states| => ByteTotal(states[i].rows));
    var gain := seq(|events|, i requires 0 <= i < |events| => Gain(events[i]));
    var drop := seq(|events|, i requires 0 <= i < |events| => Worked(q, states[i], events[i]));
    forall i | 0 <= i < |events|
      ensures Moves(level[i], gain[i], drop[i], level[i + 1], low, high)
    {
      assert UsageMove(q, states[i], events[i], states[i + 1]);
    }
    LevelIsPaidFor(level, gain, drop, low, high);
  }

  /**
  Eviction is amortised: between two sweeps that worked, more than the whole
  distance between the marks was written. k such sweeps take at least (k - 1)
  times that, whatever else happened, and usage stays within the low mark plus
  what was written and not yet paid back.
  */
  lemma EvictionIsAmortised(p: Params, q: Quota, states: seq<Node>, events: seq<Event>)
    requires Life(p, q, states, events) && Sweeps(q, states, events) >= 1
    ensures var paid := (Sweeps(q, states, events) - 1) * (HighBytes(q) - LowBytes(q) + 1);
            Written(events) >= paid && ByteTotal(states[|events|].rows) <= LowBytes(q) + Written(events) - paid
  {
    LifeMovesUsage(p, q, states, events);
    MovesArePaidFor(q, states, events, LowBytes(q), HighBytes(q));
  }

  // ---- Repair cannot fill a node ----

  /** The probe a coordinator takes before a repair write. */
  ghost function Probe(q: Quota, n: Node): (u: Option<Usage>)
    requires ValidQuota(q)
  {
    MarksInOrder(q);
    Some(Usage(ByteTotal(n.rows), HighBytes(q)))
  }

  /** The writes at these places of the run are repair writes: the probe let them through, and none is longer than most. */
  ghost predicate Probed(q: Quota, states: seq<Node>, events: seq<Event>, repairs: set<nat>, most: nat)
    requires ValidQuota(q) && |states| == |events| + 1
  {
    forall i :: i in repairs && i < |events| && events[i].Wrote? ==> !OverHighWater(Probe(q, states[i])) && |events[i].data| <= most
  }

  /** Bytes accepted by the first i events from anyone but repair. */
  function ClientBytes(events: seq<Event>, repairs: set<nat>, i: nat): (n: nat)
    requires i <= |events|
  {
    if i == 0 then 0 else ClientBytes(events, repairs, i - 1) + if i - 1 in repairs then 0 else Gain(events[i - 1])
  }

  /** A write the probe let through ends within its own size of the high mark. */
  lemma ProbedWriteEndsNearTheMark(p: Params, q: Quota, n: Node, e: Event, m: Node)
    requires ValidQuota(q) && Happens(p, q, n, e, m) && e.Wrote? && !OverHighWater(Probe(q, n))
    ensures ByteTotal(m.rows) <= HighBytes(q) + |e.data|
  {
    UsageGrowsByWrites(p, q, n, e, m);
  }

  function Max(a: int, b: int): (m: int) {
    if a >= b then a else b
  }

  /**
  Repair cannot push a node up: whatever clients write meanwhile, usage is within
  the clients' bytes of where it started or of one object past the high mark.
  */
  lemma RepairStopsAtTheMark(p: Params, q: Quota, states: seq<Node>, events: seq<Event>, repairs: set<nat>, most: nat, i: nat)
    requires ValidQuota(q) && Life(p, q, states, events) && Probed(q, states, events, repairs, most) && i < |states|
    ensures ByteTotal(states[i].rows) <= Max(ByteTotal(states[0].rows), HighBytes(q) + most) + ClientBytes(events, repairs, i)
  {
    LifeMovesUsage(p, q, states, events);
    UsageStaysNearTheMark(q, states, events, repairs, most, i);
  }

  lemma {:induction false} UsageStaysNearTheMark(q: Quota, states: seq<Node>, events: seq<Event>, repairs: set<nat>, most: nat, i: nat)
    requires ValidQuota(q) && UsageMoves(q, states, events) && Probed(q, states, events, repairs, most) && i < |states|
    ensures ByteTotal(states[i].rows) <= Max(ByteTotal(states[0].rows), HighBytes(q) + most) + ClientBytes(events, repairs, i)
  {
    if i > 0 {
      UsageStaysNearTheMark(q, states, events, repairs, most, i - 1);
      assert UsageMove(q, states[i - 1], events[i - 1], states[i]);
    }
  }

  // ---- When an answer of "already stored, durable" is true ----

  /**
  What one operation does to an object's safety, told from what its caller saw:
  removing the object ends it, a Put to its shard directory that stored something
  new and answered durable brings it if the object is there, and nothing else --
  a Put answered "already stored" included -- changes it.
  */
  ghost function SafeNext(was: bool, e: Event, m: Node, r: Ref): (safe: bool) {
    match e
    case Wrote(_, q, _, _, durable, _) => if durable && SameDir(r, q) then Visible(m, r) else was
    case Deleted(q) => was && q != r
    case Swept(_, gone, _, _, _) => was && r !in gone
    case _ => was
  }

  ghost function SafeBy(states: seq<Node>, events: seq<Event>, r: Ref, i: nat): (safe: bool)
    requires |states| == |events| + 1 && i < |states|
  {
    if i == 0 then Pinned(states[0], r) else SafeNext(SafeBy(states, events, r, i - 1), events[i - 1], states[i], r)
  }

  lemma WritePins(n: Node, r: Ref, declared: int, data: Bytes, durable: bool, rows: Table, q: Ref)
    ensures var m := Published1(n, r, declared, data, durable, rows);
            Pinned(m, q) <==> if durable && SameDir(q, r) then Visible(m, q) else Pinned(n, q)
  {
    var m := Published1(n, r, declared, data, durable, rows);
    var linked := n.(slots := n.slots[r := Moved(SlotOf(n, r), Some(Link(Inode(data, true), |n.log|)))]);
    assert Pinned(linked, q) <==> Pinned(n, q);
    if durable {
      SyncNarrows(linked, r, q, m);
      assert SameDir(q, r) ==> SlotOf(m, q) == Slot(SlotOf(linked, q).now, {});
      assert !SameDir(q, r) ==> SlotOf(m, q) == SlotOf(linked, q);
    }
  }

  lemma DeletionUnpins(n: Node, q: Ref, r: Ref, rows: Table)
    requires Visible(n, q)
    ensures Pinned(Unlinked(n, q).(rows := rows), r) <==> Pinned(n, r) && q != r
  {
    var m := Unlinked(n, q).(rows := rows);
    assert q != r ==> SlotOf(m, r) == SlotOf(n, r);
  }

  lemma SweepUnpins(n: Node, gone: seq<Ref>, rows: Table, r: Ref)
    ensures Pinned(Emptied(n, gone).(rows := rows), r) <==> Pinned(n, r) && r !in gone
  {
    var m := Emptied(n, gone).(rows := rows);
    EmptiedIsExact(n, gone);
    assert SlotOf(m, r) == SlotOf(Emptied(n, gone), r);
    assert SlotOf(m, r).now in Candidates(SlotOf(m, r));
  }

  lemma EventDecidesSafety(p: Params, q: Quota, n: Node, e: Event, m: Node, r: Ref)
    requires Happens(p, q, n, e, m)
    ensures Pinned(m, r) <==> SafeNext(Pinned(n, r), e, m, r)
  {
    match e
    case Wrote(t, w, declared, data, durable, now) =>
      WritePins(n, w, declared, data, durable, Upserted(n.rows, w, |data|, now), r);
    case Deleted(w) =>
      assert SlotOf(n, r).now in Candidates(SlotOf(n, r));
      if Visible(n, w) {
        DeletionUnpins(n, w, r, n.rows - {w});
      }
    case Swept(start, gone, evicted, freed, done) =>
      DrainIsAnEmptying(n, m, start, gone, evicted, freed, ByteTotal(start) - LowBytes(q));
      SweepUnpins(n, gone, start - Elements(gone), r);
    case _ =>
  }

  ghost predicate Decides(n: Node, e: Event, m: Node, r: Ref) {
    Pinned(m, r) <==> SafeNext(Pinned(n, r), e, m, r)
  }

  lemma LifeDecidesSafety(p: Params, q: Quota, states: seq<Node>, events: seq<Event>, r: Ref)
    requires Life(p, q, states, events)
    ensures forall i :: 0 <= i < |events| ==> Decides(states[i], events[i], states[i + 1], r)
  {
    forall i | 0 <= i < |events| ensures Decides(states[i], events[i], states[i + 1], r) {
      EventDecidesSafety(p, q, states[i], events[i], states[i + 1], r);
    }
  }

  lemma {:induction false} SafeMeansPinned(states: seq<Node>, events: seq<Event>, r: Ref, i: nat)
    requires |states| == |events| + 1 && i < |states|
    requires forall j :: 0 <= j < |events| ==> Decides(states[j], events[j], states[j + 1], r)
    ensures Pinned(states[i], r) <==> SafeBy(states, events, r, i)
  {
    if i > 0 {
      SafeMeansPinned(states, events, r, i - 1);
      assert Decides(states[i - 1], events[i - 1], states[i - 1 + 1], r);
    }
  }

  /**
  At any moment of a node's life, "already stored, durable" is a true answer for
  an object exactly when, since it was last removed, a Put to its shard directory
  that stored something new answered durable while it was there (or it was safe to
  begin with).
  */
  lemma AlreadyStoredIsDurableIff(p: Params, q: Quota, states: seq<Node>, events: seq<Event>, r: Ref, i: nat)
    requires Life(p, q, states, events) && i < |states|
    ensures (forall m :: LosesPower(states[i], m) ==> Visible(m, r)) <==> SafeBy(states, events, r, i)
  {
    LifeDecidesSafety(p, q, states, events, r);
    SafeMeansPinned(states, events, r, i);
    SurvivesIffPinned(states[i], r);
  }
}
