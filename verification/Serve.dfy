/**
The methods of a node's store, index and evictor, called one after another with
index writes that succeed: whatever the requests, what they do is a life in the
sense of NodeLife, so its theorems hold of them from startup on.
*/
module NodeService {
  import opened Base
  import opened Rows
  import opened Sorting
  import opened Machine
  import opened ObjectStore
  import opened Eviction
  import opened NodeLife

  /** A call, with everything outside the program's control that decides how it goes. */
  datatype Request =
    | PutRequest(ref: Ref, body: Body, declared: int, cancelled: bool, faults: Faults, temp: string, now: int)
    | DeleteRequest(ref: Ref, removable: bool)
    | ReadRequest(ref: Ref, now: int)
    | FlushRequest(ok: bool)
    | SweepRequest(flushOk: bool, totalsOk: bool, stuck: set<Ref>, cutShort: Option<nat>)

  /** The index accepts the write, and CreateTemp chose a name that is free. */
  predicate Smooth(q: Request, temps: map<string, Inode>) {
    q.PutRequest? ==> q.faults.upsert && Incoming(q.temp) && q.temp !in temps
  }

  ghost predicate Ready(e: Evictor)
    reads e.store, e.store.index
  {
    e.Valid() && e.store.Valid()
  }

  /** The event a request comes to, decided by the state it finds and what is outside the program's control. */
  ghost predicate Answers(p: Params, closed: bool, n: Node, q: Request, ev: Event) {
    match q
    case PutRequest(r, body, declared, cancelled, f, t, now) =>
      ev == if Admissible(p, closed, Visible(n, r), r, body, declared, cancelled, f) && !(ContentAddressed(r.ns) && Visible(n, r))
            then Wrote(t, r, declared, Concat(body.parts), f.dirSync, now) else Nothing
    case DeleteRequest(r, removable) => ev == if ValidRef(r) && (Visible(n, r) ==> removable) then Deleted(r) else Nothing
    case ReadRequest(_, _) => ev == Nothing
    case FlushRequest(ok) => ev.Recorded? || (ev == Nothing && !ok)
    case SweepRequest(_, _, _, _) => ev.Swept?
  }

  method ServePut(e: Evictor, q: Request) returns (res: PutResult, ghost ev: Event)
    requires Ready(e) && q.PutRequest? && Smooth(q, e.store.temps)
    modifies e.store`slots, e.store`log, e.store`ledger, e.store.index`rows, e.store.index`pending
    ensures Ready(e) && Happens(e.store.p, e.quota, old(e.store.State()), ev, e.store.State())
    ensures ev == if res.Stored? && !res.already
                  then Wrote(q.temp, q.ref, q.declared, Concat(q.body.parts), res.durable, q.now) else Nothing
    ensures Answers(e.store.p, e.store.closed, old(e.store.State()), q, ev)
  {
    ghost var steps;
    res, steps := e.store.Put(q.ref, q.body, q.declared, q.cancelled, q.faults, q.temp, q.now);
    ev := if res.Stored? && !res.already
          then Wrote(q.temp, q.ref, q.declared, Concat(q.body.parts), res.durable, q.now) else Nothing;
  }

  method ServeDelete(e: Evictor, r: Ref, removable: bool) returns (err: bool, ghost ev: Event)
    requires Ready(e)
    modifies e.store`slots, e.store`ledger, e.store.index`rows, e.store.index`pending
    ensures Ready(e) && Happens(e.store.p, e.quota, old(e.store.State()), ev, e.store.State())
    ensures ev == if err then Nothing else Deleted(r)
    ensures Answers(e.store.p, e.store.closed, old(e.store.State()), DeleteRequest(r, removable), ev)
  {
    err := e.store.Delete(r, removable, true);
    ev := if err then Nothing else Deleted(r);
  }

  method ServeFlush(e: Evictor, ok: bool) returns (err: bool, ghost ev: Event)
    requires Ready(e)
    modifies e.store.index`rows, e.store.index`pending
    ensures Ready(e) && Happens(e.store.p, e.quota, old(e.store.State()), ev, e.store.State())
    ensures ev == if err then Nothing else Recorded(old(e.store.index.pending))
    ensures err ==> !ok
  {
    ghost var n, touches := e.store.State(), e.store.index.pending;
    err := e.store.index.FlushTouches(ok);
    ReindexKeepsInv(e.store.p, n, e.store.index.rows);
    ev := if err then Nothing else Recorded(touches);
  }

  method ServeSweep(e: Evictor, flushOk: bool, totalsOk: bool, stuck: set<Ref>, cutShort: Option<nat>) returns (err: bool, ghost ev: Event)
    requires Ready(e)
    modifies e`tally, e`failures, e.store`slots, e.store`ledger, e.store.index`rows, e.store.index`pending
    ensures Ready(e) && Happens(e.store.p, e.quota, old(e.store.State()), ev, e.store.State())
    ensures ev.Swept? && (ev.done ==> !err)
    ensures err ==> cutShort.Some? || e.closed || (old(e.store.index.pending) != map[] && !flushOk) || !totalsOk
  {
    ghost var n, t := e.store.State(), e.tally;
    var evicted, freed, stalled;
    ghost var gone, jam, start;
    evicted, freed, err, stalled, gone, jam, start := e.Sweep(flushOk, totalsOk, stuck, cutShort);
    ev := Swept(start, gone, evicted, freed, !err && !stalled);
    SweepHappens(e.store.p, e.quota, e.batchSize, stuck, n, e.store.State(), start, t, e.tally, evicted, freed, err, stalled, gone, jam);
  }

  /** Both outcomes of Sweep, a measurement that failed and a sweep that was made, are sweep events. */
  lemma SweepHappens(p: Params, q: Quota, batchSize: nat, stuck: set<Ref>, n: Node, m: Node, start: Table, t: Tally, u: Tally,
                     evicted: nat, freed: nat, err: bool, stalled: bool, gone: seq<Ref>, jam: seq<Ref>)
    requires Inv(p, n) && n.uploads == map[] && SameObjects(n.rows, start) && ByteTotal(start) == ByteTotal(n.rows)
    requires || (err && !stalled && evicted == freed == 0 && gone == [] && m == n.(rows := start))
             || Relieved(q, batchSize, stuck, n.(rows := start), m, t, u, evicted, freed, err, stalled, gone, jam)
    ensures Inv(p, m) && Happens(p, q, n, Swept(start, gone, evicted, freed, !err && !stalled), m)
  {
    SweptNothing(start);
    DrainIsAnEmptying(n, m, start, gone, evicted, freed, ByteTotal(start) - LowBytes(q));
    EmptyingKeepsInv(p, n, gone, start - Elements(gone));
  }

  /**
  The clean case: every file can be unlinked, the index reads and writes succeed
  and nobody gives up. A sweep above the high mark ends at or below the low one,
  no sweep stalls or fails, and overshoot is never counted.
  */
  method CleanSweep(e: Evictor) returns (evicted: nat, freed: nat, err: bool, stalled: bool)
    requires Ready(e) && !e.closed && Agrees(e.store.State())
    modifies e`tally, e`failures, e.store`slots, e.store`ledger, e.store.index`rows, e.store.index`pending
    ensures Ready(e) && Agrees(e.store.State()) && !err && !stalled && e.tally.overshoot == old(e.tally.overshoot)
    ensures evicted == |old(e.store.index.rows)| - |e.store.index.rows|
    ensures freed == ByteTotal(old(e.store.index.rows)) - ByteTotal(e.store.index.rows)
    ensures if ByteTotal(old(e.store.index.rows)) > HighBytes(e.quota) then ByteTotal(e.store.index.rows) <= LowBytes(e.quota)
            else evicted == freed == 0
  {
    ghost var n, t := e.store.State(), e.tally;
    ghost var gone, jam, start;
    evicted, freed, err, stalled, gone, jam, start := e.Sweep(true, true, {}, None);
    SweepHappens(e.store.p, e.quota, e.batchSize, {}, n, e.store.State(), start, t, e.tally, evicted, freed, err, stalled, gone, jam);
    EventKeepsAgreement(e.store.p, e.quota, n, Swept(start, gone, evicted, freed, !err && !stalled), e.store.State());
    CleanSweepReachesLow(e.store.p, e.quota, e.batchSize, n, e.store.State(), start, t, e.tally, evicted, freed, stalled, gone, jam);
  }

  lemma CleanSweepReachesLow(p: Params, q: Quota, batchSize: nat, n: Node, m: Node, start: Table, t: Tally, u: Tally,
                             evicted: nat, freed: nat, stalled: bool, gone: seq<Ref>, jam: seq<Ref>)
    requires Inv(p, n) && Agrees(n) && SameObjects(n.rows, start) && ByteTotal(start) == ByteTotal(n.rows)
    requires Relieved(q, batchSize, {}, n.(rows := start), m, t, u, evicted, freed, false, stalled, gone, jam)
    ensures !stalled && u.overshoot == t.overshoot
    ensures evicted == |n.rows| - |m.rows| && freed == ByteTotal(n.rows) - ByteTotal(m.rows)
    ensures if ByteTotal(n.rows) > HighBytes(q) then ByteTotal(m.rows) <= LowBytes(q) else evicted == freed == 0
  {
    IndexedRefsAreValid(p, n);
    NeverStalls(q, batchSize, n.(rows := start), m, t, u, evicted, freed, stalled, gone, jam);
    BytesSameSizes(n.rows, start);
  }

  lemma IndexedRefsAreValid(p: Params, n: Node)
    requires Inv(p, n) && Agrees(n)
    ensures forall r :: r in n.rows ==> ValidRef(r)
  {
    forall r | r in n.rows ensures ValidRef(r) {
      VisibleWasPublished(p, n, r);
    }
  }

  lemma NeverStalls(q: Quota, batchSize: nat, n: Node, m: Node, t: Tally, u: Tally,
                    evicted: nat, freed: nat, stalled: bool, gone: seq<Ref>, jam: seq<Ref>)
    requires Relieved(q, batchSize, {}, n, m, t, u, evicted, freed, false, stalled, gone, jam)
    requires forall r :: r in n.rows ==> ValidRef(r)
    ensures !stalled && u.overshoot == t.overshoot
    ensures evicted == |n.rows| - |m.rows| && freed == ByteTotal(n.rows) - ByteTotal(m.rows)
    ensures if ByteTotal(n.rows) > HighBytes(q) then ByteTotal(m.rows) <= LowBytes(q) else evicted == freed == 0
  {
    assert forall r :: r in m.rows ==> r in n.rows;
    RemovableFilesNeverJam(m, batchSize, jam);
    assert gone == [] ==> m.rows == n.rows;
  }

  method ServeOne(e: Evictor, q: Request) returns (ghost ev: Event)
    requires Ready(e) && Smooth(q, e.store.temps)
    modifies e`tally, e`failures, e.store`slots, e.store`log, e.store`ledger, e.store.index`rows, e.store.index`pending
    ensures Ready(e) && Happens(e.store.p, e.quota, old(e.store.State()), ev, e.store.State())
    ensures Answers(e.store.p, e.store.closed, old(e.store.State()), q, ev)
  {
    match q
    case PutRequest(_, _, _, _, _, _, _) =>
      var res;
      res, ev := ServePut(e, q);
    case DeleteRequest(r, removable) =>
      var err;
      err, ev := ServeDelete(e, r, removable);
    case ReadRequest(r, now) =>
      e.store.index.Touch(r, now);
      ev := Nothing;
    case FlushRequest(ok) =>
      var err;
      err, ev := ServeFlush(e, ok);
    case SweepRequest(flushOk, totalsOk, stuck, cutShort) =>
      var err;
      err, ev := ServeSweep(e, flushOk, totalsOk, stuck, cutShort);
  }

  /** Any list of requests is a life, and leaves the index equal to the disk if it was. */
  method Serve(e: Evictor, requests: seq<Request>) returns (ghost states: seq<Node>, ghost events: seq<Event>)
    requires Ready(e) && forall i :: 0 <= i < |requests| ==> Smooth(requests[i], e.store.temps)
    modifies e`tally, e`failures, e.store`slots, e.store`log, e.store`ledger, e.store.index`rows, e.store.index`pending
    ensures Ready(e) && Life(e.store.p, e.quota, states, events) && |events| == |requests|
    ensures states[0] == old(e.store.State()) && states[|events|] == e.store.State()
    ensures forall i :: 0 <= i < |requests| ==> Answers(e.store.p, e.store.closed, states[i], requests[i], events[i])
    ensures Agrees(old(e.store.State())) ==> Agrees(e.store.State())
  {
    states, events := [e.store.State()], [];
    for i := 0 to |requests|
      invariant Ready(e) && Life(e.store.p, e.quota, states, events) && |events| == i
      invariant states[0] == old(e.store.State()) && states[i] == e.store.State()
      invariant forall j :: 0 <= j < i ==> Answers(e.store.p, e.store.closed, states[j], requests[j], events[j])
    {
      ghost var ev := ServeOne(e, requests[i]);
      LifeGoesOn(e.store.p, e.quota, states, events, ev, e.store.State());
      states, events := states + [e.store.State()], events + [ev];
    }
    if Agrees(states[0]) {
      IndexFollowsDisk(e.store.p, e.quota, states, events, |events|);
    }
  }

  lemma LifeGoesOn(p: Params, q: Quota, states: seq<Node>, events: seq<Event>, e: Event, m: Node)
    requires Life(p, q, states, events) && Happens(p, q, states[|events|], e, m)
    ensures Life(p, q, states + [m], events + [e])
  {
    var s, v := states + [m], events + [e];
    forall i | 0 <= i < |v| ensures Happens(p, q, s[i], v[i], s[i + 1]) {
      if i < |events| {
        assert s[i] == states[i] && s[i + 1] == states[i + 1] && v[i] == events[i];
      }
    }
  }

  /** A recovered node's index lists exactly its files. */
  lemma RecoveredAgrees(p: Params, n: Node, mtime: Ref -> int)
    requires Recovered(p, n, mtime)
    ensures Agrees(n)
  {
    var files := FilesOf(n, mtime);
    forall r ensures r in n.rows <==> Visible(n, r) {
      assert r in files <==> Visible(n, r);
    }
    forall r | r in n.rows ensures n.rows[r].size == |Contents(n, r)| {
      assert files[r].size == |Contents(n, r)|;
    }
  }

  /** From startup on: whatever state the disk was left in, and whatever is asked, the index lists exactly the files. */
  method StartAndServe(e: Evictor, mtime: Ref -> int, fails: bool, requests: seq<Request>) returns (err: bool)
    requires Ready(e) && forall i :: 0 <= i < |requests| ==> Smooth(requests[i], map[])
    modifies e`tally, e`failures, e.store`slots, e.store`temps, e.store`log, e.store`ledger, e.store.index`rows, e.store.index`pending
    ensures Ready(e) && err == fails && (!err ==> Agrees(e.store.State()))
  {
    var res;
    res, err := e.store.Recover(mtime, fails);
    if !err {
      RecoveredAgrees(e.store.p, e.store.State(), mtime);
      ghost var states, events := Serve(e, requests);
    }
  }
}
