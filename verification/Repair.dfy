/**
Anti-entropy (internal/repair/repair.go): an auditor pages through an index that
other requests keep changing, offers what this node should hold to a bounded
queue, and workers re-create the copies that are missing.
*/
module Repair {
  import opened Base
  import opened Rows
  import opened Ring
  import opened Protocol
  import opened MetadataIndex
  import opened Coordination

  datatype Task = Task(ref: Ref, size: nat)

  const START := Ref("", "")
  const PAGE_SIZE := 512
  const DEFAULT_QUEUE_SIZE := 1024
  const DEFAULT_AUDIT_BUDGET := 5000

  /** The history of one sweep: the index as each page read found it, and the tasks accepted. */
  datatype Log = Log(seen: seq<Table>, accepted: seq<Task>)

  datatype Stats = Stats(runs: nat, audited: nat, notOurs: nat, enqueued: nat, dropped: nat)

  /** A row that was there at every page read since the sweep began. */
  ghost predicate Steady(log: Log, r: Ref) {
    RefLess(START, r) && forall i :: 0 <= i < |log.seen| ==> r in log.seen[i]
  }

  ghost predicate Queued(log: Log, r: Ref) {
    exists i :: 0 <= i < |log.accepted| && log.accepted[i].ref == r
  }

  /** Everything steady and ours up to a position has been accepted. */
  ghost predicate Covered(ours: Ref -> bool, log: Log, upTo: Ref) {
    forall r :: ours(r) && Steady(log, r) && RefAtMost(r, upTo) ==> Queued(log, r)
  }

  /** A whole sweep missed nothing. */
  ghost predicate Complete(ours: Ref -> bool, log: Log) {
    forall r :: ours(r) && Steady(log, r) ==> Queued(log, r)
  }

  /** Every storable object sorts after the start position. */
  lemma StoredRefsAreAfterStart(r: Ref)
    requires ValidRef(r)
    ensures RefLess(START, r)
  {
  }

  lemma NothingCoveredAtStart(ours: Ref -> bool, accepted: seq<Task>)
    ensures Covered(ours, Log([], accepted), START)
  {
    forall r ensures RefLess(START, r) ==> !RefAtMost(r, START) {
      NotBothWays(START, r);
    }
  }

  lemma NotBothWays(a: Ref, b: Ref)
    ensures RefLess(a, b) ==> !RefAtMost(b, a)
  {
    RefLessIrreflexive(a);
    if RefLess(b, a) && RefLess(a, b) {
      RefLessTransitive(a, b, a);
    }
  }

  /** Another read or another acceptance does not uncover anything. */
  lemma CoverIsKept(ours: Ref -> bool, log: Log, next: Log, upTo: Ref)
    requires Covered(ours, log, upTo)
    requires log.seen <= next.seen && log.accepted <= next.accepted
    ensures Covered(ours, next, upTo)
  {
    forall r | ours(r) && Steady(next, r) && RefAtMost(r, upTo) ensures Queued(next, r) {
      forall i | 0 <= i < |log.seen| ensures r in log.seen[i] {
        assert next.seen[i] == log.seen[i];
      }
      assert Steady(log, r);
      var i :| 0 <= i < |log.accepted| && log.accepted[i].ref == r;
      assert next.accepted[i] == log.accepted[i];
    }
  }

  /** The position after i rows of a page. */
  function Position(from: Ref, page: seq<Ref>, i: nat): (r: Ref)
    requires i <= |page|
  {
    if i == 0 then from else page[i - 1]
  }

  /** Between two positions of a page the table has nothing but the row itself. */
  lemma NextInPage(t: Table, from: Ref, limit: nat, page: seq<Ref>, i: nat, r: Ref)
    requires IsPage(t, from, limit, page) && i < |page|
    requires r in t && RefAtMost(r, page[i])
    ensures r == page[i] || RefAtMost(r, Position(from, page, i))
  {
    RefLessTotal(r, from);
    if RefLess(from, r) {
      NotBothWays(page[i], r);
      assert r in page;
      var j :| 0 <= j < |page| && page[j] == r;
      assert j < i - 1 ==> RefLess(page[j], page[i - 1]);
    } else if i > 0 && r != from {
      RefLessTransitive(r, from, page[i - 1]);
    }
  }

  /** Only acceptances were added. */
  ghost predicate Continues(a: Log, b: Log) {
    a.seen == b.seen && a.accepted <= b.accepted
  }

  /** The first k rows of a page are accepted or not ours. */
  ghost predicate Settled(ours: Ref -> bool, log: Log, page: seq<Ref>, k: nat)
    requires k <= |page|
  {
    forall i :: 0 <= i < k ==> ours(page[i]) ==> Queued(log, page[i])
  }

  lemma SettledMore(ours: Ref -> bool, log: Log, next: Log, page: seq<Ref>, k: nat)
    requires k < |page| && Settled(ours, log, page, k) && Continues(log, next)
    requires ours(page[k]) ==> Queued(next, page[k])
    ensures Settled(ours, next, page, k + 1)
  {
    forall i | 0 <= i < k && ours(page[i]) ensures Queued(next, page[i]) {
      StillQueued(log, next, page[i]);
    }
  }

  lemma StillQueued(log: Log, next: Log, r: Ref)
    requires Queued(log, r) && log.accepted <= next.accepted
    ensures Queued(next, r)
  {
    var i :| 0 <= i < |log.accepted| && log.accepted[i].ref == r;
    assert next.accepted[i] == log.accepted[i];
  }

  /** Settling rows moves the cover to the last of them. */
  lemma {:induction false} CoverAdvances(ours: Ref -> bool, log: Log, t: Table, from: Ref, limit: nat, page: seq<Ref>, k: nat)
    requires IsPage(t, from, limit, page) && k <= |page| && t in log.seen
    requires Covered(ours, log, from) && Settled(ours, log, page, k)
    ensures Covered(ours, log, Position(from, page, k))
  {
    if k > 0 {
      CoverAdvances(ours, log, t, from, limit, page, k - 1);
      forall r | ours(r) && Steady(log, r) && RefAtMost(r, page[k - 1]) ensures Queued(log, r) {
        var s :| 0 <= s < |log.seen| && log.seen[s] == t;
        NextInPage(t, from, limit, page, k - 1, r);
      }
    }
  }

  /** Reaching the end of the index completes the sweep. */
  lemma EndOfIndexCompletes(ours: Ref -> bool, log: Log, t: Table, from: Ref, limit: nat)
    requires IsPage(t, from, limit, []) && limit > 0 && t in log.seen
    requires Covered(ours, log, from)
    ensures Complete(ours, log)
  {
    EmptyPageMeansTheEnd(t, from, limit);
    forall r | ours(r) && Steady(log, r) ensures Queued(log, r) {
      var k :| 0 <= k < |log.seen| && log.seen[k] == t;
      RefLessTotal(r, from);
    }
  }

  /** So many rows were settled, and one more was refused or not. */
  predicate Tallied(a: Stats, b: Stats, settled: nat, full: bool) {
    var refused := if full then 1 else 0;
    b.runs == a.runs && b.audited == a.audited + settled + refused && b.dropped == a.dropped + refused
  }

  /** Later in the same sweep. */
  ghost predicate Extends(a: Log, b: Log) {
    a.seen <= b.seen && a.accepted <= b.accepted
  }

  /** Settling rows moves the position strictly forward; settling none leaves it. */
  ghost predicate Moved(a: Ref, b: Ref, settled: int) {
    if settled > 0 then RefLess(a, b) else a == b
  }

  lemma MovedTwice(a: Ref, b: Ref, c: Ref, i: nat, j: nat)
    requires Moved(a, b, i) && Moved(b, c, j)
    ensures Moved(a, c, i + j)
  {
    if i > 0 && j > 0 {
      RefLessTransitive(a, b, c);
    }
  }

  // ---- Re-creating copies ----

  /** What visiting a holder came to: it had the object, could not be asked, or was sent a copy. */
  datatype Visit = AlreadyThere | NoReply | Sent(reply: Reply)

  datatype Repairs = Repairs(alreadyPresent: nat, repaired: nat, bytes: nat, declined: nat, failed: nat)

  function Count(names: seq<string>, visit: string -> Visit, v: Visit): (n: nat) {
    if |names| == 0 then 0 else Count(names[..|names| - 1], visit, v) + if visit(names[|names| - 1]) == v then 1 else 0
  }

  lemma CountSnoc(names: seq<string>, n: string, visit: string -> Visit, v: Visit)
    ensures Count(names + [n], visit, v) == Count(names, visit, v) + if visit(n) == v then 1 else 0
  {
    assert (names + [n])[..|names|] == names;
  }

  /** Every holder visited is counted exactly once, or could not be asked. */
  lemma {:induction false} VisitsAddUp(names: seq<string>, visit: string -> Visit)
    ensures |names| == Count(names, visit, AlreadyThere) + Count(names, visit, NoReply) + Count(names, visit, Sent(Accepted))
                       + Count(names, visit, Sent(DeclinedOverQuota)) + Count(names, visit, Sent(Failed))
  {
    if |names| > 0 {
      VisitsAddUp(names[..|names| - 1], visit);
      var v := visit(names[|names| - 1]);
      assert v.Sent? ==> v.reply.Accepted? || v.reply.DeclinedOverQuota? || v.reply.Failed?;
    }
  }

  lemma {:induction false} OthersSnoc(names: seq<string>, n: string, self: string)
    ensures Others(names + [n], self) == Others(names, self) + if n == self then [] else [n]
  {
    if |names| == 0 {
      assert names + [n] == [n];
      assert [n][1..] == [];
    } else {
      assert (names + [n])[1..] == names[1..] + [n];
      OthersSnoc(names[1..], n, self);
    }
  }

  lemma {:induction false} OthersPrefix(names: seq<string>, i: nat, self: string)
    requires i <= |names|
    ensures Others(names[..i], self) <= Others(names, self)
    decreases |names| - i
  {
    if i < |names| {
      assert names[..i + 1] == names[..i] + [names[i]];
      OthersSnoc(names[..i], names[i], self);
      OthersPrefix(names, i + 1, self);
    } else {
      assert names[..i] == names;
    }
  }

  /** The counters once the named holders have been visited. */
  function Counted(r: Repairs, asked: seq<string>, visit: string -> Visit, size: nat): (s: Repairs) {
    Repairs(r.alreadyPresent + Count(asked, visit, AlreadyThere),
            r.repaired + Count(asked, visit, Sent(Accepted)),
            r.bytes + Count(asked, visit, Sent(Accepted)) * size,
            r.declined + Count(asked, visit, Sent(DeclinedOverQuota)),
            r.failed + Count(asked, visit, Sent(Failed)))
  }

  /** One visit. */
  function CountOne(r: Repairs, v: Visit, size: nat): (s: Repairs) {
    match v
    case AlreadyThere => r.(alreadyPresent := r.alreadyPresent + 1)
    case NoReply => r
    case Sent(Accepted) => r.(repaired := r.repaired + 1, bytes := r.bytes + size)
    case Sent(DeclinedOverQuota) => r.(declined := r.declined + 1)
    case Sent(Failed) => r.(failed := r.failed + 1)
  }

  lemma CountedSnoc(r: Repairs, asked: seq<string>, n: string, visit: string -> Visit, size: nat)
    ensures Counted(r, asked + [n], visit, size) == CountOne(Counted(r, asked, visit, size), visit(n), size)
  {
    CountSnoc(asked, n, visit, AlreadyThere);
    CountSnoc(asked, n, visit, Sent(Accepted));
    CountSnoc(asked, n, visit, Sent(DeclinedOverQuota));
    CountSnoc(asked, n, visit, Sent(Failed));
    var k := Count(asked, visit, Sent(Accepted));
    assert (k + 1) * size == k * size + size;
  }

  /** Between two moments, workers received these tasks: the oldest not yet received, in order. */
  ghost predicate HandedOver(before: seq<Task>, from: nat, after: seq<Task>, to: nat, tasks: seq<Task>) {
    && before <= after && from <= |before| && to == from + |tasks| <= |after| && after[from..to] == tasks
  }

  lemma HandedMore(a: seq<Task>, i: nat, b: seq<Task>, j: nat, first: seq<Task>, c: seq<Task>, k: nat, second: seq<Task>)
    requires HandedOver(a, i, b, j, first) && HandedOver(b, j, c, k, second)
    ensures HandedOver(a, i, c, k, first + second)
  {
    assert c[i..j] == b[i..j];
    assert c[i..k] == c[i..j] + c[j..k];
  }

  /** The queue's history and the sweep's grew by as many tasks. */
  ghost predicate SameGrowth(h0: seq<Task>, l0: Log, h1: seq<Task>, l1: Log) {
    |h1| - |h0| == |l1.accepted| - |l0.accepted|
  }

  /** Where an audit stands. */
  datatype Progress = Progress(log: Log, stats: Stats, history: seq<Task>, taken: nat)

  /** From one standing to another: rows settled and perhaps one refused, tasks handed to the workers, nothing forgotten. */
  ghost predicate Advanced(a: Progress, b: Progress, settled: nat, full: bool, handed: seq<Task>) {
    && Continues(a.log, b.log) && SameGrowth(a.history, a.log, b.history, b.log)
    && Tallied(a.stats, b.stats, settled, full) && HandedOver(a.history, a.taken, b.history, b.taken, handed)
  }

  lemma AdvancedMore(a: Progress, b: Progress, c: Progress, i: nat, first: seq<Task>, j: nat, full: bool, second: seq<Task>)
    requires Advanced(a, b, i, false, first) && Advanced(b, c, j, full, second)
    ensures Advanced(a, c, i + j, full, first + second)
  {
    HandedMore(a.history, a.taken, b.history, b.taken, first, c.history, c.taken, second);
  }

  /** What a sweep saw from one moment to another came from these page reads. */
  ghost predicate ReadFrom(pageRead: nat -> Option<Table>, a: Log, b: Log) {
    a.seen <= b.seen && forall i :: |a.seen| <= i < |b.seen| ==> OneRead(pageRead, b.seen[i])
  }

  ghost predicate OneRead(pageRead: nat -> Option<Table>, t: Table) {
    exists k: nat :: pageRead(k) == Some(t)
  }

  lemma ReadMore(pageRead: nat -> Option<Table>, a: Log, b: Log, c: Log, k: nat)
    requires ReadFrom(pageRead, a, b) && pageRead(k).Some? && c.seen == b.seen + [pageRead(k).value]
    ensures ReadFrom(pageRead, a, c)
  {
    forall i | |a.seen| <= i < |c.seen| ensures OneRead(pageRead, c.seen[i]) {
      if i < |b.seen| {
        assert c.seen[i] == b.seen[i];
      } else {
        assert pageRead(k) == Some(c.seen[i]);
      }
    }
  }

  /** About every task of an object that is still here, every other holder has been visited. */
  ghost predicate AllVisited(tasks: seq<Task>, local: Ref -> Option<nat>, holders: string -> seq<string>, self: string, visited: set<(Ref, string)>) {
    forall i, n :: 0 <= i < |tasks| && local(tasks[i].ref).Some? && n in Others(holders(tasks[i].ref.key), self) ==> (tasks[i].ref, n) in visited
  }

  lemma VisitedMore(tasks: seq<Task>, i: nat, local: Ref -> Option<nat>, holders: string -> seq<string>, self: string,
                    visited: set<(Ref, string)>, asked: seq<string>)
    requires i < |tasks| && AllVisited(tasks[..i], local, holders, self, visited)
    requires local(tasks[i].ref).Some? ==> asked == Others(holders(tasks[i].ref.key), self)
    ensures AllVisited(tasks[..i + 1], local, holders, self, visited + set n | n in asked :: (tasks[i].ref, n))
  {
    var more := visited + set n | n in asked :: (tasks[i].ref, n);
    forall k, n | 0 <= k < i + 1 && local(tasks[k].ref).Some? && n in Others(holders(tasks[k].ref.key), self)
      ensures (tasks[k].ref, n) in more
    {
      if k < i {
        assert tasks[..i][k] == tasks[k];
      }
    }
  }

  lemma VisitedKept(tasks: seq<Task>, local: Ref -> Option<nat>, holders: string -> seq<string>, self: string,
                    v: set<(Ref, string)>, w: set<(Ref, string)>)
    requires AllVisited(tasks, local, holders, self, v) && v <= w
    ensures AllVisited(tasks, local, holders, self, w)
  {
  }

  lemma VisitedBoth(a: seq<Task>, b: seq<Task>, local: Ref -> Option<nat>, holders: string -> seq<string>, self: string, v: set<(Ref, string)>)
    requires AllVisited(a, local, holders, self, v) && AllVisited(b, local, holders, self, v)
    ensures AllVisited(a + b, local, holders, self, v)
  {
  }

  /** When the workers have emptied the queue, they have received every task. */
  lemma AllHanded(given: seq<Task>, after: seq<Task>, mid: nat, handed: seq<Task>, rest: seq<Task>)
    requires HandedOver(given, |given|, after, mid, handed) && HandedOver(after, mid, after, |after|, rest)
    ensures after == given + (handed + rest)
  {
    assert after == after[..|given|] + after[|given|..mid] + after[mid..];
  }

  /** Everything a sweep saw came from some pass's page reads. */
  ghost predicate ReadFromAny(pageRead: (nat, nat) -> Option<Table>, log: Log) {
    forall i :: 0 <= i < |log.seen| ==> SomeRead(pageRead, log.seen[i])
  }

  ghost predicate SomeRead(pageRead: (nat, nat) -> Option<Table>, t: Table) {
    exists pass: nat, k: nat :: pageRead(pass, k) == Some(t)
  }

  lemma ReadOn(pageRead: (nat, nat) -> Option<Table>, pass: nat, each: nat -> Option<Table>, a: Log, b: Log)
    requires ReadFromAny(pageRead, a) && ReadFrom(each, a, b)
    requires forall k: nat :: each(k) == pageRead(pass, k)
    ensures ReadFromAny(pageRead, b)
  {
    forall i | 0 <= i < |b.seen| ensures SomeRead(pageRead, b.seen[i]) {
      if i < |a.seen| {
        assert SomeRead(pageRead, a.seen[i]) && a.seen[i] == b.seen[i];
      } else {
        var k: nat :| each(k) == Some(b.seen[i]);
        assert pageRead(pass, k) == Some(b.seen[i]);
      }
    }
  }

  /** A whole sweep, worked off: it missed nothing, and every other holder of what it queued has been visited. */
  ghost predicate SweptAll(ours: Ref -> bool, holders: string -> seq<string>, self: string, pageRead: (nat, nat) -> Option<Table>,
                           local: Ref -> Option<nat>, log: Log, visited: set<(Ref, string)>) {
    && Complete(ours, log) && ReadFromAny(pageRead, log)
    && forall r, n :: Queued(log, r) && local(r).Some? && n in Others(holders(r.key), self) ==> (r, n) in visited
  }

  lemma QueuedAreVisited(log: Log, local: Ref -> Option<nat>, holders: string -> seq<string>, self: string, visited: set<(Ref, string)>)
    requires AllVisited(log.accepted, local, holders, self, visited)
    ensures forall r, n :: Queued(log, r) && local(r).Some? && n in Others(holders(r.key), self) ==> (r, n) in visited
  {
    forall r, n | Queued(log, r) && local(r).Some? && n in Others(holders(r.key), self) ensures (r, n) in visited {
      var i :| 0 <= i < |log.accepted| && log.accepted[i].ref == r;
    }
  }

  /** A sweep in progress with an empty queue: all it queued has been visited. */
  ghost predicate Sweeping(log: Log, history: seq<Task>, base: nat, pageRead: (nat, nat) -> Option<Table>,
                           local: Ref -> Option<nat>, holders: string -> seq<string>, self: string, visited: set<(Ref, string)>) {
    && base <= |history| && log.accepted == history[base..]
    && AllVisited(history[base..], local, holders, self, visited) && ReadFromAny(pageRead, log)
  }

  lemma SweepsOn(log: Log, history: seq<Task>, after: seq<Task>, base: nat, pageRead: (nat, nat) -> Option<Table>, pass: nat, each: nat -> Option<Table>,
                 local: Ref -> Option<nat>, holders: string -> seq<string>, self: string, tasks: seq<Task>,
                 now: Log, before: set<(Ref, string)>, visited: set<(Ref, string)>)
    requires Sweeping(log, history, base, pageRead, local, holders, self, before) && before <= visited
    requires after == history + tasks && SameGrowth(history, log, after, now) && AllVisited(tasks, local, holders, self, visited)
    requires |now.accepted| <= |after| && now.accepted == after[|after| - |now.accepted|..]
    requires ReadFrom(each, log, now) && forall k: nat :: each(k) == pageRead(pass, k)
    ensures Sweeping(now, after, base, pageRead, local, holders, self, visited)
  {
    ReadOn(pageRead, pass, each, log, now);
    assert after[base..] == history[base..] + tasks;
    VisitedKept(history[base..], local, holders, self, before, visited);
    VisitedBoth(history[base..], tasks, local, holders, self, visited);
  }

  /** One page of a table: n rows examined from one position to another, the last of them refused if the queue was full. */
  ghost predicate PageDone(a: Progress, b: Progress, t: Table, from: Ref, cur: Ref, end: bool, full: bool, n: nat, handed: seq<Task>) {
    && b.log.seen == a.log.seen + [t] && a.log.accepted <= b.log.accepted && SameGrowth(a.history, a.log, b.history, b.log)
    && n <= 512 && (n == 0 <==> end) && (full ==> !end)
    && Tallied(a.stats, b.stats, if full then n - 1 else n, full)
    && Moved(from, cur, if full then n - 1 else n) && (cur == from || cur in t)
    && HandedOver(a.history, a.taken, b.history, b.taken, handed)
  }

  /** Several pages, and how they ended. */
  ghost predicate PagesDone(pageRead: nat -> Option<Table>, a: Progress, b: Progress, from: Ref, cur: Ref, examined: nat,
                            end: bool, full: bool, err: bool, handed: seq<Task>) {
    && Extends(a.log, b.log) && ReadFrom(pageRead, a.log, b.log) && SameGrowth(a.history, a.log, b.history, b.log)
    && (full ==> examined > 0) && Tallied(a.stats, b.stats, if full then examined - 1 else examined, full)
    && Moved(from, cur, if full then examined - 1 else examined) && (cur == from || ReadSomewhere(pageRead, cur))
    && HandedOver(a.history, a.taken, b.history, b.taken, handed)
    && (err ==> !end && !full && SomeReadFails(pageRead))
  }

  lemma PagesMore(pageRead: nat -> Option<Table>, a: Progress, b: Progress, c: Progress, start: Ref, from: Ref, cur: Ref,
                  examined: nat, handed: seq<Task>, k: nat, end: bool, full: bool, n: nat, tasks: seq<Task>)
    requires PagesDone(pageRead, a, b, start, from, examined, false, false, false, handed)
    requires pageRead(k).Some? && PageDone(b, c, pageRead(k).value, from, cur, end, full, n, tasks)
    ensures PagesDone(pageRead, a, c, start, cur, examined + n, end, full, false, handed + tasks)
  {
    HandedMore(a.history, a.taken, b.history, b.taken, handed, c.history, c.taken, tasks);
    ReadMore(pageRead, a.log, b.log, c.log, k);
    MovedTwice(start, from, cur, examined, if full then n - 1 else n);
  }

  ghost predicate SomeReadFails(pageRead: nat -> Option<Table>) {
    exists k: nat :: pageRead(k).None?
  }

  /** Some page read found this row. */
  ghost predicate ReadSomewhere(pageRead: nat -> Option<Table>, r: Ref) {
    exists k: nat :: pageRead(k).Some? && r in pageRead(k).value
  }

  /** An unfinished pass with an empty queue and no failing read moves the cursor forward, to a row it read. */
  ghost predicate GetsOn(c: Config, each: nat -> Option<Table>, from: Ref, to: Ref) {
    |c.ring.members| >= 2 && c.replicas >= 2 && !SomeReadFails(each) ==> RefLess(from, to) && ReadSomewhere(each, to)
  }

  /** No page read fails, and all find rows among these. */
  ghost predicate Bounded(pageRead: (nat, nat) -> Option<Table>, keys: set<Ref>) {
    forall pass: nat, k: nat :: pageRead(pass, k).Some? && pageRead(pass, k).value.Keys <= keys
  }

  lemma StaysAmongKeys(c: Config, pageRead: (nat, nat) -> Option<Table>, pass: nat, each: nat -> Option<Table>, keys: set<Ref>, from: Ref, to: Ref)
    requires GetsOn(c, each, from, to) && |c.ring.members| >= 2 && c.replicas >= 2 && Bounded(pageRead, keys)
    requires forall k: nat :: each(k) == pageRead(pass, k)
    ensures RefLess(from, to) && to in keys
  {
    assert forall k: nat :: each(k).Some? && each(k).value.Keys <= keys;
  }

  /** The rows still ahead of a position. */
  ghost function Ahead(keys: set<Ref>, from: Ref): (s: set<Ref>) {
    set r | r in keys && RefLess(from, r)
  }

  lemma AheadShrinks(keys: set<Ref>, from: Ref, to: Ref)
    ensures RefLess(from, to) && to in keys ==> |Ahead(keys, to)| < |Ahead(keys, from)|
  {
    if RefLess(from, to) && to in keys {
      RefLessIrreflexive(to);
      forall r | r in Ahead(keys, to) ensures r in Ahead(keys, from) - {to} {
        RefLessTransitive(from, to, r);
      }
      SubsetSize(Ahead(keys, to), Ahead(keys, from) - {to});
    }
  }

  /** A single node, or a single copy, has nothing to compare against. */
  predicate Audits(c: Config) {
    |c.ring.members| >= 2 && c.replicas >= 2
  }

  class Worker {
    const config: Config
    const index: Index
    /** The ring is fixed, so a key's holders are too, and which objects this node should hold. */
    const holders: string -> seq<string>
    const ours: Ref -> bool
    const queueSize: nat
    const auditBudget: nat

    var cursor: Ref
    var queue: seq<Task>
    var stats: Stats
    var repairs: Repairs

    /** History: the sweep in progress, all tasks ever accepted and how many workers took, and offers from outside. */
    ghost var log: Log
    ghost var history: seq<Task>
    ghost var taken: nat
    ghost var outside: nat

    ghost function Now(): (p: Progress)
      reads this
    {
      Progress(log, stats, history, taken)
    }

    /** Bounded, first in first out, every offer counted once. */
    ghost predicate QueueOk()
      reads this
    {
      && queueSize > 0 && |queue| <= queueSize
      && taken <= |history| && queue == history[taken..]
      && |log.accepted| <= |history| && log.accepted == history[|history| - |log.accepted|..]
      && stats.audited + outside == stats.notOurs + stats.enqueued + stats.dropped
    }

    ghost predicate Valid()
      reads this
    {
      QueueOk() && auditBudget > 0 && Covered(ours, log, cursor)
    }

    constructor (hashes: Hashes, config: Config, index: Index, queueSize: int, auditBudget: int)
      ensures Valid() && this.config == config && this.index == index
      ensures forall key :: holders(key) == HolderNames(hashes, config, key)
      ensures forall r :: ours(r) <==> config.ring.self in HolderNames(hashes, config, r.key)
      ensures this.queueSize == if queueSize <= 0 then 1024 else queueSize
      ensures this.auditBudget == if auditBudget <= 0 then 5000 else auditBudget
      ensures cursor == START && queue == [] && history == [] && log == Log([], [])
    {
      this.config, this.index := config, index;
      holders := key => HolderNames(hashes, config, key);
      ours := (r: Ref) => SelfHolds(hashes, config.ring, r.key, config.replicas);
      this.queueSize := if queueSize <= 0 then DEFAULT_QUEUE_SIZE else queueSize;
      this.auditBudget := if auditBudget <= 0 then DEFAULT_AUDIT_BUDGET else auditBudget;
      cursor, queue, stats := START, [], Stats(0, 0, 0, 0, 0);
      repairs := Repairs(0, 0, 0, 0, 0);
      log, history, taken, outside := Log([], []), [], 0, 0;
      new;
      NothingCoveredAtStart(ours, []);
    }

    /** Never blocks: a full queue refuses. */
    method Offer(task: Task) returns (ok: bool)
      modifies `queue, `stats, `log, `history
      ensures ok <==> |old(queue)| < queueSize
      ensures queue == old(queue) + if ok then [task] else []
      ensures history == old(history) + if ok then [task] else []
      ensures log == old(log).(accepted := old(log).accepted + if ok then [task] else [])
      ensures stats == if ok then old(stats).(enqueued := old(stats).enqueued + 1)
                             else old(stats).(dropped := old(stats).dropped + 1)
    {
      if |queue| < queueSize {
        queue, history := queue + [task], history + [task];
        log := log.(accepted := log.accepted + [task]);
        stats := stats.(enqueued := stats.enqueued + 1);
        return true;
      }
      stats := stats.(dropped := stats.dropped + 1);
      return false;
    }

    /** An offer from outside the audit loop. */
    method Enqueue(task: Task) returns (ok: bool)
      requires Valid()
      modifies `queue, `stats, `log, `history, `outside
      ensures Valid() && (ok <==> |old(queue)| < queueSize)
      ensures queue == old(queue) + if ok then [task] else []
      ensures outside == old(outside) + 1
    {
      ok := Offer(task);
      outside := outside + 1;
      CoverIsKept(ours, old(log), log, cursor);
    }

    /** A worker receives the oldest tasks. */
    method Take(n: nat) returns (tasks: seq<Task>)
      requires QueueOk()
      modifies `queue, `taken
      ensures QueueOk() && old(queue) == tasks + queue && |tasks| == if n <= |old(queue)| then n else |old(queue)|
      ensures HandedOver(history, old(taken), history, taken, tasks)
    {
      var k := if n <= |queue| then n else |queue|;
      tasks := queue[..k];
      queue, taken := queue[k..], taken + k;
    }

    /**
    Offer the rows of one page in order. took says how many tasks the workers
    receive before each row. Stops at the first refusal; the rows before it are
    settled.
    */
    method AuditPage(page: seq<Ref>, t: Table, took: nat -> nat) returns (settled: nat, full: bool, handed: seq<Task>)
      requires QueueOk() && forall i :: 0 <= i < |page| ==> page[i] in t
      modifies `queue, `taken, `stats, `log, `history
      ensures QueueOk() && Advanced(old(Now()), Now(), settled, full, handed)
      ensures settled <= |page| && Settled(ours, log, page, settled)
      ensures full <==> settled < |page|
      ensures full ==> ours(page[settled])
      ensures full && settled == 0 ==> |old(queue)| > 0
    {
      settled, full, handed := 0, false, [];
      ghost var start := Now();
      while settled < |page| && !full
        invariant settled <= |page| && QueueOk() && Advanced(start, Now(), settled, full, handed)
        invariant Settled(ours, log, page, settled)
        invariant full ==> settled < |page| && ours(page[settled])
        invariant settled == 0 && !full ==> queue == old(queue)
        invariant settled == 0 && full ==> |old(queue)| > 0
        decreases !full, |page| - settled
      {
        ghost var before := Now();
        var r, tasks := page[settled], [];
        full, tasks := NextRow(r, t[r].size, took(settled));
        AdvancedMore(start, before, Now(), settled, handed, if full then 0 else 1, full, tasks);
        handed := handed + tasks;
        if !full {
          SettledMore(ours, before.log, log, page, settled);
          settled := settled + 1;
        }
      }
    }

    /** Workers receive some tasks, then the row is audited. */
    method NextRow(r: Ref, size: nat, took: nat) returns (full: bool, tasks: seq<Task>)
      requires QueueOk()
      modifies `queue, `taken, `stats, `log, `history
      ensures QueueOk() && Advanced(old(Now()), Now(), if full then 0 else 1, full, tasks)
      ensures full ==> ours(r) && |old(queue)| > 0
      ensures !full && ours(r) ==> Queued(log, r)
    {
      tasks := Take(took);
      full := AuditRow(r, size);
    }

    /** One row: passed over when it is not ours, offered otherwise. */
    method AuditRow(r: Ref, size: nat) returns (full: bool)
      requires QueueOk()
      modifies `queue, `stats, `log, `history
      ensures QueueOk() && Continues(old(log), log) && SameGrowth(old(history), old(log), history, log)
      ensures full <==> ours(r) && |old(queue)| == queueSize
      ensures old(history) <= history
      ensures !full && ours(r) ==> Queued(log, r) && log.accepted == old(log).accepted + [Task(r, size)]
      ensures Tallied(old(stats), stats, if full then 0 else 1, full)
    {
      full := false;
      stats := stats.(audited := stats.audited + 1);
      if !ours(r) {
        stats := stats.(notOurs := stats.notOurs + 1);
      } else {
        var ok := Offer(Task(r, size));
        full := !ok;
        assert ok ==> log.accepted[|log.accepted| - 1].ref == r;
      }
    }

    /** Read one page as the index now stands and offer its rows; an empty page ends the sweep. */
    method NextPage(t: Table, from: Ref, took: nat -> nat) returns (cur: Ref, end: bool, full: bool, n: nat, handed: seq<Task>)
      requires QueueOk() && Covered(ours, log, from)
      modifies `queue, `taken, `stats, `log, `history, index`rows
      ensures QueueOk() && Covered(ours, log, cur) && (end ==> Complete(ours, log))
      ensures PageDone(old(Now()), Now(), t, from, cur, end, full, n, handed)
      ensures full && n == 1 ==> old(queue) != []
    {
      index.rows := t;
      log := log.(seen := log.seen + [t]);
      ghost var begun := log;
      CoverIsKept(ours, old(log), log, from);
      var page := index.PageAfter(from, PAGE_SIZE);
      var settled;
      settled, full, handed := AuditPage(page, t, took);
      CoverIsKept(ours, begun, log, from);
      CoverAdvances(ours, log, t, from, PAGE_SIZE, page, settled);
      cur, end, n := Position(from, page, settled), |page| == 0, if full then settled + 1 else settled;
      if |page| == 0 {
        assert page == [];
        EndOfIndexCompletes(ours, log, t, from, PAGE_SIZE);
      }
    }

    /**
    One bounded pass. pageRead(k) is the index as the k-th page read finds it, or
    none when that read fails or the caller has cancelled; took(k, i) is how many
    tasks the workers receive before row i of that page. finished is the history
    of a sweep that this pass brought to its end.
    */
    method AuditPass(pageRead: nat -> Option<Table>, took: (nat, nat) -> nat)
      returns (pending: bool, err: bool, done: bool, handed: seq<Task>, ghost finished: Option<Log>)
      requires Valid()
      modifies `cursor, `queue, `stats, `log, `history, `taken, index`rows
      ensures Valid() && HandedOver(old(history), old(taken), history, taken, handed)
      ensures ReadFrom(pageRead, old(log), if finished.Some? then finished.value else log)
      ensures SameGrowth(old(history), old(log), history, if finished.Some? then finished.value else log)
      ensures done <==> finished.Some?
      ensures (|config.ring.members| >= 2 && config.replicas >= 2) || (cursor == old(cursor) && log == old(log) && queue == old(queue) && stats == old(stats) && !err && !pending && !done && handed == [])
      ensures old(stats).audited <= stats.audited < old(stats).audited + auditBudget + 512
      ensures stats.runs == old(stats).runs + if |config.ring.members| >= 2 && config.replicas >= 2 then 1 else 0
      ensures err ==> cursor == old(cursor) && finished.None? && !pending && SomeReadFails(pageRead)
      ensures finished.None? ==> cursor == old(cursor) || ReadSomewhere(pageRead, cursor)
      ensures |config.ring.members| >= 2 && config.replicas >= 2 && !err && finished.None? && old(queue) == [] ==> RefLess(old(cursor), cursor)
      ensures finished.Some? ==> Complete(ours, finished.value) && Extends(old(log), finished.value)
      ensures finished.Some? ==> cursor == START && log == Log([], []) && (pending <==> queue != [])
      ensures finished.Some? ==> |finished.value.accepted| <= |history| && finished.value.accepted == history[|history| - |finished.value.accepted|..]
      ensures finished.None? ==> Extends(old(log), log)
      ensures |config.ring.members| >= 2 && config.replicas >= 2 && !err && finished.None? ==>
                && Moved(old(cursor), cursor, stats.audited - old(stats).audited - (stats.dropped - old(stats).dropped))
                && pending && (stats.audited >= old(stats).audited + auditBudget || stats.dropped == old(stats).dropped + 1)
    {
      pending, err, done, handed, finished := false, false, false, [], None;
      if !Audits(config) {
        return;
      }
      stats := stats.(runs := stats.runs + 1);
      var cur, examined, end, full;
      cur, examined, end, full, err, handed := AuditPages(pageRead, took);
      if end {
        finished, done := Some(log), true;
        log := Log([], []);
        NothingCoveredAtStart(ours, []);
        cursor, pending := START, |queue| > 0;
      } else if !err {
        cursor, pending := cur, true;
      }
    }

    /** Page after page until the budget is used, the index ends, the queue is full or a read fails. */
    method AuditPages(pageRead: nat -> Option<Table>, took: (nat, nat) -> nat)
      returns (cur: Ref, examined: nat, end: bool, full: bool, err: bool, handed: seq<Task>)
      requires Valid()
      modifies `queue, `taken, `stats, `log, `history, index`rows
      ensures QueueOk() && Covered(ours, log, cur) && Covered(ours, log, cursor) && (end ==> Complete(ours, log))
      ensures PagesDone(pageRead, old(Now()), Now(), cursor, cur, examined, end, full, err, handed)
      ensures examined < auditBudget + 512 && (examined >= auditBudget || end || full || err)
      ensures full && examined == 1 ==> old(queue) != []
    {
      ghost var start := Now();
      cur, examined, end, full, err, handed := cursor, 0, false, false, false, [];
      var pages := 0;
      while examined < auditBudget && !end && !full && !err
        invariant QueueOk() && Covered(ours, log, cur) && Covered(ours, log, cursor) && (end ==> Complete(ours, log))
        invariant PagesDone(pageRead, start, Now(), cursor, cur, examined, end, full, err, handed)
        invariant examined < auditBudget + 512
        invariant examined == 0 && !end ==> queue == old(queue)
        invariant full && examined == 1 ==> old(queue) != []
        decreases !err, !end, auditBudget - examined
      {
        var read := pageRead(pages);
        if read.None? {
          err := true;
        } else {
          ghost var before, from := Now(), cur;
          var n, tasks;
          cur, end, full, n, tasks := NextPage(read.value, cur, i => took(pages, i));
          PagesMore(pageRead, start, before, Now(), cursor, from, cur, examined, handed, pages, end, full, n, tasks);
          CoverIsKept(ours, before.log, log, cursor);
          handed, examined, pages := handed + tasks, examined + n, pages + 1;
        }
      }
    }

    /**
    Make sure every holder of an object has a copy. local is the size of this
    node's own copy, if it still has one; visit is what asking each holder, and
    sending it a copy if it lacks one, comes to; cancelled is how many holders
    are visited before the context ends, if it does.
    */
    method RepairTask(task: Task, local: Option<nat>, visit: string -> Visit, cancelled: Option<nat>)
      returns (asked: seq<string>)
      modifies `repairs
      ensures local.None? ==> asked == [] && repairs == old(repairs)
      ensures local.Some? ==>
                && repairs.alreadyPresent == old(repairs).alreadyPresent + Count(asked, visit, AlreadyThere)
                && repairs.repaired == old(repairs).repaired + Count(asked, visit, Sent(Accepted))
                && repairs.bytes == old(repairs).bytes + Count(asked, visit, Sent(Accepted)) * local.value
                && repairs.declined == old(repairs).declined + Count(asked, visit, Sent(DeclinedOverQuota))
                && repairs.failed == old(repairs).failed + Count(asked, visit, Sent(Failed))
      ensures asked <= Others(holders(task.ref.key), config.ring.self)
      ensures local.Some? && (cancelled.None? || cancelled.value > |asked|) ==> asked == Others(holders(task.ref.key), config.ring.self)
      ensures cancelled.Some? ==> |asked| <= cancelled.value
    {
      asked := [];
      if local.None? {
        return;
      }
      var names := holders(task.ref.key);
      for i := 0 to |names|
        invariant asked == Others(names[..i], config.ring.self)
        invariant cancelled.Some? ==> |asked| <= cancelled.value
        invariant repairs == Counted(old(repairs), asked, visit, local.value)
      {
        var n := names[i];
        assert names[..i + 1] == names[..i] + [n];
        OthersSnoc(names[..i], n, config.ring.self);
        if n == config.ring.self {
          continue;
        }
        if cancelled == Some(|asked|) {
          OthersPrefix(names, i, config.ring.self);
          return;
        }
        CountedSnoc(old(repairs), asked, n, visit, local.value);
        repairs := CountOne(repairs, visit(n), local.value);
        asked := asked + [n];
      }
      assert names[..|names|] == names;
    }

    /** The workers' loop over the tasks they received; visited grows by whom they asked about what. */
    method WorkOff(tasks: seq<Task>, local: Ref -> Option<nat>, visit: (Ref, string) -> Visit, before: set<(Ref, string)>)
      returns (visited: set<(Ref, string)>)
      modifies `repairs
      ensures before <= visited && AllVisited(tasks, local, holders, config.ring.self, visited)
    {
      visited := before;
      for i := 0 to |tasks|
        invariant before <= visited && AllVisited(tasks[..i], local, holders, config.ring.self, visited)
      {
        var r := tasks[i].ref;
        var asked := RepairTask(tasks[i], local(r), n => visit(r, n), None);
        VisitedMore(tasks, i, local, holders, config.ring.self, visited, asked);
        visited := visited + set n | n in asked :: (r, n);
      }
      assert tasks[..|tasks|] == tasks;
    }

    /** One pass, after which the workers empty the queue: all the tasks they received. */
    method PassAndTake(each: nat -> Option<Table>, took: (nat, nat) -> nat) returns (tasks: seq<Task>, done: bool, ghost now: Log)
      requires Valid() && queue == []
      modifies `cursor, `queue, `stats, `log, `history, `taken, index`rows
      ensures Valid() && queue == [] && history == old(history) + tasks
      ensures SameGrowth(old(history), old(log), history, now) && ReadFrom(each, old(log), now)
      ensures |now.accepted| <= |history| && now.accepted == history[|history| - |now.accepted|..]
      ensures if done then Complete(ours, now) else now == log
      ensures !done ==> GetsOn(config, each, old(cursor), cursor)
    {
      RefLessIrreflexive(cursor);
      assert taken == |history|;
      var pending, err, handed;
      ghost var finished;
      pending, err, done, handed, finished := AuditPass(each, took);
      ghost var mid := taken;
      now := if done then finished.value else log;
      var rest := Take(|queue|);
      assert queue == [] && taken == |history|;
      AllHanded(old(history), history, mid, handed, rest);
      tasks := handed + rest;
    }

    method PassAndWork(pass: nat, pageRead: (nat, nat) -> Option<Table>, took: (nat, nat, nat) -> nat,
                       local: Ref -> Option<nat>, visit: (Ref, string) -> Visit, before: set<(Ref, string)>, ghost base: nat, ghost keys: set<Ref>)
      returns (visited: set<(Ref, string)>, done: bool, ghost now: Log)
      requires Valid() && queue == [] && Sweeping(log, history, base, pageRead, local, holders, config.ring.self, before)
      modifies `cursor, `queue, `stats, `log, `history, `taken, `repairs, index`rows
      ensures Valid() && queue == [] && Sweeping(now, history, base, pageRead, local, holders, config.ring.self, visited)
      ensures if done then Complete(ours, now) else now == log
      ensures |config.ring.members| >= 2 && config.replicas >= 2 && Bounded(pageRead, keys) && !done ==> cursor in keys && RefLess(old(cursor), cursor)
    {
      var each: nat -> Option<Table> := (k: nat) => pageRead(pass, k);
      var tasks;
      tasks, done, now := PassAndTake(each, (k, i) => took(pass, k, i));
      visited := WorkOff(tasks, local, visit, before);
      if Audits(config) && Bounded(pageRead, keys) && !done {
        StaysAmongKeys(config, pageRead, pass, each, keys, old(cursor), cursor);
      }
      SweepsOn(old(log), old(history), history, base, pageRead, pass, each, local, holders, config.ring.self, tasks, now, before, visited);
    }

    /**
    One whole sweep: passes, each followed by the workers emptying the queue,
    until one reaches the end of the index. Whatever the index does meanwhile,
    every other holder of every row that was there throughout has been visited. If
    no read fails and all rows ever seen are among keys, more passes than keys
    always reach the end.
    */
    method Sweep(pageRead: (nat, nat) -> Option<Table>, took: (nat, nat, nat) -> nat,
                 local: Ref -> Option<nat>, visit: (Ref, string) -> Visit, passes: nat, ghost keys: set<Ref>)
      returns (visited: set<(Ref, string)>, done: bool, ghost swept: Log)
      requires Valid() && log == Log([], []) && queue == []
      modifies `cursor, `queue, `stats, `log, `history, `taken, `repairs, index`rows
      ensures Valid()
      ensures done ==> SweptAll(ours, holders, config.ring.self, pageRead, local, swept, visited)
      ensures |config.ring.members| >= 2 && config.replicas >= 2 && Bounded(pageRead, keys) && passes > |keys| ==> done
    {
      visited, done, swept := {}, false, log;
      ghost var base := |history|;
      SubsetSize(Ahead(keys, cursor), keys);
      var pass := 0;
      while pass < passes && !done
        invariant Valid() && queue == [] && Sweeping(swept, history, base, pageRead, local, holders, config.ring.self, visited)
        invariant if done then Complete(ours, swept) else swept == log
        invariant pass <= passes
        invariant |config.ring.members| >= 2 && config.replicas >= 2 && Bounded(pageRead, keys) && !done ==> |Ahead(keys, cursor)| + pass <= |keys|
        decreases !done, passes - pass
      {
        ghost var from := cursor;
        visited, done, swept := PassAndWork(pass, pageRead, took, local, visit, visited, base, keys);
        AheadShrinks(keys, from, cursor);
        pass := pass + 1;
      }
      if done {
        QueuedAreVisited(swept, local, holders, config.ring.self, visited);
      }
    }
  }
}
