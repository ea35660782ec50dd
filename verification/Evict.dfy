/**
Quota enforcement (internal/storage/evict.go): the eviction score, the two water
marks, and the sweep that drains from one to the other.
*/
module Eviction {
  import opened Base
  import opened Sorting
  import opened Rows
  import opened Machine
  import opened MetadataIndex
  import opened ObjectStore
  import opened CandidateHeap

  // ---- Score ----

  /** log2 is any increasing function; the weight is in nanoseconds. */
  datatype Policy = Policy(weight: int, unit: int, log2: real -> real)

  const DEFAULT_UNIT: int := 65536
  const HOUR: int := 3_600_000_000_000

  function Truncate(x: real): (n: int) {
    if x >= 0.0 then x.Floor else -((-x).Floor)
  }

  function Unit(p: Policy): (u: int)
    ensures u > 0
  {
    if p.unit <= 0 then DEFAULT_UNIT else p.unit
  }

  function Ratio(p: Policy, size: nat): (x: real) {
    1.0 + size as real / Unit(p) as real
  }

  function Penalty(p: Policy, size: nat): (x: real) {
    p.log2(Ratio(p, size)) * p.weight as real
  }

  function Score(p: Policy, row: Row): (s: int) {
    row.accessed - Truncate(Penalty(p, row.size))
  }

  ghost predicate Increasing(f: real -> real) {
    forall x: real, y: real :: x <= y ==> f(x) <= f(y)
  }

  lemma DivMonotone(a: real, b: real, u: real)
    requires a <= b && u > 0.0
    ensures a / u <= b / u
  {
  }

  lemma MulMonotone(a: real, b: real, w: real)
    requires a <= b && w >= 0.0
    ensures a * w <= b * w
  {
  }

  lemma TruncateMonotone(a: real, b: real)
    requires a <= b
    ensures Truncate(a) <= Truncate(b)
  {
  }

  /** Between two objects, the one used later and no larger never scores lower. */
  lemma ScorePrefersRecentAndSmall(p: Policy, a: Row, b: Row)
    requires p.weight >= 0 && Increasing(p.log2)
    requires a.size <= b.size && a.accessed >= b.accessed
    ensures Score(p, a) >= Score(p, b)
  {
    RatioMonotone(p, a.size, b.size);
    MulMonotone(p.log2(Ratio(p, a.size)), p.log2(Ratio(p, b.size)), p.weight as real);
    TruncateMonotone(Penalty(p, a.size), Penalty(p, b.size));
  }

  /** The score is the access time less the whole part of weight times log2(1 + size / unit). */
  lemma ScoreIsAccessLessPenalty(p: Policy, row: Row)
    ensures var unit := if p.unit <= 0 then 65536 else p.unit;
            var penalty := p.log2(1.0 + row.size as real / unit as real) * p.weight as real;
            var taken := (row.accessed - Score(p, row)) as real;
            if penalty >= 0.0 then taken <= penalty < taken + 1.0 else taken - 1.0 < penalty <= taken
  {
  }

  lemma RatioMonotone(p: Policy, a: nat, b: nat)
    requires a <= b
    ensures Ratio(p, a) <= Ratio(p, b)
  {
    DivMonotone(a as real, b as real, Unit(p) as real);
  }

  // ---- Quota ----

  /** Water marks as exact fractions of the maximum. */
  datatype Quota = Quota(maxBytes: int, high: real, low: real)

  predicate ValidQuota(q: Quota) {
    q.maxBytes > 0 && 0.0 < q.high <= 1.0 && 0.0 < q.low < q.high
  }

  datatype QuotaError = BadMaxBytes | BadHighWater | BadLowWater

  /** The first of the three rules a quota breaks, if any. */
  method CheckQuota(q: Quota) returns (e: Option<QuotaError>)
    ensures e.None? <==> ValidQuota(q)
    ensures e.None? <==> q.maxBytes > 0 && 0.0 < q.high <= 1.0 && 0.0 < q.low < q.high
    ensures e == Some(BadMaxBytes) <==> q.maxBytes <= 0
    ensures e == Some(BadHighWater) <==> q.maxBytes > 0 && (q.high <= 0.0 || q.high > 1.0)
  {
    if q.maxBytes <= 0 {
      return Some(BadMaxBytes);
    }
    if q.high <= 0.0 || q.high > 1.0 {
      return Some(BadHighWater);
    }
    if q.low <= 0.0 || q.low >= q.high {
      return Some(BadLowWater);
    }
    return None;
  }

  /** A fraction of a byte count, rounded down. */
  function Fraction(m: int, x: real): (n: int) {
    Truncate(m as real * x)
  }

  function HighBytes(q: Quota): (n: int) {
    Fraction(q.maxBytes, q.high)
  }

  function LowBytes(q: Quota): (n: int) {
    Fraction(q.maxBytes, q.low)
  }

  /** Each mark is its fraction of the maximum rounded down, and they are ordered; rounding may make the two equal. */
  lemma MarksAreOrdered(q: Quota)
    requires ValidQuota(q)
    ensures 0 <= LowBytes(q) <= HighBytes(q) <= q.maxBytes
    ensures LowBytes(q) as real <= q.maxBytes as real * q.low < LowBytes(q) as real + 1.0
    ensures HighBytes(q) as real <= q.maxBytes as real * q.high < HighBytes(q) as real + 1.0
  {
    FractionRoundsDown(q.maxBytes, q.low);
    FractionRoundsDown(q.maxBytes, q.high);
    MarksInOrder(q);
  }

  lemma MarksInOrder(q: Quota)
    requires ValidQuota(q)
    ensures 0 <= LowBytes(q) <= HighBytes(q) <= q.maxBytes
  {
    FractionMonotone(q.maxBytes, 0.0, q.low);
    FractionMonotone(q.maxBytes, q.low, q.high);
    FractionMonotone(q.maxBytes, q.high, 1.0);
    FractionEnds(q.maxBytes);
  }

  lemma FractionRoundsDown(m: int, x: real)
    requires m >= 0 && x >= 0.0
    ensures Fraction(m, x) as real <= m as real * x < Fraction(m, x) as real + 1.0
  {
    MulMonotone(0.0, x, m as real);
  }

  lemma FractionEnds(m: int)
    ensures Fraction(m, 0.0) == 0 && Fraction(m, 1.0) == m
  {
    assert m as real * 0.0 == 0.0 && m as real * 1.0 == m as real;
  }

  lemma FractionMonotone(m: int, a: real, b: real)
    requires m >= 0 && a <= b
    ensures Fraction(m, a) <= Fraction(m, b)
  {
    MulMonotone(a, b, m as real);
    TruncateMonotone(m as real * a, m as real * b);
  }

  // ---- One batch ----

  function CandidateOf(p: Policy, t: Table, r: Ref): (c: Candidate)
    requires r in t
  {
    Candidate(r, t[r], Score(p, t[r]))
  }

  function CandidatesOf(p: Policy, t: Table, batch: seq<Ref>): (cs: Slice)
    requires forall i :: 0 <= i < |batch| ==> batch[i] in t
    ensures |cs| == |batch|
    ensures forall i :: 0 <= i < |batch| ==> cs[i] == CandidateOf(p, t, batch[i])
  {
    seq(|batch|, i requires 0 <= i < |batch| => CandidateOf(p, t, batch[i]))
  }

  lemma {:induction false} DistinctOnce<T(!new)>(s: seq<T>, x: T)
    requires Distinct(s)
    ensures multiset(s)[x] <= 1
  {
    if |s| > 0 {
      var front := s[..|s| - 1];
      assert s == front + [s[|s| - 1]];
      DistinctOnce(front, x);
      if s[|s| - 1] == x {
        assert x !in front;
        assert x !in multiset(front);
      }
    }
  }

  /** The popped candidates whose files could be unlinked. */
  function Victims(popped: Slice, stuck: set<Ref>): (refs: seq<Ref>) {
    if |popped| == 0 then []
    else
      var rest := Victims(popped[..|popped| - 1], stuck);
      var c := popped[|popped| - 1];
      if c.ref in stuck then rest else rest + [c.ref]
  }

  lemma VictimsSnoc(popped: Slice, c: Candidate, stuck: set<Ref>)
    ensures Victims(popped + [c], stuck) == Victims(popped, stuck) + if c.ref in stuck then [] else [c.ref]
  {
    assert (popped + [c])[..|popped|] == popped;
  }

  ghost function SizeOf(t: Table, refs: seq<Ref>): (n: nat)
    requires forall r :: r in refs ==> r in t
  {
    if |refs| == 0 then 0 else SizeOf(t, refs[..|refs| - 1]) + t[refs[|refs| - 1]].size
  }

  lemma SizeOfSnoc(t: Table, refs: seq<Ref>, r: Ref)
    requires r in t && forall q :: q in refs ==> q in t
    ensures SizeOf(t, refs + [r]) == SizeOf(t, refs) + t[r].size
  {
    assert (refs + [r])[..|refs|] == refs;
  }

  /** Removing different rows takes exactly their sizes and their number off the totals. */
  lemma {:induction false} RemovedTotals(t: Table, refs: seq<Ref>)
    requires Distinct(refs) && forall r :: r in refs ==> r in t
    ensures ByteTotal(t - Elements(refs)) == ByteTotal(t) - SizeOf(t, refs)
    ensures |t - Elements(refs)| == |t| - |refs|
  {
    if |refs| == 0 {
      assert t - Elements(refs) == t;
    } else {
      var front, last := refs[..|refs| - 1], refs[|refs| - 1];
      assert refs == front + [last];
      RemovedTotals(t, front);
      assert last !in front;
      RemovedOneMore(t, front, last);
    }
  }

  lemma RemovedOneMore(t: Table, front: seq<Ref>, last: Ref)
    requires last in t && last !in front
    ensures ByteTotal(t - Elements(front + [last])) == ByteTotal(t - Elements(front)) - t[last].size
    ensures |t - Elements(front + [last])| == |t - Elements(front)| - 1
  {
    BytesRemove(t - Elements(front), last);
    assert t - Elements(front) - {last} == t - Elements(front + [last]);
  }

  /** Victims leave in score order, and nothing left behind scores lower than any of them. */
  ghost predicate PoppedInOrder(popped: Slice, h: Slice) {
    && (forall i, j :: 0 <= i < j < |popped| ==> popped[i].score <= popped[j].score)
    && (forall i, d :: 0 <= i < |popped| && d in h ==> popped[i].score <= d.score)
  }

  ghost predicate Honest(p: Policy, t: Table, cs: Slice) {
    forall c :: c in cs ==> c.ref in t && c == CandidateOf(p, t, c.ref)
  }

  /** popped and h are a split of the distinct candidates of a batch. */
  ghost predicate Split(p: Policy, t: Table, batch: seq<Ref>, popped: Slice, h: Slice)
    requires forall i :: 0 <= i < |batch| ==> batch[i] in t
  {
    && Distinct(batch) && IsHeap(h)
    && multiset(popped) + multiset(h) == multiset(CandidatesOf(p, t, batch))
  }

  lemma SplitHonest(p: Policy, t: Table, batch: seq<Ref>, popped: Slice, h: Slice)
    requires forall i :: 0 <= i < |batch| ==> batch[i] in t
    requires Split(p, t, batch, popped, h)
    ensures Honest(p, t, popped) && Honest(p, t, h)
    ensures forall c :: c in popped || c in h ==> c.ref in batch
  {
    var cs := CandidatesOf(p, t, batch);
    forall c | c in popped || c in h ensures c.ref in batch && c == CandidateOf(p, t, c.ref) {
      assert c in multiset(popped) || c in multiset(h);
      assert c in multiset(cs);
      var i :| 0 <= i < |cs| && cs[i] == c;
      assert cs[i] == CandidateOf(p, t, batch[i]);
    }
  }

  /** A popped candidate is popped once: neither it nor its object shows up again. */
  lemma PopIsNew(p: Policy, t: Table, batch: seq<Ref>, popped: Slice, h: Slice, c: Candidate, h': Slice)
    requires forall i :: 0 <= i < |batch| ==> batch[i] in t
    requires Split(p, t, batch, popped, h) && multiset(h) == multiset(h') + multiset{c}
    ensures c.ref in t && c.row == t[c.ref]
    ensures forall d :: d in popped ==> d.ref != c.ref
  {
    var cs := CandidatesOf(p, t, batch);
    SplitHonest(p, t, batch, popped, h);
    forall i, j | 0 <= i < j < |cs| ensures cs[i] != cs[j] {
      assert cs[i].ref == batch[i] && cs[j].ref == batch[j];
    }
    DistinctOnce(cs, c);
    assert c in multiset(h);
    assert c in h;
    assert multiset(cs)[c] == multiset(popped)[c] + multiset(h')[c] + 1;
    forall d | d in popped ensures d.ref != c.ref {
      assert d in multiset(popped);
    }
  }

  lemma {:induction false} VictimsMembers(popped: Slice, stuck: set<Ref>)
    ensures forall r :: r in Victims(popped, stuck) <==> r !in stuck && exists c :: c in popped && c.ref == r
  {
    if |popped| > 0 {
      var front, last := popped[..|popped| - 1], popped[|popped| - 1];
      assert popped == front + [last];
      VictimsMembers(front, stuck);
      forall r ensures r in Victims(popped, stuck) <==> r !in stuck && exists c :: c in popped && c.ref == r {
        if r in Victims(front, stuck) {
          var c :| c in front && c.ref == r;
          assert c in popped;
        }
        if r == last.ref {
          assert last in popped;
        }
      }
    }
  }

  /** The state DeleteFile leaves. */
  ghost function GoneFrom(n: Node, r: Ref): (m: Node) {
    if Visible(n, r) then Unlinked(n, r) else n
  }

  /** The state after unlinking several files in turn. */
  ghost function Emptied(n: Node, refs: seq<Ref>): (m: Node) {
    if |refs| == 0 then n else GoneFrom(Emptied(n, refs[..|refs| - 1]), refs[|refs| - 1])
  }

  lemma EmptiedSnoc(n: Node, refs: seq<Ref>, r: Ref)
    ensures Emptied(n, refs + [r]) == GoneFrom(Emptied(n, refs), r)
  {
    assert (refs + [r])[..|refs|] == refs;
  }

  lemma {:induction false} EmptiedAppend(n: Node, a: seq<Ref>, b: seq<Ref>)
    ensures Emptied(n, a + b) == Emptied(Emptied(n, a), b)
  {
    if |b| == 0 {
      assert a + b == a;
    } else {
      var front := b[..|b| - 1];
      assert (a + b)[..|a + b| - 1] == a + front;
      EmptiedAppend(n, a, front);
    }
  }

  /** Exactly the named files are gone; every other directory entry is as it was. */
  lemma {:induction false} EmptiedIsExact(n: Node, refs: seq<Ref>)
    ensures forall r :: r in refs ==> !Visible(Emptied(n, refs), r)
    ensures forall r :: r !in refs ==> SlotOf(Emptied(n, refs), r) == SlotOf(n, r)
    ensures Emptied(n, refs).rows == n.rows && Emptied(n, refs).uploads == n.uploads
  {
    if |refs| > 0 {
      EmptiedIsExact(n, refs[..|refs| - 1]);
      assert refs == refs[..|refs| - 1] + [refs[|refs| - 1]];
    }
  }

  /** Unlinking is what the node machine calls Unlink, so its invariant survives a sweep. */
  lemma {:induction false} EmptiedKeepsInv(p: Params, n: Node, refs: seq<Ref>)
    requires Inv(p, n) && n.uploads == map[]
    ensures Inv(p, Emptied(n, refs))
  {
    if |refs| > 0 {
      var front := refs[..|refs| - 1];
      EmptiedKeepsInv(p, n, front);
      EmptiedIsExact(n, front);
      if Visible(Emptied(n, front), refs[|refs| - 1]) {
        UnlinkedIsAStep(p, Emptied(n, front), refs[|refs| - 1]);
      }
    }
  }

  /** Unlinking files does not depend on the rows. */
  lemma {:induction false} EmptiedRows(n: Node, rows: Table, refs: seq<Ref>)
    ensures Emptied(n.(rows := rows), refs) == Emptied(n, refs).(rows := rows)
  {
    if |refs| > 0 {
      EmptiedRows(n, rows, refs[..|refs| - 1]);
    }
  }

  /** Rows whose file cannot be unlinked. */
  predicate Blocked(n: Node, stuck: set<Ref>, r: Ref) {
    !ValidRef(r) || (Visible(n, r) && r in stuck)
  }

  ghost function BlockedIn(n: Node, stuck: set<Ref>, batch: seq<Ref>): (s: set<Ref>) {
    set r | r in batch && Blocked(n, stuck, r)
  }

  /** What one batch did: the victims, in score order, and why it stopped. */
  ghost predicate BatchDone(p: Policy, before: Node, after: Node, batch: seq<Ref>, stuck: set<Ref>, need: int,
                            popped: Slice, rest: Slice, refs: seq<Ref>, freed: nat)
    requires forall i :: 0 <= i < |batch| ==> batch[i] in before.rows
  {
    && Split(p, before.rows, batch, popped, rest) && PoppedInOrder(popped, rest)
    && refs == Victims(popped, BlockedIn(before, stuck, batch))
    && Distinct(refs) && (forall r :: r in refs ==> r in batch)
    && freed == SizeOf(before.rows, refs)
    && after == Emptied(before, refs)
    && (freed >= need && need > 0 ==> refs != [] && freed - before.rows[refs[|refs| - 1]].size < need)
  }

  lemma BatchStarts(p: Policy, n: Node, batch: seq<Ref>, stuck: set<Ref>, need: int, h: Slice)
    requires Distinct(batch) && IsHeap(h) && forall i :: 0 <= i < |batch| ==> batch[i] in n.rows
    requires multiset(h) == multiset(CandidatesOf(p, n.rows, batch))
    ensures BatchDone(p, n, n, batch, stuck, need, [], h, [], 0)
  {
    var none: Slice := [];
    assert multiset(none) + multiset(h) == multiset(h);
  }

  /** The popped candidate is a new object of the batch, still as it was when the batch began. */
  lemma NextCandidate(p: Policy, n: Node, m: Node, batch: seq<Ref>, stuck: set<Ref>, need: int,
                      popped: Slice, h: Slice, refs: seq<Ref>, freed: nat, c: Candidate, h': Slice)
    requires forall i :: 0 <= i < |batch| ==> batch[i] in n.rows
    requires BatchDone(p, n, m, batch, stuck, need, popped, h, refs, freed)
    requires IsHeap(h') && multiset(h) == multiset(h') + multiset{c} && forall d :: d in h' ==> c.score <= d.score
    ensures c.ref in batch && c.ref !in refs && c.ref in n.rows && c.row == n.rows[c.ref]
    ensures SlotOf(m, c.ref) == SlotOf(n, c.ref)
    ensures Split(p, n.rows, batch, popped + [c], h') && PoppedInOrder(popped + [c], h')
    ensures Victims(popped + [c], BlockedIn(n, stuck, batch)) == if Blocked(n, stuck, c.ref) then refs else refs + [c.ref]
  {
    var blocked := BlockedIn(n, stuck, batch);
    SplitHonest(p, n.rows, batch, popped, h);
    PopIsNew(p, n.rows, batch, popped, h, c, h');
    VictimsSnoc(popped, c, blocked);
    VictimsMembers(popped, blocked);
    EmptiedIsExact(n, refs);
    PoppedStaysSplit(popped, h, c, h');
  }

  lemma PoppedStaysSplit(popped: Slice, h: Slice, c: Candidate, h': Slice)
    requires PoppedInOrder(popped, h) && multiset(h) == multiset(h') + multiset{c}
    requires forall d :: d in h' ==> c.score <= d.score
    ensures PoppedInOrder(popped + [c], h') && c in h
    ensures multiset(popped + [c]) + multiset(h') == multiset(popped) + multiset(h)
  {
    assert c in multiset(h);
    forall d | d in h' ensures d in h {
      assert d in multiset(h') && d in multiset(h);
    }
  }

  /** Its file is unlinked and counted. */
  lemma BatchTakes(p: Policy, n: Node, m: Node, batch: seq<Ref>, stuck: set<Ref>, need: int,
                   popped: Slice, h: Slice, refs: seq<Ref>, freed: nat, c: Candidate, h': Slice)
    requires forall i :: 0 <= i < |batch| ==> batch[i] in n.rows
    requires BatchDone(p, n, m, batch, stuck, need, popped, h, refs, freed) && freed < need
    requires IsHeap(h') && multiset(h) == multiset(h') + multiset{c} && forall d :: d in h' ==> c.score <= d.score
    requires !Blocked(n, stuck, c.ref)
    ensures BatchDone(p, n, GoneFrom(m, c.ref), batch, stuck, need, popped + [c], h', refs + [c.ref], freed + c.row.size)
  {
    NextCandidate(p, n, m, batch, stuck, need, popped, h, refs, freed, c, h');
    SizeOfSnoc(n.rows, refs, c.ref);
    EmptiedSnoc(n, refs, c.ref);
  }

  /** Or it cannot be unlinked, and is skipped. */
  lemma BatchSkips(p: Policy, n: Node, m: Node, batch: seq<Ref>, stuck: set<Ref>, need: int,
                   popped: Slice, h: Slice, refs: seq<Ref>, freed: nat, c: Candidate, h': Slice)
    requires forall i :: 0 <= i < |batch| ==> batch[i] in n.rows
    requires BatchDone(p, n, m, batch, stuck, need, popped, h, refs, freed) && freed < need
    requires IsHeap(h') && multiset(h) == multiset(h') + multiset{c} && forall d :: d in h' ==> c.score <= d.score
    requires Blocked(n, stuck, c.ref)
    ensures BatchDone(p, n, m, batch, stuck, need, popped + [c], h', refs, freed)
  {
    NextCandidate(p, n, m, batch, stuck, need, popped, h, refs, freed, c, h');
  }

  // ---- The sweep ----

  const DEFAULT_BATCH: nat := 512

  /** The totals after a sweep, in terms of the table it started from and the rows it removed. */
  ghost predicate SweptRows(t: Table, after: Table, gone: seq<Ref>, evicted: nat, freed: nat) {
    && Distinct(gone) && (forall r :: r in gone ==> r in t)
    && after == t - Elements(gone)
    && evicted == |gone| == |t| - |after|
    && freed == ByteTotal(t) - ByteTotal(after)
  }

  lemma SweptNothing(t: Table)
    ensures SweptRows(t, t, [], 0, 0)
  {
    assert t - Elements<Ref>([]) == t;
  }

  lemma SweptMore(t: Table, mid: Table, after: Table, gone: seq<Ref>, evicted: nat, freed: nat, refs: seq<Ref>)
    requires SweptRows(t, mid, gone, evicted, freed)
    requires Distinct(refs) && (forall r :: r in refs ==> r in mid) && after == mid - Elements(refs)
    ensures SweptRows(t, after, gone + refs, evicted + |refs|, freed + SizeOf(mid, refs))
    ensures forall r :: r in mid ==> mid[r] == t[r]
  {
    RemovedTotals(mid, refs);
    DistinctAppend(gone, refs);
    RemovedTwice(t, Elements(gone), Elements(refs));
  }

  lemma DistinctAppend(a: seq<Ref>, b: seq<Ref>)
    ensures Elements(a + b) == Elements(a) + Elements(b)
    ensures Distinct(a) && Distinct(b) && Elements(a) !! Elements(b) ==> Distinct(a + b)
  {
    if Elements(a) !! Elements(b) {
      forall i, j | 0 <= i < |a| && 0 <= j < |b| ensures a[i] != b[j] {
        assert a[i] in Elements(a) && b[j] in Elements(b);
      }
    }
  }

  lemma RemovedTwice(t: Table, a: set<Ref>, b: set<Ref>)
    ensures t - a - b == t - (a + b)
    ensures forall r :: r in t - a ==> r in t && r !in a && (t - a)[r] == t[r]
  {
  }

  /** The same objects at the same sizes; only the record of reads may differ. */
  ghost predicate SameObjects(a: Table, b: Table) {
    a.Keys == b.Keys && forall r :: r in a ==> a[r].size == b[r].size
  }

  /** A sweep that has not freed enough has rows left to consider. */
  lemma AboveTargetHasRows(t: Table, after: Table, gone: seq<Ref>, evicted: nat, freed: nat, mustFree: int)
    requires SweptRows(t, after, gone, evicted, freed) && freed < mustFree <= ByteTotal(t)
    ensures |after| > 0
  {
    var none: Table := map[];
    assert ByteTotal(none) == 0;
  }

  /** The evictor's counters: sweeps that had work, objects and bytes they removed, and sweeps that stalled. */
  datatype Tally = Tally(sweeps: nat, evicted: nat, reclaimed: nat, overshoot: nat)

  /** A sweep with work to do is counted; one the caller cut short adds nothing to the totals. */
  function Counted(t: Tally, evicted: nat, freed: nat, err: bool, stalled: bool): (u: Tally) {
    Tally(t.sweeps + 1,
          if err then t.evicted else t.evicted + evicted,
          if err then t.reclaimed else t.reclaimed + freed,
          if stalled then t.overshoot + 1 else t.overshoot)
  }

  class Evictor {
    const store: Store
    const quota: Quota
    const policy: Policy
    const batchSize: nat

    var tally: Tally
    var failures: int
    var closed: bool

    ghost predicate Valid()
      reads store.index
    {
      ValidQuota(quota) && batchSize > 0 && store.index.Valid() && !store.index.closed
    }

    constructor (store: Store, quota: Quota, policy: Policy, batchSize: int)
      requires ValidQuota(quota) && store.index.Valid() && !store.index.closed
      ensures Valid() && this.store == store && this.quota == quota
      ensures this.policy == if policy.unit == 0 && policy.weight == 0 then policy.(weight := 3_600_000_000_000, unit := 65536) else policy
      ensures this.batchSize == (if batchSize <= 0 then 512 else batchSize) && tally == Tally(0, 0, 0, 0) && failures == 0 && !closed
    {
      this.store, this.quota := store, quota;
      this.policy := if policy.unit == 0 && policy.weight == 0 then policy.(weight := HOUR, unit := DEFAULT_UNIT) else policy;
      this.batchSize := if batchSize <= 0 then DEFAULT_BATCH else batchSize;
      tally, failures, closed := Tally(0, 0, 0, 0), 0, false;
    }

    /**
    Rank a batch and unlink files, lowest score first, until enough is freed or
    the batch is used up. stuck are the files that cannot be unlinked.
    */
    method EvictBatch(batch: seq<Ref>, need: int, stuck: set<Ref>)
      returns (refs: seq<Ref>, freed: nat, ghost popped: Slice, ghost rest: Slice)
      requires Valid() && Distinct(batch) && forall i :: 0 <= i < |batch| ==> batch[i] in store.index.rows
      modifies store`slots, store`ledger, this`failures
      ensures Valid()
      ensures BatchDone(policy, old(store.State()), store.State(), batch, stuck, need, popped, rest, refs, freed)
      ensures freed < need ==> rest == []
      ensures failures == old(failures) + |popped| - |refs|
    {
      var table := store.index.rows;
      ghost var before := store.State();
      var h := Init(CandidatesOf(policy, table, batch));
      refs, freed, popped := [], 0, [];
      BatchStarts(policy, before, batch, stuck, need, h);
      while |h| > 0 && freed < need
        invariant Valid() && store.index.rows == table
        invariant BatchDone(policy, before, store.State(), batch, stuck, need, popped, h, refs, freed)
        invariant failures == old(failures) + |popped| - |refs|
        decreases |h|
      {
        ghost var c;
        h, refs, freed, c := EvictNext(h, need, stuck, refs, freed, before, batch, popped);
        popped := popped + [c];
      }
      rest := h;
    }

    /** Pop the lowest score and unlink its file, or count a failure. */
    method EvictNext(h: Slice, need: int, stuck: set<Ref>, refs: seq<Ref>, freed: nat, ghost before: Node, ghost batch: seq<Ref>, ghost popped: Slice)
      returns (rest: Slice, victims: seq<Ref>, total: nat, ghost c: Candidate)
      requires Valid() && |h| > 0 && freed < need && forall i :: 0 <= i < |batch| ==> batch[i] in before.rows
      requires BatchDone(policy, before, store.State(), batch, stuck, need, popped, h, refs, freed)
      modifies store`slots, store`ledger, this`failures
      ensures Valid() && |rest| == |h| - 1
      ensures BatchDone(policy, before, store.State(), batch, stuck, need, popped + [c], rest, victims, total)
      ensures failures == old(failures) + 1 - (|victims| - |refs|)
    {
      ghost var mid := store.State();
      var top;
      top, rest := Pop(h);
      c := top;
      NextCandidate(policy, before, mid, batch, stuck, need, popped, h, refs, freed, top, rest);
      var size, err := store.DeleteFile(top.ref, top.ref !in stuck);
      if err {
        BatchSkips(policy, before, mid, batch, stuck, need, popped, h, refs, freed, top, rest);
        failures := failures + 1;
        victims, total := refs, freed;
      } else {
        BatchTakes(policy, before, mid, batch, stuck, need, popped, h, refs, freed, top, rest);
        victims, total := refs + [top.ref], freed + top.row.size;
      }
    }

    /** One turn of the sweep: take the coldest rows, unlink the victims, drop their rows in one transaction. */
    method Round(need: int, stuck: set<Ref>) returns (refs: seq<Ref>, more: nat, ghost batch: seq<Ref>)
      requires Valid() && need > 0 && |store.index.rows| > 0
      modifies store`slots, store`ledger, this`failures, store.index`rows, store.index`pending
      ensures Valid() && RoundDone(old(store.State()), store.State(), refs, more, need)
      ensures |refs| == 0 ==> Jammed(store.State(), batchSize, stuck, batch)
      ensures old(store.index.pending) == map[] ==> store.index.pending == map[]
      ensures |refs| <= batchSize && Fair(policy, old(store.State()), stuck, refs, store.index.rows)
    {
      ghost var before := store.State();
      var coldest := store.index.ColdestN(batchSize);
      batch := coldest;
      ghost var popped, rest;
      refs, more, popped, rest := EvictBatch(coldest, need, stuck);
      ghost var mid := store.State();
      var rerr := store.index.RemoveBatch(refs, true);
      EmptiedRows(before, store.index.rows, refs);
      BatchIsFair(policy, before, mid, coldest, batchSize, stuck, need, popped, rest, refs, more);
      if |refs| == 0 {
        AllBlocked(policy, before, mid, batch, stuck, need, popped, refs);
        NothingRemoved(before.rows, refs);
      }
    }

    /** One more round, added to what the rounds before it did. */
    method Turn(evicted: nat, freed: nat, mustFree: int, stuck: set<Ref>, ghost before: Node, ghost gone: seq<Ref>)
      returns (evicted': nat, freed': nat, stalled: bool, ghost gone': seq<Ref>, ghost jam: seq<Ref>)
      requires Valid() && freed < mustFree <= ByteTotal(before.rows)
      requires FairlyDrained(policy, stuck, before, store.State(), gone, evicted, freed, mustFree)
      modifies store`slots, store`ledger, this`failures, store.index`rows, store.index`pending
      ensures Valid() && FairlyDrained(policy, stuck, before, store.State(), gone', evicted', freed', mustFree)
      ensures old(store.index.pending) == map[] ==> store.index.pending == map[]
      ensures if stalled then Jammed(store.State(), batchSize, stuck, jam) else |store.index.rows| < |old(store.index.rows)|
    {
      AboveTargetHasRows(before.rows, store.index.rows, gone, evicted, freed, mustFree);
      ghost var mid := store.State();
      var refs, more;
      refs, more, jam := Round(mustFree - freed, stuck);
      DrainGoesOn(before, mid, store.State(), gone, evicted, freed, mustFree, refs, more);
      FairGoesOn(policy, before, mid, store.State(), stuck, gone, evicted, freed, mustFree, refs, more);
      RemovedTotals(mid.rows, refs);
      gone', evicted', freed', stalled := gone + refs, evicted + |refs|, freed + more, |refs| == 0;
    }

    /** Rounds until enough is freed, the coldest batch is stuck, or the caller gives up. */
    method Drain(mustFree: int, stuck: set<Ref>, cancelled: Option<nat>)
      returns (evicted: nat, freed: nat, err: bool, stalled: bool, ghost gone: seq<Ref>, ghost jam: seq<Ref>, ghost rounds: nat)
      requires Valid() && 0 < mustFree <= ByteTotal(store.index.rows)
      modifies store`slots, store`ledger, this`failures, store.index`rows, store.index`pending
      ensures Valid()
      ensures Drained(old(store.State()), store.State(), gone, evicted, freed, mustFree)
      ensures stalled ==> Jammed(store.State(), batchSize, stuck, jam)
      ensures !err && !stalled ==> freed >= mustFree
      ensures err ==> cancelled == Some(rounds)
      ensures cancelled.Some? ==> rounds <= cancelled.value && (rounds == cancelled.value ==> err || stalled || freed >= mustFree)
      ensures old(store.index.pending) == map[] ==> store.index.pending == map[]
      ensures cancelled == Some(0) ==> err && gone == []
      ensures Fair(policy, old(store.State()), stuck, gone, store.index.rows)
    {
      evicted, freed, err, stalled, gone, jam, rounds := 0, 0, false, false, [], [], 0;
      ghost var before := store.State();
      SweptNothing(before.rows);
      var turns, last := 0, if cancelled.Some? then cancelled.value as int else -1;
      while freed < mustFree && !err && !stalled
        invariant Valid() && FairlyDrained(policy, stuck, before, store.State(), gone, evicted, freed, mustFree)
        invariant stalled ==> Jammed(store.State(), batchSize, stuck, jam)
        invariant old(store.index.pending) == map[] ==> store.index.pending == map[]
        invariant rounds == turns && (rounds == 0 ==> gone == [] && !stalled && freed == 0)
        invariant (last >= 0 ==> rounds <= last) && (err ==> rounds == last)
        decreases !err, !stalled, |store.index.rows|
      {
        if turns == last {
          err := true;
        } else {
          turns, rounds := turns + 1, rounds + 1;
          evicted, freed, stalled, gone, jam := Turn(evicted, freed, mustFree, stuck, before, gone);
        }
      }
    }

    /** Unless closed, record the queued reads, then measure. */
    method Measure(flushOk: bool, totalsOk: bool) returns (used: nat, err: bool)
      requires Valid()
      modifies store.index`rows, store.index`pending
      ensures Valid() && (err <==> closed || (old(store.index.pending) != map[] && !flushOk) || !totalsOk)
      ensures closed ==> store.index.rows == old(store.index.rows) && store.index.pending == old(store.index.pending)
      ensures !closed ==> store.index.pending == map[]
      ensures !closed && flushOk ==> store.index.rows == Flushed(old(store.index.rows), old(store.index.pending))
      ensures !flushOk ==> store.index.rows == old(store.index.rows)
      ensures SameObjects(old(store.index.rows), store.index.rows)
      ensures ByteTotal(store.index.rows) == ByteTotal(old(store.index.rows))
      ensures !err ==> used == ByteTotal(store.index.rows)
    {
      if closed {
        return 0, true;
      }
      err := store.index.FlushTouches(flushOk);
      if err || !totalsOk {
        return 0, true;
      }
      var objects;
      objects, used := store.index.Totals();
    }

    /** Above the high mark, drain to the low one and count the sweep. */
    method Relieve(used: nat, stuck: set<Ref>, cancelled: Option<nat>)
      returns (evicted: nat, freed: nat, err: bool, stalled: bool, ghost gone: seq<Ref>, ghost jam: seq<Ref>)
      requires Valid() && used == ByteTotal(store.index.rows)
      modifies this`tally, this`failures, store`slots, store`ledger, store.index`rows, store.index`pending
      ensures Valid()
      ensures Relieved(quota, batchSize, stuck, old(store.State()), store.State(), old(tally), tally, evicted, freed, err, stalled, gone, jam)
      ensures err ==> cancelled.Some?
      ensures Fair(policy, old(store.State()), stuck, gone, store.index.rows)
      ensures old(store.index.pending) == map[] ==> store.index.pending == map[]
      ensures cancelled == Some(0) ==> gone == [] && (used > HighBytes(quota) ==> err)
    {
      evicted, freed, err, stalled, gone, jam := 0, 0, false, false, [], [];
      ghost var before, t := store.State(), tally;
      MarksInOrder(quota);
      NothingToRelieve(quota, batchSize, stuck, before, t);
      if used > HighBytes(quota) {
        ghost var rounds;
        evicted, freed, err, stalled, gone, jam, rounds := Drain(used - LowBytes(quota), stuck, cancelled);
        DrainRelieves(quota, batchSize, stuck, before, store.State(), t, evicted, freed, err, stalled, gone, jam);
        tally := Counted(tally, evicted, freed, err, stalled);
      }
    }

    /**
    Evict down to the low-water mark. The returned counts are the exact drop in
    rows and bytes; gone names the victims and start is the table once queued
    reads were recorded. stalled says that none of the coldest batch, jam, could
    be unlinked. flushOk and totalsOk say which index reads and writes succeed;
    cancelled is the number of batches after which the caller gives up or the
    index cannot name the coldest rows, if any.
    */
    method Sweep(flushOk: bool, totalsOk: bool, stuck: set<Ref>, cancelled: Option<nat>)
      returns (evicted: nat, freed: nat, err: bool, stalled: bool, ghost gone: seq<Ref>, ghost jam: seq<Ref>, ghost start: Table)
      requires Valid()
      modifies this`tally, this`failures, store`slots, store`ledger, store.index`rows, store.index`pending
      ensures Valid()
      ensures SameObjects(old(store.index.rows), start) && ByteTotal(start) == ByteTotal(old(store.index.rows))
      ensures start == if closed || !flushOk then old(store.index.rows) else Flushed(old(store.index.rows), old(store.index.pending))
      ensures store.index.pending == if closed then old(store.index.pending) else map[]
      ensures closed || (old(store.index.pending) != map[] && !flushOk) || !totalsOk ==>
                && err && !stalled && evicted == freed == 0 && gone == []
                && store.State() == old(store.State()).(rows := start) && tally == old(tally)
      ensures !closed && (old(store.index.pending) == map[] || flushOk) && totalsOk ==>
                Relieved(quota, batchSize, stuck, old(store.State()).(rows := start), store.State(), old(tally), tally,
                         evicted, freed, err, stalled, gone, jam)
      ensures Fair(policy, old(store.State()).(rows := start), stuck, gone, store.index.rows)
      ensures cancelled == Some(0) ==> gone == [] && (ByteTotal(start) > HighBytes(quota) ==> err)
      ensures err ==> cancelled.Some? || closed || (old(store.index.pending) != map[] && !flushOk) || !totalsOk
    {
      var used;
      used, err := Measure(flushOk, totalsOk);
      assert store.State() == old(store.State()).(rows := store.index.rows);
      evicted, freed, stalled, gone, jam, start := 0, 0, false, [], [], store.index.rows;
      if !err {
        evicted, freed, err, stalled, gone, jam := Relieve(used, stuck, cancelled);
      }
    }
  }

  /**
  What a sweep comes to, from the table it measured: at or below the high mark,
  nothing; above it, the low mark is reached unless the caller gave up or the
  coldest batch is stuck. Counts are exact, and it frees less than it had to plus
  its last victim.
  */
  ghost predicate Relieved(q: Quota, batchSize: nat, stuck: set<Ref>, n: Node, m: Node, t: Tally, u: Tally,
                           evicted: nat, freed: nat, err: bool, stalled: bool, gone: seq<Ref>, jam: seq<Ref>) {
    && Drained(n, m, gone, evicted, freed, ByteTotal(n.rows) - LowBytes(q))
    && (stalled ==> Jammed(m, batchSize, stuck, jam))
    && (ByteTotal(n.rows) <= HighBytes(q) ==> gone == [] && !stalled && !err && u == t)
    && (ByteTotal(n.rows) > HighBytes(q) ==>
          && u.sweeps == t.sweeps + 1 && u.overshoot == t.overshoot + (if stalled then 1 else 0)
          && u.evicted == t.evicted + (if err then 0 else evicted) && u.reclaimed == t.reclaimed + if err then 0 else freed)
    && (ByteTotal(n.rows) > HighBytes(q) && !err && !stalled ==> ByteTotal(m.rows) <= LowBytes(q))
  }

  lemma NothingToRelieve(q: Quota, k: nat, stuck: set<Ref>, n: Node, t: Tally)
    ensures ByteTotal(n.rows) <= HighBytes(q) && 0 <= LowBytes(q) <= HighBytes(q) ==>
              Relieved(q, k, stuck, n, n, t, t, 0, 0, false, false, [], [])
  {
    SweptNothing(n.rows);
  }

  lemma DrainRelieves(q: Quota, k: nat, stuck: set<Ref>, n: Node, m: Node, t: Tally,
                      evicted: nat, freed: nat, err: bool, stalled: bool, gone: seq<Ref>, jam: seq<Ref>)
    requires ByteTotal(n.rows) > HighBytes(q) >= LowBytes(q)
    requires Drained(n, m, gone, evicted, freed, ByteTotal(n.rows) - LowBytes(q))
    requires stalled ==> Jammed(m, k, stuck, jam)
    requires !err && !stalled ==> freed >= ByteTotal(n.rows) - LowBytes(q)
    ensures Relieved(q, k, stuck, n, m, t, Counted(t, evicted, freed, err, stalled), evicted, freed, err, stalled, gone, jam)
  {
  }

  /** The row of a victim does not score higher than that of a survivor, or was read no later. */
  predicate NoDearer(p: Policy, victim: Row, survivor: Row) {
    Score(p, victim) <= Score(p, survivor) || victim.accessed <= survivor.accessed
  }

  /** No row that could have gone, and was both cheaper and colder than a victim, is left. */
  ghost predicate Fair(p: Policy, n: Node, stuck: set<Ref>, gone: seq<Ref>, left: Table) {
    forall v, r :: v in gone && r in left && !Blocked(n, stuck, r) ==>
      v in n.rows && r in n.rows && NoDearer(p, n.rows[v], n.rows[r])
  }

  lemma BatchIsFair(p: Policy, n: Node, m: Node, batch: seq<Ref>, k: nat, stuck: set<Ref>, need: int,
                    popped: Slice, rest: Slice, refs: seq<Ref>, freed: nat)
    requires IsColdest(n.rows, k, batch)
    requires BatchDone(p, n, m, batch, stuck, need, popped, rest, refs, freed)
    ensures Fair(p, n, stuck, refs, n.rows - Elements(refs)) && |refs| <= |batch|
  {
    var t, blocked := n.rows, BlockedIn(n, stuck, batch);
    SplitHonest(p, t, batch, popped, rest);
    VictimsMembers(popped, blocked);
    DistinctSize(refs);
    DistinctSize(batch);
    SubsetSize(Elements(refs), Elements(batch));
    forall v, r | v in refs && r in t - Elements(refs) && !Blocked(n, stuck, r)
      ensures v in t && r in t && NoDearer(p, t[v], t[r])
    {
      var c :| c in popped && c.ref == v;
      if r in batch {
        var d := LeftInRest(p, t, batch, popped, rest, r);
        assert r !in blocked && r !in Victims(popped, blocked);
        assert d in rest;
      }
    }
  }

  /** Every row of the batch has its candidate in one of the two parts. */
  lemma LeftInRest(p: Policy, t: Table, batch: seq<Ref>, popped: Slice, rest: Slice, r: Ref) returns (d: Candidate)
    requires forall i :: 0 <= i < |batch| ==> batch[i] in t
    requires Split(p, t, batch, popped, rest) && r in batch
    ensures d == CandidateOf(p, t, r) && (d in popped || d in rest)
  {
    var cs := CandidatesOf(p, t, batch);
    var i :| 0 <= i < |batch| && batch[i] == r;
    d := cs[i];
    assert d in multiset(cs);
    assert d in multiset(popped) || d in multiset(rest);
  }

  lemma FairGoesOn(p: Policy, a: Node, b: Node, c: Node, stuck: set<Ref>, gone: seq<Ref>, evicted: nat, freed: nat, mustFree: int,
                   refs: seq<Ref>, more: nat)
    requires Drained(a, b, gone, evicted, freed, mustFree) && RoundDone(b, c, refs, more, mustFree - freed)
    requires Fair(p, a, stuck, gone, b.rows) && Fair(p, b, stuck, refs, c.rows)
    ensures Fair(p, a, stuck, gone + refs, c.rows)
  {
    forall v, r | v in gone + refs && r in c.rows && !Blocked(a, stuck, r)
      ensures v in a.rows && r in a.rows && NoDearer(p, a.rows[v], a.rows[r])
    {
      StillThere(a, b, stuck, gone, evicted, freed, mustFree, r);
      if v in refs {
        assert v in b.rows;
      }
    }
  }

  /** What a drain has not removed is as it was, and as hard to unlink. */
  lemma StillThere(a: Node, b: Node, stuck: set<Ref>, gone: seq<Ref>, evicted: nat, freed: nat, mustFree: int, r: Ref)
    requires Drained(a, b, gone, evicted, freed, mustFree) && r in b.rows
    ensures r in a.rows && b.rows[r] == a.rows[r] && (Blocked(b, stuck, r) <==> Blocked(a, stuck, r))
    ensures forall q :: q in b.rows ==> q in a.rows && b.rows[q] == a.rows[q]
  {
    EmptiedIsExact(a, gone);
    assert r !in gone;
    assert SlotOf(b, r) == SlotOf(a, r);
  }

  ghost predicate RoundDone(before: Node, after: Node, refs: seq<Ref>, more: nat, need: int) {
    && Distinct(refs) && (forall r :: r in refs ==> r in before.rows)
    && after.rows == before.rows - Elements(refs)
    && more == SizeOf(before.rows, refs)
    && after == Emptied(before, refs).(rows := after.rows)
    && (more >= need ==> refs != [] && more - before.rows[refs[|refs| - 1]].size < need)
  }

  /** What a drain has done so far; it never frees a whole object more than it had to. */
  ghost predicate Drained(before: Node, after: Node, gone: seq<Ref>, evicted: nat, freed: nat, mustFree: int) {
    && SweptRows(before.rows, after.rows, gone, evicted, freed)
    && after == Emptied(before, gone).(rows := after.rows)
    && (freed >= mustFree && mustFree > 0 ==> gone != [] && freed - before.rows[gone[|gone| - 1]].size < mustFree)
  }

  ghost predicate FairlyDrained(p: Policy, stuck: set<Ref>, before: Node, after: Node, gone: seq<Ref>, evicted: nat, freed: nat, mustFree: int) {
    Drained(before, after, gone, evicted, freed, mustFree) && Fair(p, before, stuck, gone, after.rows)
  }

  lemma DrainGoesOn(a: Node, b: Node, c: Node, gone: seq<Ref>, evicted: nat, freed: nat, mustFree: int, refs: seq<Ref>, more: nat)
    requires Drained(a, b, gone, evicted, freed, mustFree) && freed < mustFree
    requires RoundDone(b, c, refs, more, mustFree - freed)
    ensures Drained(a, c, gone + refs, evicted + |refs|, freed + more, mustFree)
  {
    BatchInSweep(a.rows, b.rows, gone, evicted, freed, refs);
    EmptiedAppend(a, gone, refs);
    EmptiedRows(Emptied(a, gone), b.rows, refs);
    if refs != [] {
      assert refs[|refs| - 1] in refs;
      assert (gone + refs)[|gone + refs| - 1] == refs[|refs| - 1];
    }
  }

  lemma NothingRemoved(t: Table, refs: seq<Ref>)
    requires |refs| == 0
    ensures t - Elements(refs) == t
  {
  }

  /** The coldest batch consists of files that cannot be unlinked. */
  ghost predicate Jammed(n: Node, batchSize: nat, stuck: set<Ref>, batch: seq<Ref>) {
    IsColdest(n.rows, batchSize, batch) && |batch| > 0 && forall r :: r in batch ==> Blocked(n, stuck, r)
  }

  /** When every file can be unlinked no batch jams, so a sweep never overshoots. */
  lemma RemovableFilesNeverJam(n: Node, batchSize: nat, batch: seq<Ref>)
    requires forall r :: r in n.rows ==> ValidRef(r)
    ensures !Jammed(n, batchSize, {}, batch)
  {
    assert |batch| > 0 ==> batch[0] in batch;
  }

  lemma BatchInSweep(start: Table, mid: Table, gone: seq<Ref>, evicted: nat, freed: nat, refs: seq<Ref>)
    requires SweptRows(start, mid, gone, evicted, freed)
    requires Distinct(refs) && forall r :: r in refs ==> r in mid
    ensures SweptRows(start, mid - Elements(refs), gone + refs, evicted + |refs|, freed + SizeOf(mid, refs))
    ensures forall r :: r in refs ==> r in start && mid[r] == start[r]
  {
    SweptMore(start, mid, mid - Elements(refs), gone, evicted, freed, refs);
  }

  /** A batch that was used up without a victim was blocked throughout. */
  lemma AllBlocked(p: Policy, n: Node, m: Node, batch: seq<Ref>, stuck: set<Ref>, need: int, popped: Slice, refs: seq<Ref>)
    requires forall i :: 0 <= i < |batch| ==> batch[i] in n.rows
    requires |refs| == 0 && BatchDone(p, n, m, batch, stuck, need, popped, [], refs, 0)
    ensures forall r :: r in batch ==> Blocked(m, stuck, r)
  {
    var cs := CandidatesOf(p, n.rows, batch);
    MultisetOfNothing<Candidate>();
    assert multiset(popped) == multiset(cs);
    var blocked := BlockedIn(n, stuck, batch);
    VictimsMembers(popped, blocked);
    forall r | r in batch ensures Blocked(m, stuck, r) {
      var i :| 0 <= i < |batch| && batch[i] == r;
      assert cs[i] in multiset(cs);
      assert cs[i] in popped && cs[i].ref == r;
      assert r !in Victims(popped, blocked);
      assert r in blocked;
      assert SlotOf(m, r) == SlotOf(n, r);
    }
  }

  lemma MultisetOfNothing<T>()
    ensures var none: seq<T> := []; forall s: multiset<T> :: s + multiset(none) == s
  {
  }
}
