/**
The candidate heap (internal/storage/evict.go) with the sift-down of Go's
container/heap over it: a min-heap on score held in a slice.
*/
module CandidateHeap {
  import opened Base
  import opened Rows

  datatype Candidate = Candidate(ref: Ref, row: Row, score: int)

  type Slice = seq<Candidate>

  function Parent(c: nat): (p: nat)
    requires c > 0
    ensures p < c
  {
    (c - 1) / 2
  }

  /** Every slot of the first n whose parent is at or after k scores no less than the parent. */
  ghost predicate HeapFrom(h: Slice, k: nat, n: nat) {
    n <= |h| && forall c :: 0 < c < n && Parent(c) >= k ==> h[Parent(c)].score <= h[c].score
  }

  ghost predicate IsHeap(h: Slice) {
    HeapFrom(h, 0, |h|)
  }

  function Swapped(h: Slice, i: nat, j: nat): (r: Slice)
    requires i < |h| && j < |h|
  {
    h[i := h[j]][j := h[i]]
  }

  lemma SwapPermutes(h: Slice, i: nat, j: nat)
    requires i < |h| && j < |h|
    ensures multiset(Swapped(h, i, j)) == multiset(h)
  {
    assert multiset(h[i := h[j]]) == multiset(h) - multiset{h[i]} + multiset{h[j]};
    assert h[i := h[j]][j] == h[j];
  }

  /** The root of a heap scores lowest. */
  lemma {:induction false} RootIsLeast(h: Slice, n: nat, c: nat)
    requires HeapFrom(h, 0, n) && c < n
    ensures h[0].score <= h[c].score
  {
    if c > 0 {
      RootIsLeast(h, n, Parent(c));
    }
  }

  /** Heap order everywhere from k except possibly between i and its children. */
  ghost predicate HeapBut(h: Slice, k: nat, n: nat, i: nat) {
    && n <= |h|
    && (forall c :: 0 < c < n && Parent(c) >= k && Parent(c) != i ==> h[Parent(c)].score <= h[c].score)
    && (i > 0 && Parent(i) >= k ==> forall c :: 0 < c < n && Parent(c) == i ==> h[Parent(i)].score <= h[c].score)
  }

  /** The smaller child of i. */
  method SmallerChild(h: Slice, i: nat, n: nat) returns (j: nat)
    requires n <= |h| && 2 * i + 1 < n
    ensures j < n && j > 0 && Parent(j) == i
    ensures forall c :: 0 < c < n && Parent(c) == i ==> h[j].score <= h[c].score
  {
    j := 2 * i + 1;
    if j + 1 < n && h[j + 1].score < h[j].score {
      j := j + 1;
    }
    assert forall c :: 0 < c < n && Parent(c) == i ==> c == 2 * i + 1 || c == 2 * i + 2;
  }

  lemma SiftStep(h: Slice, k: nat, n: nat, i: nat, j: nat)
    requires HeapBut(h, k, n, i) && k <= i && j < n && j > 0 && Parent(j) == i
    requires forall c :: 0 < c < n && Parent(c) == i ==> h[j].score <= h[c].score
    requires h[j].score < h[i].score
    ensures HeapBut(Swapped(h, i, j), k, n, j)
  {
    var g := Swapped(h, i, j);
    forall c | 0 < c < n && Parent(c) >= k && Parent(c) != j ensures g[Parent(c)].score <= g[c].score {
      if Parent(c) == i {
        assert h[j].score <= h[c].score;
      } else if c == i {
        assert h[Parent(i)].score <= h[j].score;
      }
    }
    forall c | 0 < c < n && Parent(c) == j ensures g[Parent(j)].score <= g[c].score {
      assert h[Parent(c)].score <= h[c].score;
    }
  }

  /** Sift slot i0 down until heap order holds from k on. */
  method Down(h0: Slice, i0: nat, n: nat) returns (h: Slice)
    requires n <= |h0| && i0 < n
    requires HeapBut(h0, i0, n, i0)
    ensures |h| == |h0| && HeapFrom(h, i0, n)
    ensures multiset(h) == multiset(h0) && h[n..] == h0[n..]
  {
    h := h0;
    var i := i0;
    while 2 * i + 1 < n
      invariant i0 <= i < n && |h| == |h0| && HeapBut(h, i0, n, i)
      invariant multiset(h) == multiset(h0) && h[n..] == h0[n..]
      decreases n - i
    {
      var j := SmallerChild(h, i, n);
      if h[j].score >= h[i].score {
        return;
      }
      SiftStep(h, i0, n, i, j);
      SwapPermutes(h, i, j);
      h := Swapped(h, i, j);
      i := j;
    }
  }

  /** Establish heap order from the last parent up. */
  method Init(h0: Slice) returns (h: Slice)
    ensures IsHeap(h) && multiset(h) == multiset(h0)
  {
    h := h0;
    var i := |h| / 2;
    while i > 0
      invariant 0 <= i <= |h| / 2 && |h| == |h0|
      invariant HeapFrom(h, i, |h|) && multiset(h) == multiset(h0)
      decreases i
    {
      i := i - 1;
      h := Down(h, i, |h|);
    }
  }

  /** With the root swapped to the end, only the new root may be out of place. */
  lemma SwapOutRoot(h: Slice, n: nat)
    requires IsHeap(h) && |h| == n + 1 && n > 0
    ensures HeapBut(Swapped(h, 0, n), 0, n, 0)
  {
    var g := Swapped(h, 0, n);
    forall k | 0 < k < n && Parent(k) != 0 ensures g[Parent(k)].score <= g[k].score {
      assert h[Parent(k)].score <= h[k].score;
    }
  }

  lemma RootIsLeastOfAll(h: Slice, rest: Slice)
    requires IsHeap(h) && |h| > 0 && multiset(rest) <= multiset(h)
    ensures forall d :: d in rest ==> h[0].score <= d.score
  {
    forall d | d in rest ensures h[0].score <= d.score {
      assert d in multiset(rest) && d in multiset(h);
      var k :| 0 <= k < |h| && h[k] == d;
      RootIsLeast(h, |h|, k);
    }
  }

  /** Remove a lowest-scored candidate; what remains is a heap of everything else. */
  method Pop(h0: Slice) returns (c: Candidate, h: Slice)
    requires IsHeap(h0) && |h0| > 0
    ensures IsHeap(h) && multiset(h0) == multiset(h) + multiset{c} && |h| == |h0| - 1
    ensures forall d :: d in h ==> c.score <= d.score
  {
    var n := |h0| - 1;
    var g := Swapped(h0, 0, n);
    SwapPermutes(h0, 0, n);
    if n > 0 {
      SwapOutRoot(h0, n);
      g := Down(g, 0, n);
      assert g[n] == g[n..][0];
    }
    c, h := g[n], g[..n];
    assert g == h + [c];
    RootIsLeastOfAll(h0, h);
  }
}
