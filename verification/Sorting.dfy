/**
Sorting by a strict order. The source sorts with `sort.Slice`, which promises
only "a sorted permutation"; here that promise is shown to name one sequence.
*/
module Sorting {

  ghost predicate StrictOrder<T(!new)>(less: (T, T) -> bool) {
    && (forall x :: !less(x, x))
    && (forall x, y, z :: less(x, y) && less(y, z) ==> less(x, z))
  }

  ghost predicate TotalOn<T(!new)>(less: (T, T) -> bool, xs: set<T>) {
    forall x, y :: x in xs && y in xs && x != y ==> less(x, y) || less(y, x)
  }

  ghost predicate Sorted<T(!new)>(less: (T, T) -> bool, s: seq<T>) {
    forall i, j :: 0 <= i < j < |s| ==> less(s[i], s[j])
  }

  ghost predicate Distinct<T(!new)>(s: seq<T>) {
    forall i, j :: 0 <= i < j < |s| ==> s[i] != s[j]
  }

  function Elements<T>(s: seq<T>): (r: set<T>) {
    set x | x in s
  }

  function Insert<T>(less: (T, T) -> bool, x: T, s: seq<T>): (r: seq<T>) {
    if |s| == 0 || less(x, s[0]) then [x] + s else [s[0]] + Insert(less, x, s[1..])
  }

  function Sort<T>(less: (T, T) -> bool, s: seq<T>): (r: seq<T>) {
    if |s| == 0 then [] else Insert(less, s[|s| - 1], Sort(less, s[..|s| - 1]))
  }

  lemma {:induction false} InsertElements<T>(less: (T, T) -> bool, x: T, s: seq<T>)
    ensures Elements(Insert(less, x, s)) == Elements(s) + {x}
    ensures |Insert(less, x, s)| == |s| + 1
  {
    if |s| > 0 && !less(x, s[0]) {
      InsertElements(less, x, s[1..]);
      assert s == [s[0]] + s[1..];
      assert Elements(s) == {s[0]} + Elements(s[1..]);
      assert Elements([s[0]] + Insert(less, x, s[1..])) == {s[0]} + Elements(Insert(less, x, s[1..]));
    } else {
      assert Elements([x] + s) == {x} + Elements(s);
    }
  }

  lemma {:induction false} InsertSorted<T(!new)>(less: (T, T) -> bool, x: T, s: seq<T>)
    requires StrictOrder(less) && Sorted(less, s)
    requires forall y :: y in s ==> less(x, y) || less(y, x)
    ensures Sorted(less, Insert(less, x, s))
  {
    if |s| > 0 {
      if less(x, s[0]) {
        var r := [x] + s;
        forall i, j | 0 <= i < j < |r| ensures less(r[i], r[j]) {
          if i == 0 && j > 1 {
            assert less(s[0], s[j - 1]);
          }
        }
      } else {
        InsertSorted(less, x, s[1..]);
        InsertElements(less, x, s[1..]);
        var t := Insert(less, x, s[1..]);
        forall j | 0 <= j < |t| ensures less(s[0], t[j]) {
          assert t[j] in Elements(t);
          assert s[0] in s;
          if t[j] != x {
            assert t[j] in s[1..];
          }
        }
      }
    }
  }

  /** Insertion sort of distinct, pairwise comparable elements sorts them and loses none. */
  lemma {:induction false} SortSorts<T(!new)>(less: (T, T) -> bool, s: seq<T>)
    requires StrictOrder(less) && Distinct(s) && TotalOn(less, Elements(s))
    ensures Sorted(less, Sort(less, s))
    ensures Elements(Sort(less, s)) == Elements(s)
    ensures |Sort(less, s)| == |s|
  {
    if |s| > 0 {
      var front, last := s[..|s| - 1], s[|s| - 1];
      assert s == front + [last];
      assert Elements(s) == Elements(front) + {last};
      SortSorts(less, front);
      var sorted := Sort(less, front);
      forall y | y in sorted ensures less(last, y) || less(y, last) {
        assert y in Elements(sorted);
        assert y in front && last in s && y in s;
      }
      InsertSorted(less, last, sorted);
      InsertElements(less, last, sorted);
    }
  }

  /** A strictly sorted sequence has no duplicates. */
  lemma SortedDistinct<T(!new)>(less: (T, T) -> bool, s: seq<T>)
    requires StrictOrder(less) && Sorted(less, s)
    ensures Distinct(s)
  {
  }

  lemma EmptyElements<T(!new)>(s: seq<T>)
    ensures Elements(s) == {} <==> s == []
  {
    if |s| > 0 {
      assert s[0] in Elements(s);
    }
  }

  /** There is only one strictly sorted sequence over a given set of elements. */
  lemma {:induction false} SortedUnique<T(!new)>(less: (T, T) -> bool, a: seq<T>, b: seq<T>)
    requires StrictOrder(less) && Sorted(less, a) && Sorted(less, b)
    requires Elements(a) == Elements(b)
    ensures a == b
    decreases |a|
  {
    EmptyElements(a);
    EmptyElements(b);
    if |a| > 0 {
      assert a[0] in Elements(a);
      assert a[0] in b && |b| > 0;
      assert b[0] in Elements(b);
      var i :| 0 <= i < |a| && a[i] == b[0];
      var j :| 0 <= j < |b| && b[j] == a[0];
      assert a[0] == b[0];
      TailElements(less, a);
      TailElements(less, b);
      SortedUnique(less, a[1..], b[1..]);
      assert a == [a[0]] + a[1..] && b == [b[0]] + b[1..];
    }
  }

  lemma TailElements<T(!new)>(less: (T, T) -> bool, a: seq<T>)
    requires StrictOrder(less) && Sorted(less, a) && |a| > 0
    ensures Elements(a[1..]) == Elements(a) - {a[0]}
  {
    assert a == [a[0]] + a[1..];
    forall k | 0 <= k < |a[1..]| ensures a[1..][k] != a[0] {
      assert less(a[0], a[k + 1]);
    }
  }

  /** A sorted sequence without one element is still sorted, and is the rest of the elements. */
  function Without<T(==)>(s: seq<T>, x: T): (r: seq<T>) {
    if |s| == 0 then [] else if s[0] == x then Without(s[1..], x) else [s[0]] + Without(s[1..], x)
  }

  lemma {:induction false} WithoutElements<T(!new)>(s: seq<T>, x: T)
    ensures Elements(Without(s, x)) == Elements(s) - {x}
  {
    if |s| > 0 {
      WithoutElements(s[1..], x);
      assert s == [s[0]] + s[1..];
      assert Elements(s) == {s[0]} + Elements(s[1..]);
      if s[0] != x {
        assert Elements([s[0]] + Without(s[1..], x)) == {s[0]} + Elements(Without(s[1..], x));
      }
    }
  }

  lemma {:induction false} WithoutSorted<T(!new)>(less: (T, T) -> bool, s: seq<T>, x: T)
    requires Sorted(less, s)
    ensures Sorted(less, Without(s, x))
  {
    if |s| > 0 {
      WithoutSorted(less, s[1..], x);
      WithoutElements(s[1..], x);
      if s[0] != x {
        var t := Without(s[1..], x);
        forall j | 0 <= j < |t| ensures less(s[0], t[j]) {
          assert t[j] in Elements(t);
          assert t[j] in s[1..];
        }
      }
    }
  }

  /** Distinct sequences have as many members as positions. */
  lemma {:induction false} DistinctSize<T(!new)>(s: seq<T>)
    requires Distinct(s)
    ensures |Elements(s)| == |s|
  {
    if |s| > 0 {
      var front, last := s[..|s| - 1], s[|s| - 1];
      assert s == front + [last];
      DistinctSize(front);
      assert Elements(s) == Elements(front) + {last};
      assert last !in front;
    }
  }
}
