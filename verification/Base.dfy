/** Names, bytes and orders shared by every layer of the model. */
module Base {
  type Bytes = seq<bv8>

  datatype Option<+T> = None | Some(value: T)

  /** One stored object: a namespace ("cas" or "ac") and a key. */
  datatype Ref = Ref(ns: string, key: string)

  const CAS := "cas"
  const AC := "ac"
  const HASH_LEN := 64

  predicate ValidNs(ns: string) {
    ns == CAS || ns == AC
  }

  /** Only CAS keys determine the bytes stored under them. */
  predicate ContentAddressed(ns: string) {
    ns == CAS
  }

  predicate HexChar(c: char) {
    '0' <= c <= '9' || 'a' <= c <= 'f'
  }

  /** A key is exactly 64 lowercase hex characters. */
  predicate ValidKey(s: string) {
    |s| == HASH_LEN && forall i :: 0 <= i < |s| ==> HexChar(s[i])
  }

  predicate ValidRef(r: Ref) {
    ValidNs(r.ns) && ValidKey(r.key)
  }

  // ---- Lexicographic order on strings ----

  predicate Less(a: string, b: string) {
    |b| > 0 && (|a| == 0 || a[0] < b[0] || (a[0] == b[0] && Less(a[1..], b[1..])))
  }

  lemma {:induction false} LessIrreflexive(a: string)
    ensures !Less(a, a)
  {
    if |a| > 0 {
      LessIrreflexive(a[1..]);
    }
  }

  lemma {:induction false} LessTransitive(a: string, b: string, c: string)
    requires Less(a, b) && Less(b, c)
    ensures Less(a, c)
  {
    if |a| > 0 && a[0] == b[0] == c[0] {
      LessTransitive(a[1..], b[1..], c[1..]);
    }
  }

  lemma {:induction false} LessTotal(a: string, b: string)
    ensures a == b || Less(a, b) || Less(b, a)
  {
    if |a| > 0 && |b| > 0 && a[0] == b[0] {
      LessTotal(a[1..], b[1..]);
      if a[1..] == b[1..] {
        assert a == [a[0]] + a[1..] && b == [b[0]] + b[1..];
      }
    }
  }

  /** The first place two strings part decides their order; a proper prefix comes first. */
  lemma {:induction false} LessAtFirstDifference(a: string, b: string, k: nat)
    requires k <= |a| && k <= |b| && a[..k] == b[..k]
    requires k == |a| || k == |b| || a[k] != b[k]
    ensures Less(a, b) <==> k < |b| && (k == |a| || a[k] < b[k])
  {
    if k > 0 {
      assert a[0] == a[..k][0] == b[..k][0] == b[0];
      assert a[1..][..k - 1] == a[..k][1..] == b[..k][1..] == b[1..][..k - 1];
      LessAtFirstDifference(a[1..], b[1..], k - 1);
    }
  }

  // ---- The index's primary-key order on (namespace, key) ----

  predicate RefLess(a: Ref, b: Ref) {
    Less(a.ns, b.ns) || (a.ns == b.ns && Less(a.key, b.key))
  }

  predicate RefAtMost(a: Ref, b: Ref) {
    a == b || RefLess(a, b)
  }

  lemma RefLessIrreflexive(a: Ref)
    ensures !RefLess(a, a)
  {
    LessIrreflexive(a.ns);
    LessIrreflexive(a.key);
  }

  lemma RefLessTransitive(a: Ref, b: Ref, c: Ref)
    requires RefLess(a, b) && RefLess(b, c)
    ensures RefLess(a, c)
  {
    if Less(a.ns, b.ns) && Less(b.ns, c.ns) {
      LessTransitive(a.ns, b.ns, c.ns);
    } else if a.ns == b.ns == c.ns {
      LessTransitive(a.key, b.key, c.key);
    }
  }

  lemma RefLessTotal(a: Ref, b: Ref)
    ensures a == b || RefLess(a, b) || RefLess(b, a)
  {
    LessTotal(a.ns, b.ns);
    LessTotal(a.key, b.key);
  }

  /** Every entry of one namespace comes before every entry of the next; inside one, keys decide. */
  lemma NamespaceThenKey(a: Ref, b: Ref)
    ensures a.ns != b.ns ==> (RefLess(a, b) <==> Less(a.ns, b.ns))
    ensures a.ns == b.ns ==> (RefLess(a, b) <==> Less(a.key, b.key))
    ensures a.ns == "ac" && b.ns == "cas" ==> RefLess(a, b)
  {
    LessIrreflexive(a.ns);
    LessAtFirstDifference("ac", "cas", 0);
  }

  // ---- Counting ----

  /** A subset of a finite set is no larger. */
  lemma SubsetSize<T>(a: set<T>, b: set<T>)
    requires a <= b
    ensures |a| <= |b|
    ensures |a| == |b| ==> a == b
  {
    assert b == a + (b - a);
    assert |b| == |a| + |b - a|;
  }
}
