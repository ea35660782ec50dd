/**
Rendezvous placement (internal/cluster/ring.go): the ordered list of members
for a key, computed identically on every node. The two uses of SHA-256 are
parameters, so every result holds for every hash.
*/
module Ring {
  import opened Base
  import opened Sorting
  import opened Words

  datatype Peer = Peer(name: string, url: string)

  datatype Member = Member(name: string, url: string, seed: Word)

  datatype Ring = Ring(members: seq<Member>, self: string)

  /** The 64-bit SHA-256 prefixes of a member name and of a key that is not hex. */
  datatype Hashes = Hashes(member: string -> Word, key: string -> Word)

  datatype RingError = EmptyMembership | EmptyName | DuplicateMember | SelfNotMember

  datatype NewResult = Built(ring: Ring) | Rejected(error: RingError)

  // ---- The SplitMix64 finalizer is a bijection ----

  const MUL1: nat := 0xbf58476d1ce4e5b9
  const MUL2: nat := 0x94d049bb133111eb
  const INV1: nat := 0x96de1b173f119089
  const INV2: nat := 0x319642b2d24d8ec3

  function Mixed(x: Word): (r: Word) {
    XorShift(MulWord(XorShift(MulWord(XorShift(x, 30), MUL1), 27), MUL2), 31)
  }

  function Unmixed(y: Word): (r: Word) {
    UnXorShift(MulWord(UnXorShift(MulWord(UnXorShift(y, 31), INV2), 27), INV1), 30)
  }

  lemma Multipliers(x: Word)
    ensures MulWord(MulWord(x, MUL1), INV1) == x && MulWord(MulWord(x, INV1), MUL1) == x
    ensures MulWord(MulWord(x, MUL2), INV2) == x && MulWord(MulWord(x, INV2), MUL2) == x
  {
    assert MUL1 * INV1 == 1 + 8125545580553827436 * TWO64;
    assert MUL2 * INV2 == 1 + 2077064247507883091 * TWO64;
    MulInverse(x, MUL1, INV1, 8125545580553827436);
    MulInverse(x, INV1, MUL1, 8125545580553827436);
    MulInverse(x, MUL2, INV2, 2077064247507883091);
    MulInverse(x, INV2, MUL2, 2077064247507883091);
  }

  /** Unmixed inverts Mixed on both sides: mixing is a bijection on 64-bit words. */
  lemma MixBijective(x: Word)
    ensures Unmixed(Mixed(x)) == x
    ensures Mixed(Unmixed(x)) == x
  {
    var a := XorShift(x, 30);
    var b := MulWord(a, MUL1);
    var c := XorShift(b, 27);
    XorShiftInverse(x, 30);
    Multipliers(a);
    XorShiftInverse(b, 27);
    Multipliers(c);
    XorShiftInverse(MulWord(c, MUL2), 31);
    var d := UnXorShift(x, 31);
    var e := MulWord(d, INV2);
    var f := UnXorShift(e, 27);
    XorShiftInverse(x, 31);
    Multipliers(d);
    XorShiftInverse(e, 27);
    Multipliers(f);
    XorShiftInverse(MulWord(f, INV1), 30);
  }

  method Mix(x0: Word) returns (x: Word)
    ensures x == Mixed(x0)
    ensures Unmixed(x) == x0
    ensures var a := Xor(x0, Shr(x0, 30)) * 0xbf58476d1ce4e5b9 % 0x1_0000_0000_0000_0000;
            var b := Xor(a, Shr(a, 27)) * 0x94d049bb133111eb % 0x1_0000_0000_0000_0000;
            x == Xor(b, Shr(b, 31))
  {
    x := XorShift(x0, 30);
    x := MulWord(x, 0xbf58476d1ce4e5b9);
    x := XorShift(x, 27);
    x := MulWord(x, 0x94d049bb133111eb);
    x := XorShift(x, 31);
    MixBijective(x0);
  }

  function Weight(keySeed: Word, memberSeed: Word): (r: Word) {
    XorWord(keySeed, memberSeed);
    Mixed(Xor(keySeed, memberSeed))
  }

  /** For any one key, two members tie exactly when their seeds are equal. */
  lemma TieIffSameSeed(keySeed: Word, a: Word, b: Word)
    ensures Weight(keySeed, a) == Weight(keySeed, b) <==> a == b
  {
    XorWord(keySeed, a);
    XorWord(keySeed, b);
    MixBijective(Xor(keySeed, a));
    MixBijective(Xor(keySeed, b));
    XorCancel(keySeed, a);
    XorCancel(keySeed, b);
  }

  /** A member weighs two keys the same exactly when their seeds are equal. */
  lemma WeightSeparatesKeys(j: Word, k: Word, member: Word)
    ensures Weight(j, member) == Weight(k, member) <==> j == k
  {
    XorWord(j, member);
    XorWord(k, member);
    MixBijective(Xor(j, member));
    MixBijective(Xor(k, member));
    XorCancel(j, member);
    XorCancel(k, member);
  }

  /** A tie between two members happens on every key or on none. */
  lemma TiesAreAllOrNothing(k1: Word, k2: Word, a: Word, b: Word)
    ensures Weight(k1, a) == Weight(k1, b) <==> Weight(k2, a) == Weight(k2, b)
  {
    TieIffSameSeed(k1, a, b);
    TieIffSameSeed(k2, a, b);
  }

  // ---- The key seed ----

  const SEED_DIGITS := 16

  predicate HexPrefixed(key: string) {
    |key| >= SEED_DIGITS && forall i :: 0 <= i < SEED_DIGITS ==> HexChar(key[i])
  }

  function HexVal(c: char): (r: nat)
    requires HexChar(c)
    ensures r < 16
  {
    if '0' <= c <= '9' then (c - '0') as nat else (c - 'a') as nat + 10
  }

  function HexNumber(s: string): (r: nat)
    requires forall i :: 0 <= i < |s| ==> HexChar(s[i])
    ensures r < Pow2(4 * |s|)
  {
    if |s| == 0 then 0
    else
      var v := HexNumber(s[..|s| - 1]);
      assert Pow2(4 * |s|) == 16 * Pow2(4 * (|s| - 1)) by {
        Pow2Four(|s| - 1);
      }
      16 * v + HexVal(s[|s| - 1])
  }

  lemma Pow2Four(n: nat)
    ensures Pow2(4 * (n + 1)) == 16 * Pow2(4 * n)
  {
    assert Pow2(4 * n + 4) == 2 * Pow2(4 * n + 3) == 4 * Pow2(4 * n + 2) == 8 * Pow2(4 * n + 1);
  }

  function KeySeed(h: Hashes, key: string): (r: Word) {
    if HexPrefixed(key) then
      WordWidth();
      HexNumber(key[..SEED_DIGITS])
    else h.key(key)
  }

  /** Equally long hex strings denote the same number only when they are the same. */
  lemma {:induction false} HexNumberInjective(s: string, t: string)
    requires |s| == |t|
    requires forall i :: 0 <= i < |s| ==> HexChar(s[i])
    requires forall i :: 0 <= i < |t| ==> HexChar(t[i])
    requires HexNumber(s) == HexNumber(t)
    ensures s == t
  {
    if |s| > 0 {
      HexNumberInjective(s[..|s| - 1], t[..|t| - 1]);
      assert s == s[..|s| - 1] + [s[|s| - 1]] && t == t[..|t| - 1] + [t[|t| - 1]];
    }
  }

  /** Two stored keys share a seed, and so a preference list, exactly when they share 16 digits. */
  lemma KeySeedIsThePrefix(h: Hashes, a: string, b: string)
    requires ValidKey(a) && ValidKey(b)
    ensures KeySeed(h, a) == KeySeed(h, b) <==> a[..SEED_DIGITS] == b[..SEED_DIGITS]
  {
    if KeySeed(h, a) == KeySeed(h, b) {
      HexNumberInjective(a[..SEED_DIGITS], b[..SEED_DIGITS]);
    }
  }

  lemma {:induction false} HexNumberNibbles(s: string, i: nat)
    requires i < |s| && forall j :: 0 <= j < |s| ==> HexChar(s[j])
    ensures Shr(HexNumber(s), 4 * (|s| - 1 - i)) % 16 == HexVal(s[i])
  {
    var n := |s| - 1;
    var v, d := HexNumber(s[..n]), HexVal(s[n]);
    DropNibble(v, d);
    if i < n {
      HexNumberNibbles(s[..n], i);
      ShrShr(16 * v + d, 4, 4 * (n - 1 - i));
    }
  }

  lemma DropNibble(v: nat, d: nat)
    requires d < 16
    ensures Shr(16 * v + d, 4) == v && Shr(16 * v + d, 0) % 16 == d
  {
    ShrDivides(16 * v + d, 4);
    assert Pow2(4) == 16;
  }

  /** The seed of a key that starts with sixteen hex digits reads back as those digits, first digit first; any other key's is its hash. */
  lemma KeySeedReadsBack(h: Hashes, key: string, i: nat)
    requires i < 16
    ensures |key| >= 16 && (forall j :: 0 <= j < 16 ==> HexChar(key[j])) ==>
              key[i] == "0123456789abcdef"[Shr(KeySeed(h, key), 60 - 4 * i) % 16]
    ensures |key| < 16 || (exists j :: 0 <= j < 16 && !HexChar(key[j])) ==> KeySeed(h, key) == h.key(key)
  {
    if HexPrefixed(key) {
      HexNumberNibbles(key[..16], i);
      DigitOfValue(key[i]);
    }
  }

  lemma DigitOfValue(c: char)
    requires HexChar(c)
    ensures c == "0123456789abcdef"[HexVal(c)]
  {
  }

  /** The source's digit loop; shifting left by four never loses a bit of the sixteen digits. */
  method ComputeKeySeed(h: Hashes, key: string) returns (v: Word)
    ensures v == KeySeed(h, key)
  {
    if !HexPrefixed(key) {
      return h.key(key);
    }
    var acc: nat := 0;
    for i := 0 to SEED_DIGITS
      invariant acc == HexNumber(key[..i]) && acc < Pow2(4 * i)
    {
      assert key[..i + 1][..i] == key[..i];
      RoomForADigit(acc, i);
      acc := (acc * 16) % TWO64 + HexVal(key[i]);
    }
    WordWidth();
    return acc;
  }

  lemma RoomForADigit(acc: nat, i: nat)
    requires acc < Pow2(4 * i) && i < SEED_DIGITS
    ensures (acc * 16) % TWO64 == acc * 16 && acc * 16 + 15 < Pow2(4 * (i + 1))
  {
    WordWidth();
    Pow2Four(i);
    Pow2Grows(4 * (i + 1), 64);
  }

  lemma {:induction false} Pow2Grows(a: nat, b: nat)
    requires a <= b
    ensures Pow2(a) <= Pow2(b)
    decreases b
  {
    if a < b {
      Pow2Grows(a, b - 1);
    }
  }

  // ---- Preference order ----

  function ByName(): (less: (Member, Member) -> bool) {
    (a: Member, b: Member) => Less(a.name, b.name)
  }

  /** Descending weight, ties broken by name. */
  function Prefer(weight: Member -> Word): (less: (Member, Member) -> bool) {
    (a: Member, b: Member) =>
      weight(a) > weight(b) || (weight(a) == weight(b) && Less(a.name, b.name))
  }

  lemma ByNameStrict()
    ensures StrictOrder(ByName())
  {
    forall x: Member ensures !ByName()(x, x) {
      LessIrreflexive(x.name);
    }
    forall x: Member, y: Member, z: Member | ByName()(x, y) && ByName()(y, z) ensures ByName()(x, z) {
      LessTransitive(x.name, y.name, z.name);
    }
  }

  lemma PreferStrict(weight: Member -> Word)
    ensures StrictOrder(Prefer(weight))
  {
    var less := Prefer(weight);
    forall x: Member ensures !less(x, x) {
      LessIrreflexive(x.name);
    }
    forall x: Member, y: Member, z: Member | less(x, y) && less(y, z) ensures less(x, z) {
      if weight(x) == weight(y) == weight(z) {
        LessTransitive(x.name, y.name, z.name);
      }
    }
  }

  /** Different members have different names. */
  ghost predicate NamesIdentify(ms: set<Member>) {
    forall x, y :: x in ms && y in ms && x.name == y.name ==> x == y
  }

  lemma PreferTotal(weight: Member -> Word, ms: set<Member>)
    requires NamesIdentify(ms)
    ensures TotalOn(Prefer(weight), ms) && TotalOn(ByName(), ms)
  {
    forall x, y | x in ms && y in ms && x != y
      ensures Prefer(weight)(x, y) || Prefer(weight)(y, x)
      ensures ByName()(x, y) || ByName()(y, x)
    {
      LessTotal(x.name, y.name);
    }
  }

  /** Rings as New builds them: members strictly sorted by name. */
  ghost predicate ValidRing(r: Ring) {
    |r.members| > 0 && Sorted(ByName(), r.members)
  }

  lemma ValidRingNames(r: Ring)
    requires ValidRing(r)
    ensures NamesIdentify(Elements(r.members))
    ensures Distinct(r.members)
  {
    ByNameStrict();
    SortedDistinct(ByName(), r.members);
    forall x, y | x in Elements(r.members) && y in Elements(r.members) && x.name == y.name ensures x == y {
      var i :| 0 <= i < |r.members| && r.members[i] == x;
      var j :| 0 <= j < |r.members| && r.members[j] == y;
      LessIrreflexive(x.name);
      assert i < j ==> ByName()(x, y);
      assert j < i ==> ByName()(y, x);
    }
  }

  function MemberWeight(h: Hashes, key: string): (w: Member -> Word) {
    var seed := KeySeed(h, key);
    (m: Member) => Weight(seed, m.seed)
  }

  /** Every member, in preference order for a key. */
  function Owners(h: Hashes, r: Ring, key: string): (out: seq<Member>) {
    Sort(Prefer(MemberWeight(h, key)), r.members)
  }

  /** The preference list is sorted, holds every member once, and nothing else. */
  lemma OwnersAreTheMembers(h: Hashes, r: Ring, key: string)
    requires ValidRing(r)
    ensures Sorted(Prefer(MemberWeight(h, key)), Owners(h, r, key))
    ensures Elements(Owners(h, r, key)) == Elements(r.members)
    ensures |Owners(h, r, key)| == |r.members|
    ensures Distinct(Owners(h, r, key))
    ensures var out, seed := Owners(h, r, key), KeySeed(h, key);
            forall i, j :: 0 <= i < j < |out| ==>
              var v, w := Weight(seed, out[i].seed), Weight(seed, out[j].seed);
              v > w || (v == w && Less(out[i].name, out[j].name))
  {
    var w := MemberWeight(h, key);
    ValidRingNames(r);
    PreferStrict(w);
    PreferTotal(w, Elements(r.members));
    SortSorts(Prefer(w), r.members);
    SortedDistinct(Prefer(w), Owners(h, r, key));
  }

  /** Whatever sorted permutation the library sort returns, it is this one. */
  lemma AnySortIsOwners(h: Hashes, r: Ring, key: string, out: seq<Member>)
    requires ValidRing(r)
    requires Sorted(Prefer(MemberWeight(h, key)), out) && Elements(out) == Elements(r.members)
    ensures out == Owners(h, r, key)
  {
    OwnersAreTheMembers(h, r, key);
    PreferStrict(MemberWeight(h, key));
    SortedUnique(Prefer(MemberWeight(h, key)), out, Owners(h, r, key));
  }

  /** A member with its weight for one key. */
  datatype Scored = Scored(m: Member, w: Word)

  /** The comparison handed to the library sort. */
  predicate Before(a: Scored, b: Scored) {
    if a.w != b.w then a.w > b.w else Less(a.m.name, b.m.name)
  }

  lemma BeforeTransitive(a: Scored, b: Scored, c: Scored)
    requires Before(a, b) && Before(b, c)
    ensures Before(a, c)
  {
    if a.w == b.w == c.w {
      LessTransitive(a.m.name, b.m.name, c.m.name);
    }
  }

  method ScoreMembers(h: Hashes, r: Ring, key: string) returns (scored: seq<Scored>)
    ensures |scored| == |r.members|
    ensures forall i :: 0 <= i < |scored| ==> scored[i] == Scored(r.members[i], MemberWeight(h, key)(r.members[i]))
  {
    var seed := ComputeKeySeed(h, key);
    scored := [];
    for i := 0 to |r.members|
      invariant |scored| == i
      invariant forall j :: 0 <= j < i ==> scored[j] == Scored(r.members[j], MemberWeight(h, key)(r.members[j]))
    {
      XorWord(seed, r.members[i].seed);
      var weight := Mix(Xor(seed, r.members[i].seed));
      scored := scored + [Scored(r.members[i], weight)];
    }
  }

  /** An element none of the others comes before. */
  method First(left: seq<Scored>) returns (k: nat)
    requires |left| > 0
    ensures k < |left| && forall i :: 0 <= i < |left| ==> !Before(left[i], left[k])
  {
    k := 0;
    LessIrreflexive(left[0].m.name);
    for i := 1 to |left|
      invariant k < i && forall j :: 0 <= j < i ==> !Before(left[j], left[k])
    {
      if Before(left[i], left[k]) {
        forall j | 0 <= j < i ensures !Before(left[j], left[i]) {
          if Before(left[j], left[i]) {
            BeforeTransitive(left[j], left[i], left[k]);
          }
        }
        k := i;
        LessIrreflexive(left[i].m.name);
      }
    }
  }

  /** All sort.Slice promises: the same elements, none before one in front of it. */
  ghost predicate SortedBy(s: seq<Scored>) {
    forall i, j :: 0 <= i < j < |s| ==> !Before(s[j], s[i])
  }

  method SortScored(scored: seq<Scored>) returns (out: seq<Scored>)
    ensures SortedBy(out) && multiset(out) == multiset(scored)
  {
    out := [];
    var left := scored;
    while |left| > 0
      invariant SortedBy(out) && multiset(out) + multiset(left) == multiset(scored)
      invariant forall x, y :: x in out && y in left ==> !Before(y, x)
      decreases |left|
    {
      var k := First(left);
      assert left == left[..k] + [left[k]] + left[k + 1..];
      forall y | y in left ensures !Before(y, left[k]) {
        var i :| 0 <= i < |left| && left[i] == y;
      }
      var rest := left[..k] + left[k + 1..];
      assert forall y :: y in rest ==> y in left;
      assert left[k] in left;
      out, left := out + [left[k]], rest;
    }
    assert multiset(left) == multiset{};
  }

  /** Score every member, sort with any sort that keeps that promise, and the result is the one preference list. */
  method ComputeOwners(h: Hashes, r: Ring, key: string) returns (out: seq<Member>)
    requires ValidRing(r)
    ensures out == Owners(h, r, key)
  {
    var scored := ScoreMembers(h, r, key);
    var sorted := SortScored(scored);
    out := seq(|sorted|, i requires 0 <= i < |sorted| => sorted[i].m);
    SortedScoresAreOwners(h, r, key, scored, sorted, out);
  }

  lemma SortedScoresAreOwners(h: Hashes, r: Ring, key: string, scored: seq<Scored>, sorted: seq<Scored>, out: seq<Member>)
    requires ValidRing(r) && |scored| == |r.members|
    requires forall i :: 0 <= i < |scored| ==> scored[i] == Scored(r.members[i], MemberWeight(h, key)(r.members[i]))
    requires SortedBy(sorted) && multiset(sorted) == multiset(scored)
    requires |out| == |sorted| && forall i :: 0 <= i < |out| ==> out[i] == sorted[i].m
    ensures out == Owners(h, r, key)
  {
    var weight := MemberWeight(h, key);
    ValidRingNames(r);
    PreferTotal(weight, Elements(r.members));
    SameScored(r, weight, scored, sorted, out);
    forall i, j | 0 <= i < j < |out| ensures Prefer(weight)(out[i], out[j]) {
      assert out[i] in Elements(r.members) && out[j] in Elements(r.members);
      assert !Before(sorted[j], sorted[i]);
    }
    AnySortIsOwners(h, r, key, out);
  }

  /** A permutation of the scores is a permutation of the members, each with its own weight. */
  lemma SameScored(r: Ring, weight: Member -> Word, scored: seq<Scored>, sorted: seq<Scored>, out: seq<Member>)
    requires Distinct(r.members) && |scored| == |r.members|
    requires forall i :: 0 <= i < |scored| ==> scored[i] == Scored(r.members[i], weight(r.members[i]))
    requires multiset(sorted) == multiset(scored)
    requires |out| == |sorted| && forall i :: 0 <= i < |out| ==> out[i] == sorted[i].m
    ensures forall i :: 0 <= i < |sorted| ==> sorted[i].w == weight(out[i])
    ensures Elements(out) == Elements(r.members) && Distinct(out)
  {
    forall i | 0 <= i < |sorted| ensures sorted[i].w == weight(out[i]) && out[i] in r.members {
      assert sorted[i] in multiset(scored);
      var k :| 0 <= k < |scored| && scored[k] == sorted[i];
    }
    forall m | m in r.members ensures m in out {
      var k :| 0 <= k < |r.members| && r.members[k] == m;
      assert scored[k] in multiset(sorted);
      var i :| 0 <= i < |sorted| && sorted[i] == scored[k];
      assert out[i] == m;
    }
    assert |sorted| == |multiset(sorted)| == |multiset(scored)| == |scored|;
    assert Elements(out) == Elements(r.members);
    DistinctSize(r.members);
    SizeDistinct(out);
  }

  function Clamp(n: int, size: nat): (c: nat) {
    var m := if n < 1 then 1 else n;
    if m > size then size else m
  }

  function Holders(h: Hashes, r: Ring, key: string, n: int): (out: seq<Member>) {
    var owners := Owners(h, r, key);
    owners[..Clamp(n, |owners|)]
  }

  function Names(ms: seq<Member>): (out: seq<string>)
    ensures |out| == |ms|
    ensures forall i :: 0 <= i < |ms| ==> out[i] == ms[i].name
  {
    seq(|ms|, i requires 0 <= i < |ms| => ms[i].name)
  }

  predicate HoldsKey(h: Hashes, r: Ring, name: string, key: string, n: int) {
    name in Names(Holders(h, r, key, n))
  }

  predicate SelfHolds(h: Hashes, r: Ring, key: string, n: int) {
    HoldsKey(h, r, r.self, key, n)
  }

  /** Names in a duplicate-free list of ring members do not repeat either. */
  lemma NamesDistinct(r: Ring, ms: seq<Member>)
    requires ValidRing(r) && Distinct(ms)
    requires Elements(ms) <= Elements(r.members)
    ensures Distinct(Names(ms))
  {
    ValidRingNames(r);
    forall i, j | 0 <= i < j < |ms| ensures Names(ms)[i] != Names(ms)[j] {
      assert ms[i] in Elements(ms) && ms[j] in Elements(ms);
    }
  }

  /** The holders are min(max(n,1), size) different ring members. */
  lemma HoldersAreDistinctMembers(h: Hashes, r: Ring, key: string, n: int)
    requires ValidRing(r)
    ensures |Holders(h, r, key, n)| == Clamp(n, |r.members|) >= 1
    ensures 1 <= n <= |r.members| ==> |Holders(h, r, key, n)| == n
    ensures n < 1 ==> |Holders(h, r, key, n)| == 1
    ensures n > |r.members| ==> |Holders(h, r, key, n)| == |r.members|
    ensures Holders(h, r, key, n) <= Owners(h, r, key)
    ensures Distinct(Holders(h, r, key, n)) && Distinct(Names(Holders(h, r, key, n)))
    ensures Elements(Names(Holders(h, r, key, n))) <= Elements(Names(r.members))
  {
    OwnersAreTheMembers(h, r, key);
    var hs, os := Holders(h, r, key, n), Owners(h, r, key);
    forall x | x in hs ensures x in Elements(r.members) {
      assert x in Elements(os);
    }
    NamesDistinct(r, hs);
    forall name | name in Names(hs) ensures name in Names(r.members) {
      var i :| 0 <= i < |hs| && hs[i].name == name;
      assert hs[i] in Elements(r.members);
      var j :| 0 <= j < |r.members| && r.members[j] == hs[i];
      assert Names(r.members)[j] == name;
    }
  }

  // ---- Adding a member disturbs nothing it does not take over ----

  lemma {:induction false} WithoutAt<T(!new)>(s: seq<T>, p: nat)
    requires Distinct(s) && p < |s|
    ensures Without(s, s[p]) == s[..p] + s[p + 1..]
  {
    if p == 0 {
      WithoutAbsent(s[1..], s[0]);
    } else {
      WithoutAt(s[1..], p - 1);
      assert s[1..][..p - 1] == s[1..p] && s[1..][p..] == s[p + 1..];
      assert s[..p] == [s[0]] + s[1..p];
    }
  }

  lemma {:induction false} WithoutAbsent<T(!new)>(s: seq<T>, x: T)
    requires x !in s
    ensures Without(s, x) == s
  {
    if |s| > 0 {
      WithoutAbsent(s[1..], x);
      assert s == [s[0]] + s[1..];
    }
  }

  /** r2 is r1 with one member more. */
  ghost predicate Grown(r1: Ring, r2: Ring, m: Member) {
    && ValidRing(r1) && ValidRing(r2)
    && m !in Elements(r1.members)
    && Elements(r2.members) == Elements(r1.members) + {m}
  }

  /** Deleting the new member from the new preference list gives back the old one. */
  lemma AddingAMemberKeepsTheOrder(h: Hashes, r1: Ring, r2: Ring, m: Member, key: string)
    requires Grown(r1, r2, m)
    ensures Without(Owners(h, r2, key), m) == Owners(h, r1, key)
  {
    var less := Prefer(MemberWeight(h, key));
    OwnersAreTheMembers(h, r2, key);
    WithoutSorted(less, Owners(h, r2, key), m);
    WithoutElements(Owners(h, r2, key), m);
    AnySortIsOwners(h, r1, key, Without(Owners(h, r2, key), m));
  }

  /** after is before, or m joined and only the tail of before gave way, in order. */
  ghost predicate OneJoined<T(!new)>(before: seq<T>, after: seq<T>, m: T) {
    if m in after
    then 0 < |after| <= |before| + 1 && Without(after, m) == before[..|after| - 1]
    else after == before
  }

  lemma PrefixOneJoined<T(!new)>(o1: seq<T>, o2: seq<T>, m: T, c1: nat, c2: nat)
    requires Distinct(o2) && m in o2 && Without(o2, m) == o1
    requires c2 <= |o2| && c1 == if c2 > |o1| then |o1| else c2
    ensures OneJoined(o1[..c1], o2[..c2], m)
  {
    var p :| 0 <= p < |o2| && o2[p] == m;
    WithoutAt(o2, p);
    if p < c2 {
      PrefixWith(o1, o2, p, c2);
      assert o1[..c1][..c2 - 1] == o1[..c2 - 1];
    } else {
      PrefixWithout(o1, o2, p, c2);
    }
  }

  lemma PrefixWith<T(!new)>(o1: seq<T>, o2: seq<T>, p: nat, c: nat)
    requires Distinct(o2) && p < c <= |o2| && o1 == o2[..p] + o2[p + 1..]
    ensures o2[p] in o2[..c] && Without(o2[..c], o2[p]) == o1[..c - 1]
  {
    assert o2[..c][p] == o2[p];
    WithoutAt(o2[..c], p);
    assert o1[..c - 1] == o2[..c][..p] + o2[..c][p + 1..];
  }

  lemma PrefixWithout<T(!new)>(o1: seq<T>, o2: seq<T>, p: nat, c: nat)
    requires Distinct(o2) && c <= p < |o2| && o1 == o2[..p] + o2[p + 1..]
    ensures o2[p] !in o2[..c] && o1[..c] == o2[..c]
  {
  }

  /**
  A key's holders either stay exactly as they were, or the new member joins them
  and everyone else but possibly the last old holder keeps their place.
  */
  lemma AddingAMemberMovesOneHolder(h: Hashes, r1: Ring, r2: Ring, m: Member, key: string, n: int)
    requires Grown(r1, r2, m)
    ensures OneJoined(Holders(h, r1, key, n), Holders(h, r2, key, n), m)
    ensures |Holders(h, r1, key, n)| <= |Holders(h, r2, key, n)| <= |Holders(h, r1, key, n)| + 1
  {
    OwnersAreTheMembers(h, r2, key);
    AddingAMemberKeepsTheOrder(h, r1, r2, m, key);
    var o1, o2 := Owners(h, r1, key), Owners(h, r2, key);
    assert m in Elements(o2);
    WithoutLength(o2, m);
    PrefixOneJoined(o1, o2, m, Clamp(n, |o1|), Clamp(n, |o2|));
  }

  lemma WithoutLength<T(!new)>(s: seq<T>, m: T)
    requires Distinct(s) && m in s
    ensures |Without(s, m)| == |s| - 1
  {
    var p :| 0 <= p < |s| && s[p] == m;
    WithoutAt(s, p);
  }

  // ---- Building a ring ----

  /** White space as Unicode defines it. */
  predicate Blank(c: char) {
    || c == ' ' || '\t' <= c <= '\r' || c == '\U{85}' || c == '\U{A0}' || c == '\U{1680}' || '\U{2000}' <= c <= '\U{200A}'
    || c == '\U{2028}' || c == '\U{2029}' || c == '\U{202F}' || c == '\U{205F}' || c == '\U{3000}'
  }

  function TrimLeft(s: string): (r: string) {
    if |s| > 0 && Blank(s[0]) then TrimLeft(s[1..]) else s
  }

  function TrimRight(s: string, cut: char -> bool): (r: string) {
    if |s| > 0 && cut(s[|s| - 1]) then TrimRight(s[..|s| - 1], cut) else s
  }

  function TrimSpace(s: string): (r: string) {
    TrimRight(TrimLeft(s), Blank)
  }

  lemma {:induction false} TrimRightTrims(s: string, cut: char -> bool) returns (tail: string)
    ensures s == TrimRight(s, cut) + tail && forall c :: c in tail ==> cut(c)
    ensures var r := TrimRight(s, cut); r != "" ==> !cut(r[|r| - 1])
  {
    tail := "";
    if |s| > 0 && cut(s[|s| - 1]) {
      tail := TrimRightTrims(s[..|s| - 1], cut);
      tail := tail + [s[|s| - 1]];
    }
  }

  lemma {:induction false} TrimLeftTrims(s: string) returns (head: string)
    ensures s == head + TrimLeft(s) && AllBlank(head)
    ensures TrimLeft(s) != "" ==> !Blank(TrimLeft(s)[0])
  {
    head := "";
    if |s| > 0 && Blank(s[0]) {
      head := TrimLeftTrims(s[1..]);
      head := [s[0]] + head;
    }
  }

  /** A member is its peer with white space dropped around the name and slashes dropped after the URL, and nothing else. */
  lemma MembersAreTrimmed(h: Hashes, p: Peer) returns (head: string, tail: string, slashes: string)
    ensures var m := MemberOf(h, p);
            && p.name == head + m.name + tail && AllBlank(head) && AllBlank(tail)
            && (m.name != "" ==> !Blank(m.name[0]) && !Blank(m.name[|m.name| - 1]))
            && p.url == m.url + slashes && (forall c :: c in slashes ==> c == '/')
            && (m.url != "" ==> m.url[|m.url| - 1] != '/')
            && m.seed == h.member(m.name)
  {
    head, tail := TrimSpaceTrims(p.name);
    slashes := TrimRightTrims(p.url, c => c == '/');
  }

  lemma TrimSpaceTrims(s: string) returns (head: string, tail: string)
    ensures s == head + TrimSpace(s) + tail && AllBlank(head) && AllBlank(tail)
    ensures TrimSpace(s) != "" ==> !Blank(TrimSpace(s)[0]) && !Blank(TrimSpace(s)[|TrimSpace(s)| - 1])
  {
    head := TrimLeftTrims(s);
    tail := TrimRightTrims(TrimLeft(s), Blank);
    var r := TrimSpace(s);
    if r != "" {
      assert r[0] == TrimLeft(s)[0];
    }
  }

  predicate AllBlank(s: string) {
    forall c :: c in s ==> Blank(c)
  }

  function MemberOf(h: Hashes, p: Peer): (m: Member) {
    var name := TrimSpace(p.name);
    Member(name, TrimRight(p.url, c => c == '/'), h.member(name))
  }

  function MembersOf(h: Hashes, peers: seq<Peer>): (ms: seq<Member>)
    ensures |ms| == |peers|
    ensures forall i :: 0 <= i < |peers| ==> ms[i] == MemberOf(h, peers[i])
  {
    seq(|peers|, i requires 0 <= i < |peers| => MemberOf(h, peers[i]))
  }

  /** What New demands of a peer list. */
  ghost predicate Acceptable(h: Hashes, peers: seq<Peer>, self: string) {
    var names := Names(MembersOf(h, peers));
    && |peers| > 0
    && "" !in names
    && Distinct(names)
    && (self != "" ==> self in names)
  }

  /** The rule an error says was broken really was. */
  ghost predicate Faulty(names: seq<string>, self: string, e: RingError) {
    match e
    case EmptyMembership => names == []
    case EmptyName => "" in names
    case DuplicateMember => !Distinct(names)
    case SelfNotMember => "" !in names && Distinct(names) && self != "" && self !in names
  }

  /** New succeeds exactly on acceptable lists, with every peer as a member, sorted by name. */
  method New(h: Hashes, peers: seq<Peer>, self: string) returns (result: NewResult)
    ensures result.Built? <==> Acceptable(h, peers, self)
    ensures result.Built? ==>
              && ValidRing(result.ring) && result.ring.self == self
              && Elements(result.ring.members) == Elements(MembersOf(h, peers))
              && result.ring == RingOf(h, peers, self)
    ensures result.Rejected? ==> Faulty(Names(MembersOf(h, peers)), self, result.error)
  {
    if |peers| == 0 {
      return Rejected(EmptyMembership);
    }
    var all := MembersOf(h, peers);
    var members: seq<Member> := [];
    var seen: set<string> := {};
    for i := 0 to |peers|
      invariant members == all[..i]
      invariant "" !in Names(members) && Distinct(Names(members))
      invariant seen == Elements(Names(members))
    {
      var name := TrimSpace(peers[i].name);
      assert name == Names(all)[i];
      if name == "" {
        return Rejected(EmptyName);
      }
      if name in seen {
        assert name in Names(members);
        var j :| 0 <= j < i && Names(members)[j] == name;
        assert Names(all)[j] == Names(all)[i];
        return Rejected(DuplicateMember);
      }
      seen := seen + {name};
      assert Names(members + [MemberOf(h, peers[i])]) == Names(members) + [name];
      members := members + [MemberOf(h, peers[i])];
    }
    assert members == all;
    if self != "" && self !in seen {
      return Rejected(SelfNotMember);
    }
    SortByName(all);
    result := Built(Ring(Sort(ByName(), members), self));
  }

  function RingOf(h: Hashes, peers: seq<Peer>, self: string): (r: Ring) {
    Ring(Sort(ByName(), MembersOf(h, peers)), self)
  }

  lemma SortByName(ms: seq<Member>)
    requires Distinct(Names(ms))
    ensures Sorted(ByName(), Sort(ByName(), ms))
    ensures Elements(Sort(ByName(), ms)) == Elements(ms)
    ensures |Sort(ByName(), ms)| == |ms|
  {
    ByNameStrict();
    forall i, j | 0 <= i < j < |ms| ensures ms[i] != ms[j] {
      assert Names(ms)[i] != Names(ms)[j];
    }
    forall x, y | x in Elements(ms) && y in Elements(ms) && x.name == y.name ensures x == y {
      var i :| 0 <= i < |ms| && ms[i] == x;
      var j :| 0 <= j < |ms| && ms[j] == y;
      assert Names(ms)[i] == Names(ms)[j];
    }
    PreferTotal(_ => 0, Elements(ms));
    SortSorts(ByName(), ms);
  }

  lemma {:induction false} SizeDistinct<T(!new)>(s: seq<T>)
    ensures |Elements(s)| <= |s|
    ensures |Elements(s)| == |s| ==> Distinct(s)
  {
    if |s| > 0 {
      var front, last := s[..|s| - 1], s[|s| - 1];
      assert s == front + [last];
      SizeDistinct(front);
      assert Elements(s) == Elements(front) + {last};
      if last in front {
        assert Elements(s) == Elements(front);
      }
    }
  }

  lemma PermutedElements(h: Hashes, p: seq<Peer>, q: seq<Peer>)
    requires multiset(p) == multiset(q)
    ensures |p| == |q|
    ensures Elements(MembersOf(h, p)) <= Elements(MembersOf(h, q))
    ensures Elements(Names(MembersOf(h, p))) <= Elements(Names(MembersOf(h, q)))
  {
    assert |p| == |multiset(p)| && |q| == |multiset(q)|;
    forall x | x in Elements(MembersOf(h, p))
      ensures x in Elements(MembersOf(h, q)) && x.name in Elements(Names(MembersOf(h, q)))
    {
      var i :| 0 <= i < |p| && MembersOf(h, p)[i] == x;
      assert p[i] in multiset(p);
      assert p[i] in q;
      var j :| 0 <= j < |q| && q[j] == p[i];
      assert MembersOf(h, q)[j] == x && Names(MembersOf(h, q))[j] == x.name;
    }
    forall name | name in Elements(Names(MembersOf(h, p))) ensures name in Elements(Names(MembersOf(h, q))) {
      var i :| 0 <= i < |p| && Names(MembersOf(h, p))[i] == name;
      assert MembersOf(h, p)[i] in Elements(MembersOf(h, p));
    }
  }

  /** Reordering the peer list changes neither acceptance nor the ring, hence no placement at all. */
  lemma PeerOrderIsIrrelevant(h: Hashes, p: seq<Peer>, q: seq<Peer>, self: string)
    requires multiset(p) == multiset(q)
    ensures Acceptable(h, p, self) <==> Acceptable(h, q, self)
    ensures Acceptable(h, p, self) ==> RingOf(h, p, self) == RingOf(h, q, self)
  {
    PermutedElements(h, p, q);
    PermutedElements(h, q, p);
    var np, nq := Names(MembersOf(h, p)), Names(MembersOf(h, q));
    assert Elements(np) == Elements(nq);
    assert forall name :: (name in np <==> name in Elements(np)) && (name in nq <==> name in Elements(nq));
    if Distinct(np) || Distinct(nq) {
      if Distinct(np) {
        DistinctSize(np);
      } else {
        DistinctSize(nq);
      }
      SizeDistinct(np);
      SizeDistinct(nq);
    }
    if Acceptable(h, p, self) {
      SortByName(MembersOf(h, p));
      SortByName(MembersOf(h, q));
      ByNameStrict();
      SortedUnique(ByName(), Sort(ByName(), MembersOf(h, p)), Sort(ByName(), MembersOf(h, q)));
    }
  }
}
