/**
Unsigned 64-bit words as naturals below 2^64, with wrap-around written out:
the arithmetic that placement (internal/cluster/ring.go) is built from.
*/
module Words {

  const TWO64: nat := 0x1_0000_0000_0000_0000

  type Word = x: nat | x < TWO64

  function Shr(a: nat, k: nat): (r: nat)
    ensures r <= a
  {
    if k == 0 then a else Shr(a / 2, k - 1)
  }

  function Xor(a: nat, b: nat): (r: nat) {
    if a == 0 && b == 0 then 0 else 2 * Xor(a / 2, b / 2) + (a + b) % 2
  }

  function Pow2(n: nat): (r: nat)
    ensures r > 0
  {
    if n == 0 then 1 else 2 * Pow2(n - 1)
  }

  // ---- Exclusive or is a commutative group in which every word is its own inverse ----

  lemma {:induction false} XorBound(a: nat, b: nat, n: nat)
    requires a < Pow2(n) && b < Pow2(n)
    ensures Xor(a, b) < Pow2(n)
  {
    if n > 0 && (a > 0 || b > 0) {
      XorBound(a / 2, b / 2, n - 1);
    }
  }

  lemma WordWidth()
    ensures Pow2(64) == TWO64
  {
    assert Pow2(10) == 0x400;
    assert Pow2(20) == 0x10_0000;
    assert Pow2(30) == 0x4000_0000;
    assert Pow2(40) == 0x100_0000_0000;
    assert Pow2(50) == 0x4_0000_0000_0000;
    assert Pow2(60) == 0x1000_0000_0000_0000;
  }

  lemma XorWord(a: Word, b: Word)
    ensures Xor(a, b) < TWO64
  {
    WordWidth();
    XorBound(a, b, 64);
  }

  lemma {:induction false} XorSelf(a: nat)
    ensures Xor(a, a) == 0
  {
    if a > 0 {
      XorSelf(a / 2);
    }
  }

  lemma {:induction false} XorZero(a: nat)
    ensures Xor(a, 0) == a && Xor(0, a) == a
  {
    if a > 0 {
      XorZero(a / 2);
    }
  }

  lemma {:induction false} XorAssociative(a: nat, b: nat, c: nat)
    ensures Xor(Xor(a, b), c) == Xor(a, Xor(b, c))
  {
    if a > 0 || b > 0 || c > 0 {
      XorAssociative(a / 2, b / 2, c / 2);
      XorDigits(a, b);
      XorDigits(b, c);
      XorHalves(Xor(a, b), c, Xor(a / 2, b / 2), c / 2);
      XorHalves(a, Xor(b, c), a / 2, Xor(b / 2, c / 2));
      SumParity(Xor(a, b), Xor(b, c), a, b, c);
    }
  }

  lemma XorHalves(x: nat, y: nat, i: nat, j: nat)
    requires x / 2 == i && y / 2 == j
    ensures Xor(x, y) == 2 * Xor(i, j) + (x + y) % 2
  {
    XorDigits(x, y);
  }

  lemma XorDigits(a: nat, b: nat)
    ensures Xor(a, b) / 2 == Xor(a / 2, b / 2)
    ensures Xor(a, b) % 2 == (a + b) % 2
    ensures Xor(a, b) == 2 * Xor(a / 2, b / 2) + (a + b) % 2
  {
  }

  lemma SumParity(x: nat, y: nat, a: nat, b: nat, c: nat)
    requires x % 2 == (a + b) % 2 && y % 2 == (b + c) % 2
    ensures (x + c) % 2 == (a + y) % 2
  {
  }

  lemma XorCancel(a: nat, b: nat)
    ensures Xor(Xor(a, b), b) == a
    ensures Xor(a, Xor(a, b)) == b
  {
    XorAssociative(a, b, b);
    XorAssociative(a, a, b);
    XorSelf(a);
    XorSelf(b);
    XorZero(a);
    XorZero(b);
  }

  // ---- Shifting distributes over exclusive or ----

  lemma {:induction false} ShrXor(a: nat, b: nat, k: nat)
    ensures Shr(Xor(a, b), k) == Xor(Shr(a, k), Shr(b, k))
  {
    if k > 0 {
      XorDigits(a, b);
      ShrXor(a / 2, b / 2, k - 1);
    }
  }

  lemma {:induction false} ShrShr(a: nat, j: nat, k: nat)
    ensures Shr(Shr(a, j), k) == Shr(a, j + k)
  {
    if j > 0 {
      ShrShr(a / 2, j - 1, k);
    }
  }

  lemma {:induction false} ShrOut(a: nat, k: nat)
    requires a < Pow2(k)
    ensures Shr(a, k) == 0
  {
    if k > 0 {
      ShrOut(a / 2, k - 1);
    }
  }

  /** Shifting right by k is dividing by 2^k and rounding down. */
  lemma {:induction false} ShrDivides(a: nat, k: nat)
    ensures Shr(a, k) * Pow2(k) <= a < (Shr(a, k) + 1) * Pow2(k)
  {
    if k > 0 {
      ShrDivides(a / 2, k - 1);
      HalfWay(Shr(a / 2, k - 1), Pow2(k - 1), a);
    }
  }

  lemma HalfWay(q: nat, p: nat, a: nat)
    requires q * p <= a / 2 < (q + 1) * p
    ensures q * (2 * p) <= a < (q + 1) * (2 * p)
  {
    var x, y := q * p, (q + 1) * p;
    assert q * (2 * p) == 2 * x;
    assert (q + 1) * (2 * p) == 2 * y;
  }

  lemma ShrAway(a: Word, k: nat)
    requires k >= 64
    ensures Shr(a, k) == 0
  {
    WordWidth();
    ShrOut(a, 64);
    ShrShr(a, 64, k - 64);
    ShrOut(0, k - 64);
  }

  // ---- x ^= x >> n has an inverse ----

  function XorShift(x: Word, n: nat): (r: Word) {
    XorWord(x, Shr(x, n));
    Xor(x, Shr(x, n))
  }

  function UnXorShift(y: Word, n: nat): (r: Word) {
    XorWord(y, Shr(y, n));
    XorWord(Xor(y, Shr(y, n)), Shr(y, 2 * n));
    Xor(Xor(y, Shr(y, n)), Shr(y, 2 * n))
  }

  lemma XorShiftInverse(x: Word, n: nat)
    requires 3 * n >= 64
    ensures UnXorShift(XorShift(x, n), n) == x
    ensures XorShift(UnXorShift(x, n), n) == x
  {
    var s, t := Shr(x, n), Shr(x, 2 * n);
    ShiftedBack(x, n);
    Unravels(x, s, t);
  }

  /** How x ^ (x >> n), and that ^ (x >> 2n), look shifted, when 3n is the whole word. */
  lemma ShiftedBack(x: Word, n: nat)
    requires 3 * n >= 64
    ensures var s, t := Shr(x, n), Shr(x, 2 * n);
            && Shr(Xor(x, s), n) == Xor(s, t) && Shr(Xor(x, s), 2 * n) == t
            && Shr(Xor(Xor(x, s), t), n) == Xor(s, t)
  {
    var s, t := Shr(x, n), Shr(x, 2 * n);
    ShiftsRunOut(x, n);
    ShrXor(x, s, n);
    ShrXor(x, s, 2 * n);
    ShrXor(Xor(x, s), t, n);
    XorZero(t);
    XorZero(Xor(s, t));
  }

  lemma ShiftsRunOut(x: Word, n: nat)
    requires 3 * n >= 64
    ensures Shr(Shr(x, n), n) == Shr(x, 2 * n) && Shr(Shr(x, n), 2 * n) == 0 && Shr(Shr(x, 2 * n), n) == 0
  {
    var m, all := 2 * n, 3 * n;
    ShrAway(x, all);
    ShrSum(x, n, n, m);
    ShrSum(x, n, m, all);
    ShrSum(x, m, n, all);
  }

  lemma ShrSum(x: nat, j: nat, k: nat, sum: nat)
    requires sum == j + k
    ensures Shr(Shr(x, j), k) == Shr(x, sum)
  {
    ShrShr(x, j, k);
  }

  lemma Unravels(x: nat, s: nat, t: nat)
    ensures Xor(Xor(Xor(x, s), Xor(s, t)), t) == x
    ensures Xor(Xor(Xor(x, s), t), Xor(s, t)) == x
  {
    XorAssociative(x, s, Xor(s, t));
    XorCancel(s, t);
    XorCancel(x, t);
    XorAssociative(x, s, t);
    XorCancel(x, Xor(s, t));
  }

  // ---- Multiplication by an odd constant has an inverse ----

  function MulWord(x: Word, c: nat): (r: Word) {
    (x * c) % TWO64
  }

  lemma ModUnique(a: int, q: int, r: int, m: int)
    requires 0 <= r < m && a == q * m + r
    ensures a % m == r
  {
    var p := a / m;
    assert a == p * m + a % m;
    assert a % m - r == (q - p) * m;
    if q > p {
      assert (q - p) * m == m + (q - p - 1) * m;
      MulNonNegative(q - p - 1, m);
    } else if q < p {
      assert (p - q) * m == m + (p - q - 1) * m;
      MulNonNegative(p - q - 1, m);
    }
  }

  lemma MulNonNegative(a: int, b: int)
    requires a >= 0 && b >= 0
    ensures a * b >= 0
  {
  }

  lemma MulInverse(x: Word, c: nat, d: nat, k: nat)
    requires c * d == 1 + k * TWO64
    ensures MulWord(MulWord(x, c), d) == x
  {
    var q, y := (x * c) / TWO64, (x * c) % TWO64;
    calc {
      y * d;
      (x * c - q * TWO64) * d;
      x * (c * d) - q * TWO64 * d;
      x * (1 + k * TWO64) - q * TWO64 * d;
      (x * k - q * d) * TWO64 + x;
    }
    ModUnique(y * d, x * k - q * d, x, TWO64);
  }
}
