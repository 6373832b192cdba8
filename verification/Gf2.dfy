/** Polynomials over the field of two elements, written as numbers: bit k is the
    coefficient of the k-th power.  Adding is exclusive or. */
module Gf2 {

  /** a times the k-th power. */
  function Up(a: nat, k: nat): (r: nat)
    ensures r >= a
  {
    if k == 0 then a else 2 * Up(a, k - 1)
  }

  function Pow2(k: nat): nat {
    Up(1, k)
  }

  function Xor(a: nat, b: nat): nat {
    if a == 0 && b == 0 then 0 else Xor(a / 2, b / 2) * 2 + (a + b) % 2
  }

  /** The product. */
  function Times(q: nat, g: nat): nat {
    if q == 0 then 0 else Xor(2 * Times(q / 2, g), if q % 2 == 1 then g else 0)
  }

  // ---------------------------------------------------------------------
  // Sums
  // ---------------------------------------------------------------------

  lemma XorNext(a: nat, b: nat, x: nat, y: nat)
    requires x < 2 && y < 2
    ensures Xor(2 * a + x, 2 * b + y) == 2 * Xor(a, b) + (x + y) % 2
  {
    assert (2 * a + x) / 2 == a && (2 * b + y) / 2 == b;
  }

  lemma {:induction false} XorZero(a: nat)
    ensures Xor(a, 0) == a == Xor(0, a)
  {
    if a > 0 {
      XorZero(a / 2);
    }
  }

  lemma {:induction false} XorSelf(a: nat)
    ensures Xor(a, a) == 0
  {
    if a > 0 {
      XorSelf(a / 2);
    }
  }

  lemma {:induction false} XorCommutes(a: nat, b: nat)
    ensures Xor(a, b) == Xor(b, a)
  {
    if a > 0 || b > 0 {
      XorCommutes(a / 2, b / 2);
    }
  }

  lemma {:induction false} XorAssociates(a: nat, b: nat, c: nat)
    ensures Xor(Xor(a, b), c) == Xor(a, Xor(b, c))
    decreases a + b + c
  {
    if a + b + c > 0 {
      XorAssociates(a / 2, b / 2, c / 2);
      var l, r := Xor(Xor(a, b), c), Xor(a, Xor(b, c));
      assert l / 2 == r / 2 by {
        Halves(a, b);
        Halves(b, c);
        Halves(Xor(a, b), c);
        Halves(a, Xor(b, c));
      }
      LowBits(a, b, c);
    }
  }

  lemma LowBits(a: nat, b: nat, c: nat)
    ensures Xor(Xor(a, b), c) % 2 == Xor(a, Xor(b, c)) % 2
  {
    LowBit(Xor(a, b), c);
    LowBit(a, Xor(b, c));
    LowBit(a, b);
    LowBit(b, c);
    SameParity(a, b, c, Xor(a, b), Xor(b, c));
  }

  lemma LowBit(a: nat, b: nat)
    ensures Xor(a, b) % 2 == (a + b) % 2
  {
  }

  lemma SameParity(a: nat, b: nat, c: nat, ab: nat, bc: nat)
    requires ab % 2 == (a + b) % 2 && bc % 2 == (b + c) % 2
    ensures (ab + c) % 2 == (a + bc) % 2
  {
  }

  lemma Halves(a: nat, b: nat)
    ensures Xor(a, b) / 2 == Xor(a / 2, b / 2) && Xor(a, b) % 2 == (a + b) % 2
  {
  }

  /** (a + c) + (b + c) == a + b. */
  lemma XorCancels(a: nat, b: nat, c: nat)
    ensures Xor(Xor(a, c), Xor(b, c)) == Xor(a, b)
  {
    XorCommutes(b, c);
    XorAssociates(a, c, Xor(c, b));
    XorAssociates(c, c, b);
    XorSelf(c);
    XorZero(b);
  }

  /** The middle of two sums drops out. */
  lemma XorChain(a: nat, b: nat, c: nat)
    ensures Xor(Xor(a, b), Xor(b, c)) == Xor(a, c)
  {
    XorCommutes(b, c);
    XorCancels(a, c, b);
  }

  lemma XorMoves(a: nat, b: nat, c: nat)
    ensures Xor(a, b) == c <==> a == Xor(c, b)
  {
    XorAssociates(a, b, b);
    XorAssociates(c, b, b);
    XorSelf(b);
    XorZero(a);
    XorZero(c);
  }

  lemma {:induction false} XorBound(a: nat, b: nat, k: nat)
    requires a < Pow2(k) && b < Pow2(k)
    ensures Xor(a, b) < Pow2(k)
  {
    if k > 0 {
      XorBound(a / 2, b / 2, k - 1);
      Halves(a, b);
    }
  }

  /** The high parts and the low parts are added apart. */
  lemma {:induction false} XorParts(a: nat, b: nat, x: nat, y: nat, k: nat)
    requires x < Pow2(k) && y < Pow2(k)
    ensures Xor(Up(a, k) + x, Up(b, k) + y) == Up(Xor(a, b), k) + Xor(x, y)
  {
    if k == 0 {
      XorZero(0);
    } else {
      XorParts(a, b, x / 2, y / 2, k - 1);
      NextPart(Up(a, k - 1), Up(b, k - 1), Up(Xor(a, b), k - 1), x, y);
    }
  }

  lemma NextPart(u: nat, v: nat, w: nat, x: nat, y: nat)
    requires Xor(u + x / 2, v + y / 2) == w + Xor(x / 2, y / 2)
    ensures Xor(2 * u + x, 2 * v + y) == 2 * w + Xor(x, y)
  {
    OneMoreBit(u + x / 2, v + y / 2, x, y);
    Split(u, x);
    Split(v, y);
    Split(w, Xor(x, y));
  }

  lemma Split(u: nat, x: nat)
    ensures 2 * u + x == 2 * (u + x / 2) + x % 2
  {
  }

  lemma OneMoreBit(a: nat, b: nat, x: nat, y: nat)
    ensures Xor(2 * a + x % 2, 2 * b + y % 2) == 2 * Xor(a, b) + Xor(x, y) % 2
    ensures Xor(x, y) / 2 == Xor(x / 2, y / 2)
  {
    XorNext(a, b, x % 2, y % 2);
    Halves(x, y);
    ParityOfSum(x, y);
  }

  lemma ParityOfSum(x: nat, y: nat)
    ensures (x % 2 + y % 2) % 2 == (x + y) % 2
  {
  }

  lemma {:induction false} UpNothing(k: nat)
    ensures Up(0, k) == 0
  {
    if k > 0 {
      UpNothing(k - 1);
    }
  }

  lemma {:induction false} UpAgain(a: nat, i: nat, j: nat)
    ensures Up(a, i + j) == Up(Up(a, i), j)
  {
    if j > 0 {
      UpAgain(a, i, j - 1);
    }
  }

  /** What happens above the low n coefficients. */
  lemma TopAdded(y: nat, p: nat, n: nat)
    requires y < Pow2(n) && p < Pow2(n)
    ensures Xor(Pow2(n) + y, p) == Pow2(n) + Xor(y, p) && Xor(y, p) < Pow2(n)
    ensures Xor(Xor(y, p), Pow2(n) + y) == Pow2(n) + p
  {
    UpNothing(n);
    XorZero(1);
    XorBound(y, p, n);
    XorParts(1, 0, y, p, n);
    XorParts(0, 1, Xor(y, p), y, n);
    XorCommutes(y, p);
    XorMoves(p, y, Xor(y, p));
  }

  /** The highest coefficient falls out of a sum with something shorter. */
  lemma TopOff(c: nat, p: nat, w: nat, n: nat)
    requires w == Pow2(n) && w <= c < 2 * w && p < w
    ensures Xor(c, p) == w + Xor(c - w, p) && Xor(c - w, p) < w && Xor(Xor(c - w, p), c) == w + p
  {
    TopAdded(c - w, p, n);
  }

  // ---------------------------------------------------------------------
  // Products
  // ---------------------------------------------------------------------

  lemma TimesOne(g: nat)
    ensures Times(1, g) == g
  {
    XorZero(g);
    assert Times(0, g) == 0;
  }

  lemma TimesTwice(q: nat, g: nat)
    ensures Times(2 * q, g) == 2 * Times(q, g)
  {
    XorZero(2 * Times(q, g));
  }

  lemma XorTwice(a: nat, b: nat)
    ensures Xor(2 * a, 2 * b) == 2 * Xor(a, b)
  {
    XorNext(a, b, 0, 0);
  }

  /** (a + x) + (b + y) == (a + b) + (x + y). */
  lemma XorPairs(a: nat, x: nat, b: nat, y: nat)
    ensures Xor(Xor(a, x), Xor(b, y)) == Xor(Xor(a, b), Xor(x, y))
  {
    XorAssociates(a, x, Xor(b, y));
    XorAssociates(x, b, y);
    XorCommutes(x, b);
    XorAssociates(b, x, y);
    XorAssociates(a, b, Xor(x, y));
  }

  lemma {:induction false} TimesSum(p: nat, q: nat, g: nat)
    ensures Times(Xor(p, q), g) == Xor(Times(p, g), Times(q, g))
  {
    if p == 0 || q == 0 {
      XorZero(p);
      XorZero(q);
      XorZero(Times(p, g));
      XorZero(Times(q, g));
    } else {
      var a, b := Times(p / 2, g), Times(q / 2, g);
      var x, y := if p % 2 == 1 then g else 0, if q % 2 == 1 then g else 0;
      TimesSum(p / 2, q / 2, g);
      Halves(p, q);
      TimesParts(Xor(p, q), g);
      XorTwice(a, b);
      Lowest(p, q, g);
      XorPairs(2 * a, x, 2 * b, y);
    }
  }

  lemma Lowest(p: nat, q: nat, g: nat)
    ensures Xor(if p % 2 == 1 then g else 0, if q % 2 == 1 then g else 0) == if (p + q) % 2 == 1 then g else 0
  {
    XorZero(g);
    XorSelf(g);
    XorZero(0);
  }

  lemma TimesParts(q: nat, g: nat)
    ensures Times(q, g) == Xor(2 * Times(q / 2, g), if q % 2 == 1 then g else 0)
  {
    if q == 0 {
      XorZero(0);
    }
  }

  /** A product is no shorter than its longer factor. */
  lemma {:induction false} TimesIsLong(q: nat, g: nat, k: nat, n: nat)
    requires Pow2(k) <= q < Pow2(k + 1) && Pow2(n) <= g < Pow2(n + 1)
    ensures Pow2(k + n) <= Times(q, g) < Pow2(k + n + 1)
  {
    if k == 0 {
      assert q == 1;
      TimesOne(g);
    } else {
      TimesIsLong(q / 2, g, k - 1, n);
      var m, a, b := k + n, 2 * Times(q / 2, g), if q % 2 == 1 then g else 0;
      LongerPow(n + 1, m);
      TopStays(a, b, m);
    }
  }

  lemma TopStays(a: nat, b: nat, m: nat)
    requires Pow2(m) <= a < Pow2(m + 1) && b < Pow2(m)
    ensures Pow2(m) <= Xor(a, b) < Pow2(m + 1)
  {
    var x := a - Pow2(m);
    XorParts(1, 0, x, b, m);
    XorBound(x, b, m);
    XorZero(1);
    UpNothing(m);
  }

  lemma {:induction false} LongerPow(a: nat, b: nat)
    requires a <= b
    ensures Pow2(a) <= Pow2(b)
  {
    if a < b {
      LongerPow(a, b - 1);
    }
  }

  lemma {:induction false} SomeLength(q: nat) returns (k: nat)
    requires q > 0
    ensures Pow2(k) <= q < Pow2(k + 1)
  {
    if q == 1 {
      k := 0;
    } else {
      var j := SomeLength(q / 2);
      k := j + 1;
    }
  }

  // ---------------------------------------------------------------------
  // Remainders
  // ---------------------------------------------------------------------

  /** v leaves r when divided by g, which has degree n. */
  ghost predicate Leaves(v: nat, g: nat, n: nat, r: nat) {
    r < Pow2(n) && exists q: nat :: v == Xor(Times(q, g), r)
  }

  /** There is but one remainder. */
  lemma RemainderIsUnique(v: nat, g: nat, n: nat, r: nat, r': nat)
    requires Pow2(n) <= g < Pow2(n + 1) && Leaves(v, g, n, r) && Leaves(v, g, n, r')
    ensures r == r'
  {
    var q: nat :| v == Xor(Times(q, g), r);
    var q': nat :| v == Xor(Times(q', g), r');
    XorMoves(Times(q, g), r, v);
    XorMoves(Times(q', g), r', v);
    XorCommutes(v, r);
    XorCommutes(v, r');
    XorCommutes(v, r');
    XorCancels(r, r', v);
    TimesSum(q, q', g);
    var p := Xor(q, q');
    assert Times(p, g) == Xor(r, r');
    XorBound(r, r', n);
    if p > 0 {
      var k := SomeLength(p);
      TimesIsLong(p, g, k, n);
      LongerPow(n, k + n);
      assert false;
    }
    XorMoves(r, r', 0);
    XorZero(r');
  }

  /** The same remainder. */
  ghost predicate Alike(a: nat, b: nat, g: nat) {
    exists q: nat :: Xor(a, b) == Times(q, g)
  }

  lemma AlikeTwice(a: nat, b: nat, g: nat)
    requires Alike(a, b, g)
    ensures Alike(2 * a, 2 * b, g)
  {
    var q: nat :| Xor(a, b) == Times(q, g);
    TimesTwice(q, g);
    XorTwice(a, b);
    assert Xor(2 * a, 2 * b) == Times(2 * q, g);
  }

  lemma AlikeOn(a: nat, b: nat, c: nat, g: nat)
    requires Alike(a, b, g) && Alike(b, c, g)
    ensures Alike(a, c, g)
  {
    var q: nat :| Xor(a, b) == Times(q, g);
    var q': nat :| Xor(b, c) == Times(q', g);
    TimesSum(q, q', g);
    XorChain(a, b, c);
    assert Xor(a, c) == Times(Xor(q, q'), g);
  }

  lemma AlikePlus(a: nat, b: nat, c: nat, g: nat)
    requires Alike(a, b, g)
    ensures Alike(Xor(a, c), Xor(b, c), g)
  {
    XorCancels(a, b, c);
  }

  lemma AlikeLeaves(v: nat, r: nat, g: nat, n: nat)
    requires Alike(r, v, g) && r < Pow2(n)
    ensures Leaves(v, g, n, r)
  {
    var q: nat :| Xor(r, v) == Times(q, g);
    XorCommutes(r, v);
    XorMoves(v, r, Times(q, g));
  }
}
