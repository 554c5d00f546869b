/** What multiplying a number in place by itself computes, when the columns of the product
    are written over the limbs that later columns read. */
module SelfProduct {
  import opened Arith
  import opened JsNumber
  import opened Limbs

  /** What limbs 1 .. n-1 of a contribute to a result r of m columns and a carry: each limb
      meets the limbs of r itself, as far as the columns reach. */
  ghost function Reread(a: seq<int>, n: nat, m: nat, r: int): int
    requires n <= m + 1
  {
    if n <= 1 then 0 else Reread(a, n - 1, m, r) + At(a, n - 1) * P(n - 1) * (r % P(m - (n - 1)))
  }

  lemma {:induction false} RereadSame(a: seq<int>, a': seq<int>, n: nat, m: nat, r: int, r': int)
    requires n <= m + 1 && r % P(m) == r' % P(m)
    requires forall i: nat :: i < n ==> At(a, i) == At(a', i)
    ensures Reread(a, n, m, r) == Reread(a', n, m, r')
  {
    hide P, At;
    if n > 1 {
      RereadSame(a, a', n - 1, m, r, r');
      var j := m - (n - 1);
      var q := LowerRemainder(r, m, j);
      var q' := LowerRemainder(r', m, j);
      ModAddMultiple(r % P(j), q, P(j));
      ModAddMultiple(r' % P(j), q', P(j));
      ModTwice(r, P(j));
      ModTwice(r', P(j));
    }
  }

  // ----- divisibility by powers of two -----

  lemma {:induction false} OddPart(z: int) returns (s: nat, o: int)
    requires z > 0
    ensures z == PowerOfTwo(s) * o && o % 2 == 1
    decreases z
  {
    if z % 2 == 1 {
      s, o := 0, z;
    } else {
      s, o := OddPart(z / 2);
      MulAssoc(2, PowerOfTwo(s), o);
      s := s + 1;
    }
  }

  /** An odd factor does not help to be divisible by a power of two. */
  lemma {:induction false} OddCancel(k: nat, o: int, z: int)
    requires o % 2 == 1 && (o * z) % PowerOfTwo(k) == 0
    ensures z % PowerOfTwo(k) == 0
  {
    if k != 0 {
      var t := PowerOfTwo(k - 1);
      assert PowerOfTwo(k) == 2 * t;
      DivMod(o * z, 2 * t);
      var q := (o * z) / (2 * t);
      MulAssoc(q, 2, t);
      MulComm(q, 2);
      MulAssoc(2, q, t);
      ModMulBoth(o, z, 2);
      assert z % 2 == 0;
      var h := z / 2;
      MulAssoc(o, 2, h);
      MulComm(o, 2);
      MulAssoc(2, o, h);
      assert o * h == q * t;
      DivExact(q, t);
      OddCancel(k - 1, o, h);
      DoubledDivides(h, t);
    }
  }

  lemma DoubledDivides(h: int, t: int)
    requires 0 < t && h % t == 0
    ensures (2 * h) % (2 * t) == 0
  {
    DivMod(h, t);
    MulAssoc(2, h / t, t);
    MulComm(2, h / t);
    MulAssoc(h / t, 2, t);
    DivExact(h / t, 2 * t);
  }

  lemma PowerSplit(s: nat, t: nat)
    requires s <= t
    ensures PowerOfTwo(t) == PowerOfTwo(t - s) * PowerOfTwo(s)
  {
    PowAdd(2, t - s, s);
  }

  /** A multiple of one power of two stays one when reduced by another. */
  lemma ReducedMultiple(z: int, s: nat, t: nat)
    requires z % PowerOfTwo(s) == 0
    ensures (z % PowerOfTwo(t)) % PowerOfTwo(s) == 0
  {
    hide PowerOfTwo;
    var w, y := PowerOfTwo(s), PowerOfTwo(t);
    DivMod(z, w);
    DivMod(z, y);
    if s <= t {
      PowerSplit(s, t);
      MulAssoc(z / y, PowerOfTwo(t - s), w);
      MulSub(z / w, z / y * PowerOfTwo(t - s), w);
      DivExact(z / w - z / y * PowerOfTwo(t - s), w);
    } else {
      PowerSplit(t, s);
      MulAssoc(z / w, PowerOfTwo(s - t), y);
      DivExact(z / w * PowerOfTwo(s - t), y);
      ModSmall(0, w);
    }
  }

  /** Of two neighbours one is odd, so that the other one has all the factors of two. */
  lemma OnlyTrivialIdempotents(x: int, k: nat)
    requires 0 <= x < PowerOfTwo(k) && (x * (x - 1)) % PowerOfTwo(k) == 0
    ensures x <= 1
  {
    hide PowerOfTwo;
    if x % 2 == 1 {
      OddCancel(k, x, x - 1);
      if x > 1 {
        ModSmall(x - 1, PowerOfTwo(k));
      }
    } else {
      MulComm(x, x - 1);
      OddCancel(k, x - 1, x);
      ModSmall(x, PowerOfTwo(k));
    }
  }

  // ----- the limbs above the lowest one -----

  /** A power of two that divides what a number holds above its lowest limb divides what any
      of its prefixes hold there. */
  lemma PrefixDivides(a: seq<int>, j: nat, n: nat, s: nat)
    requires 1 <= j <= n && InRange(a, n) && (V(a, n) - At(a, 0)) % PowerOfTwo(s) == 0
    ensures (V(a, j) - At(a, 0)) % PowerOfTwo(s) == 0
  {
    hide P, PowerOfTwo, At;
    RangeSplit(a, 0, j, n);
    RangeHead(a, 0, j);
    RangeBound(a, 1, j);
    VBound(a, j);
    MulComm(P(j), Range(a, j, n));
    DivModUnique(V(a, n) - At(a, 0), P(j), Range(a, j, n), V(a, j) - At(a, 0));
    PPow2(j);
    ReducedMultiple(V(a, n) - At(a, 0), s, 26 * j);
  }

  lemma LimbMultiple(a: seq<int>, i: nat, n: nat, s: nat) returns (c: int)
    requires 1 <= i < n && InRange(a, n) && (V(a, n) - At(a, 0)) % PowerOfTwo(s) == 0
    ensures At(a, i) * P(i) == c * PowerOfTwo(s)
  {
    hide P, PowerOfTwo, At;
    PrefixDivides(a, i, n, s);
    PrefixDivides(a, i + 1, n, s);
    VStep(a, i);
    c := ModDiff(V(a, i + 1) - At(a, 0), V(a, i) - At(a, 0), PowerOfTwo(s));
  }

  lemma LowerRemainder(r: int, m: nat, n: nat) returns (q: int)
    requires n <= m
    ensures r % P(m) == r % P(n) + q * P(n)
  {
    hide P;
    DivMod(r, P(m));
    PAdd(n, m - n);
    MulComm(P(n), P(m - n));
    MulAssoc(r / P(m), P(m - n), P(n));
    ModAddMultiple(r % P(m), r / P(m) * P(m - n), P(n));
    ModTwice(r, P(n));
    q := ModDiff(r % P(m), r % P(n), P(n));
  }

  lemma ShiftedTerm(x: int, c: int, w: int, u: int, q: int, p: int)
    requires x == c * w
    ensures x * (u + q * p) == x * u + (c * q) * (w * p)
  {
    MulAdd(u, q * p, x);
    MulAssoc(c * w, q, p);
    MulComm(w, q);
    MulAssoc(c, w, q);
    MulAssoc(c, q, w);
    MulAssoc(c * q, w, p);
  }

  lemma BothTerms(v: int, x: int, u: int, e: int, f: int, p: int)
    ensures (v * u + e * p) + (x * u + f * p) == (v + x) * u + (e + f) * p
  {
    MulAdd(v, x, u);
    MulAdd(e, f, p);
  }

  lemma RereadStep(a: seq<int>, k: nat, m: nat, r: int)
    requires 1 <= k <= m + 1
    ensures Reread(a, k, m, r) ==
      if k == 1 then 0 else Reread(a, k - 1, m, r) + At(a, k - 1) * P(k - 1) * (r % P(m - (k - 1)))
  {
  }

  /** Every limb above the lowest meets the same low limbs of r, up to multiples of P(n), and
      is itself a multiple of 2^s. */
  lemma {:induction false} RereadModulo(a: seq<int>, k: nat, n: nat, r: int, s: nat) returns (d: int)
    requires 1 <= k <= n && InRange(a, n) && (V(a, n) - At(a, 0)) % PowerOfTwo(s) == 0
    ensures Reread(a, k, 2 * n - 1, r) == (V(a, k) - At(a, 0)) * (r % P(n)) + d * (PowerOfTwo(s) * P(n))
  {
    hide P, PowerOfTwo, At, V, Reread;
    RereadStep(a, k, 2 * n - 1, r);
    if k == 1 {
      VStepZero(a);
      d := 0;
    } else {
      var i, w, u := k - 1, PowerOfTwo(s), r % P(n);
      var e := RereadModulo(a, i, n, r, s);
      var c := LimbMultiple(a, i, n, s);
      var q := LowerRemainder(r, 2 * n - 1 - i, n);
      ShiftedTerm(At(a, i) * P(i), c, w, u, q, P(n));
      VStep(a, i);
      BothTerms(V(a, i) - At(a, 0), At(a, i) * P(i), u, e, c * q, w * P(n));
      d := e + c * q;
    }
  }

  /** The square would have to agree with its root in the low half of its limbs. */
  lemma SquareAgrees(z: int, o: int, s: nat, n: nat, u: int, x: int, d: int, l: int)
    requires z == PowerOfTwo(s) * o && o % 2 == 1 && 0 < z < P(n)
    requires z * (u - x) + d * (PowerOfTwo(s) * P(n)) == l * (P(n) * P(n))
    ensures (u - x) % P(n) == 0
  {
    hide P, PowerOfTwo;
    var w, p := PowerOfTwo(s), P(n);
    PPow2(n);
    if s > 26 * n {
      PowMonotone(2, 26 * n, s);
      if o <= 0 {
        MulLe(o, 0, w);
      } else {
        MulLe(1, o, w);
      }
      assert false;
    }
    PowerSplit(s, 26 * n);
    var v := PowerOfTwo(26 * n - s);
    FactorOut(w, o, u - x, d, p, l, v);
    DivExact(l * v - d, p);
    OddCancel(26 * n, o, u - x);
  }

  lemma FactorOut(w: int, o: int, y: int, d: int, p: int, l: int, v: int)
    requires w > 0 && p == v * w && (w * o) * y + d * (w * p) == l * (p * p)
    ensures o * y == (l * v - d) * p
  {
    MulAssoc(w, o, y);
    MulComm(w, o * y);
    MulComm(w, p);
    MulAssoc(d, p, w);
    MulAssoc(p, v, w);
    MulAssoc(l, p * v, w);
    MulAssoc(l, p, v);
    MulComm(p, v);
    MulAssoc(l, v, p);
    MulAdd(o * y, d * p, w);
    SameFactor(o * y + d * p, (l * v) * p, w);
    MulSub(l * v, d, p);
  }

  lemma SameFactor(x: int, y: int, w: int)
    requires w > 0 && x * w == y * w
    ensures x == y
  {
    if x < y {
      MulLt(x, y, w);
    } else if y < x {
      MulLt(y, x, w);
    }
  }

  /** From two limbs on the result is never the square, not even up to multiples of the
      weight behind the last limb. */
  lemma NeverSquare(a: seq<int>, n: nat, r: int)
    requires 2 <= n && InRange(a, n) && At(a, n - 1) != 0
    requires (At(a, 0) * V(a, n) + Reread(a, n, 2 * n - 1, r) - r) % P(2 * n) == 0
    ensures r != V(a, n) * V(a, n)
  {
    hide P, PowerOfTwo, At, V, Reread;
    var x, a0 := V(a, n), At(a, 0);
    if r == x * x {
      AboveLowest(a, n);
      var s, o := OddPart(x - a0);
      MulComm(PowerOfTwo(s), o);
      DivExact(o, PowerOfTwo(s));
      var d := RereadModulo(a, n, n, r, s);
      var u := r % P(n);
      ModSmall(0, P(2 * n));
      var l := ModDiff(a0 * x + Reread(a, n, 2 * n - 1, r) - r, 0, P(2 * n));
      PAdd(n, n);
      MulSub(x, a0, x);
      MulSub(u, x, x - a0);
      SquareAgrees(x - a0, o, s, n, u, x, d, l);
      VBound(a, n);
      DivMod(r, P(n));
      WithinModulus(u, x, P(n));
      PPow2(n);
      MulSub(x, 1, x);
      DivExact(r / P(n), P(n));
      OnlyTrivialIdempotents(x, 26 * n);
    }
  }

  lemma WithinModulus(u: int, x: int, p: int)
    requires 0 <= u < p && 0 <= x < p && (u - x) % p == 0
    ensures u == x
  {
    var k := ModDiff(u - x, 0, p);
    if k > 0 {
      MulLe(1, k, p);
    } else if k < 0 {
      MulLe(k, -1, p);
    }
  }

  lemma AboveLowest(a: seq<int>, n: nat)
    requires 2 <= n && InRange(a, n) && At(a, n - 1) != 0
    ensures 0 < V(a, n) - At(a, 0) < P(n) && V(a, n) >= BASE
  {
    hide P, At, V;
    VBound(a, n);
    VTopNonzero(a, n);
    PMonotone(1, n - 1);
    PStep(0);
    assert P(1) == BASE by { PPow2(1); PowTwo26(); }
  }

  /** The number 2^26 + 1: in two limbs, the only result that agrees with what is read. */
  lemma TwoOnes(r: int)
    requires r == At([1, 1], 0) * V([1, 1], 2) + Reread([1, 1], 2, 3, r)
    ensures r == 2 * BASE * BASE + 2 * BASE + 1 && V([1, 1], 2) == BASE + 1
  {
    var a := [1, 1];
    VStepZero(a);
    VStep(a, 1);
    assert P(1) == BASE && P(2) == BASE * BASE by {
      PStep(0);
      PStep(1);
    }
    assert Reread(a, 2, 3, r) == Reread(a, 1, 3, r) + At(a, 1) * P(1) * (r % P(2));
    var q := LowerRemainder(r, 2, 1);
    OnlyFixedPoint(r, r % (BASE * BASE), q);
  }

  lemma OnlyFixedPoint(r: int, d: int, q: int)
    requires d == r % (BASE * BASE) == r % BASE + q * BASE && r == BASE + 1 + BASE * d
    ensures d == 2 * BASE + 1
  {
    ModAddMultiple(1, 1 + d, BASE);
    ModAddMultiple(2 * BASE + 1, q, BASE * BASE);
  }
}
