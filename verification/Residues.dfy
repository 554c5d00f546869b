/** Powers and square roots modulo a number for which Fermat's theorem holds. */
module Residues {
  import opened Arith

  lemma PowModStep(a: int, e: nat, f: nat, x: int, y: int, m: int)
    requires 0 < m && x == Pow(a, e) % m && y == Pow(a, f) % m
    ensures (x * y) % m == Pow(a, e + f) % m
  {
    PowAdd(a, e, f);
    ModMulBoth(Pow(a, e), Pow(a, f), m);
  }

  /** One modulo m has no square roots but 1 and -1, as for every prime. */
  ghost predicate OnlyTwoRoots(m: int) {
    m > 0 && forall x :: 0 <= x < m && (x * x) % m == 1 ==> x == 1 || x == m - 1
  }

  /** Some residue has -1 as its power e. */
  ghost predicate HasNonResidue(m: int, e: nat) {
    m > 0 && exists z :: 0 <= z < m && Pow(z, e) % m == m - 1
  }

  lemma {:induction false} PowReduced(x: int, e: nat, m: int)
    requires 0 < m
    ensures Pow(x % m, e) % m == Pow(x, e) % m
  {
    if e != 0 {
      PowReduced(x, e - 1, m);
      ModMulBoth(x, Pow(x, e - 1), m);
      ModMulBoth(x % m, Pow(x % m, e - 1), m);
      ModTwice(x, m);
    }
  }

  lemma {:induction false} PowProduct(x: int, y: int, e: nat)
    ensures Pow(x * y, e) == Pow(x, e) * Pow(y, e)
  {
    if e != 0 {
      PowProduct(x, y, e - 1);
      var u, v := Pow(x, e - 1), Pow(y, e - 1);
      MulAssoc(x * y, u, v);
      MulAssoc(x, y, u);
      MulComm(y, u);
      MulAssoc(x, u, y);
      MulAssoc(x * u, y, v);
    }
  }

  /** A power of a power. */
  lemma PowPow(x: int, e: nat, f: nat, y: int, m: int)
    requires 0 < m && y == Pow(x, e) % m
    ensures e * f >= 0 && Pow(y, f) % m == Pow(x, e * f) % m
  {
    PowMul(x, e, f);
    PowReduced(Pow(x, e), f, m);
  }

  /** What makes the Tonelli-Shanks loop end normally: c has order 2^k and t at most 2^(k-1),
      so that every round finds a smaller power of two. */
  ghost predicate Ready(c: int, t: int, k: nat, m: int) {
    OnlyTwoRoots(m) && m > 2 && 0 < k &&
    Pow(c, PowerOfTwo(k - 1)) % m == m - 1 && Pow(t, PowerOfTwo(k - 1)) % m == 1
  }

  lemma DoublePower(i: nat)
    requires 0 < i
    ensures PowerOfTwo(i) == PowerOfTwo(i - 1) + PowerOfTwo(i - 1)
  {
  }

  /** The power before the first one that is 1 is -1. */
  lemma HalfOrder(t: int, i: nat, m: int)
    requires OnlyTwoRoots(m) && 0 < i
    requires Pow(t, PowerOfTwo(i)) % m == 1 && Pow(t, PowerOfTwo(i - 1)) % m != 1
    ensures Pow(t, PowerOfTwo(i - 1)) % m == m - 1
  {
    hide Pow, PowerOfTwo;
    var e := PowerOfTwo(i - 1);
    var x := Pow(t, e) % m;
    DoublePower(i);
    PowModStep(t, e, e, x, x, m);
    DivMod(Pow(t, e), m);
  }

  lemma MinusOneSquared(m: int)
    requires m > 1
    ensures ((m - 1) * (m - 1)) % m == 1
  {
    MulSub(m, 1, m - 1);
    MulComm(m, m - 1);
    MulSub(m - 1, 1, m);
    assert (m - 1) * (m - 1) == 1 + (m - 2) * m by {
      MulSub(m, 2, m);
      MulSub(m, 1, m);
    }
    ModAddMultiple(1, m - 2, m);
    ModSmall(1, m);
  }

  /** One round of the loop: b = c^(2^(k-i-1)), c' = b^2, t' = t c'. */
  lemma RoundStaysReady(c: int, t: int, k: nat, i: nat, b: int, c': int, t': int, m: int)
    requires Ready(c, t, k, m) && 0 < i < k
    requires Pow(t, PowerOfTwo(i)) % m == 1 && Pow(t, PowerOfTwo(i - 1)) % m != 1
    requires b == Pow(c, PowerOfTwo(k - i - 1)) % m && c' == (b * b) % m && t' == (t * c') % m
    ensures Ready(c', t', i, m)
  {
    hide Pow, PowerOfTwo, OnlyTwoRoots;
    var e, h := PowerOfTwo(k - i - 1), PowerOfTwo(i - 1);
    // c' = c^(2^(k-i)), whose power 2^(i-1) is -1
    PowModStep(c, e, e, b, b, m);
    DoublePower(k - i);
    PowPow(c, PowerOfTwo(k - i), h, c', m);
    PowAdd(2, k - i, i - 1);
    // t^(2^(i-1)) is -1 too, and the product of the two is 1
    HalfOrder(t, i, m);
    PowReduced(t * c', h, m);
    PowProduct(t, c', h);
    ModMulBoth(Pow(t, h), Pow(c', h), m);
    MinusOneSquared(m);
  }

  /** z has Euler power -1 and a has Euler power 1. */
  ghost predicate EulerPair(z: int, a: int, m: int) {
    OnlyTwoRoots(m) && m > 2 && Pow(z, (m - 1) / 2) % m == m - 1 && Pow(a, (m - 1) / 2) % m == 1
  }

  /** Where the loop starts: from a non-residue z and an a whose Euler power is 1. */
  lemma StartIsReady(z: int, a: int, m: int, q: nat, s: nat, c: int, t: int)
    requires EulerPair(z, a, m) && m % 2 == 1 && q % 2 == 1 && m - 1 == q * PowerOfTwo(s)
    requires c == Pow(z, q) % m && t == Pow(a, q) % m
    ensures Ready(c, t, s, m)
  {
    hide Pow, PowerOfTwo, OnlyTwoRoots;
    SomeTwos(m, q, s);
    var h := PowerOfTwo(s - 1);
    DoublePower(s);
    MulAdd(h, h, q);
    MulComm(q, h);
    assert (m - 1) / 2 == q * h;
    PowPow(z, q, h, c, m);
    PowPow(a, q, h, t, m);
  }

  lemma SomeTwos(m: int, q: nat, s: nat)
    requires m % 2 == 1 && q % 2 == 1 && m - 1 == q * PowerOfTwo(s)
    ensures s > 0
  {
  }

  /** A number with a square root has Euler power 1, as far as Fermat's theorem holds for the
      root. */
  lemma RootHasEulerPower(r: int, a: int, m: int)
    requires m > 2 && m % 2 == 1 && (r * r) % m == a && Pow(r, m - 1) % m == 1
    ensures Pow(a, (m - 1) / 2) % m == 1
  {
    hide Pow;
    var h := (m - 1) / 2;
    PowReduced(r * r, h, m);
    PowProduct(r, r, h);
    PowAdd(r, h, h);
  }

  // ----- what Fermat's theorem gives -----

  predicate FermatAt(x: int, m: int)
    requires m > 0
  {
    Pow(x, m - 1) % m == 1
  }

  /** Fermat's theorem holds modulo m, as it does for a prime. */
  ghost predicate Fermat(m: int) {
    m > 1 && forall x :: 0 < x < m ==> FermatAt(x, m)
  }

  predicate IsRoot(x: int, a: int, m: int) {
    m > 0 && (x * x) % m == a
  }

  lemma ZeroIsRoot(m: int)
    requires m > 0
    ensures IsRoot(0, 0, m) && HasRoot(0, m)
  {
    ModSmall(0, m);
    assert IsRoot(0, 0, m);
  }

  /** The invariant of Tonelli-Shanks: r^2 == a t. */
  predicate SquareIsProduct(r: int, a: int, t: int, m: int) {
    m > 0 && (r * r) % m == (a * t) % m
  }

  lemma ProductWithOne(r: int, a: int, m: int)
    requires SquareIsProduct(r, a, 1, m) && 0 <= a < m
    ensures IsRoot(r, a, m)
  {
    ModSmall(a, m);
  }

  ghost predicate HasRoot(a: int, m: int) {
    exists x: int :: IsRoot(x, a, m)
  }

  lemma FermatReduced(x: int, m: int)
    requires Fermat(m) && x % m != 0
    ensures Pow(x, m - 1) % m == 1
  {
    hide Pow;
    DivMod(x, m);
    assert FermatAt(x % m, m);
    PowReduced(x, m - 1, m);
  }

  /** A product is zero only with a factor that is. */
  lemma NoZeroDivisors(x: int, y: int, m: int)
    requires Fermat(m) && (x * y) % m == 0
    ensures x % m == 0 || y % m == 0
  {
    if x % m != 0 {
      // y = x^(m-1) y = x^(m-2) (x y) = 0
      FermatReduced(x, m);
      var p := Pow(x, m - 2);
      MulComm(x, p);
      MulAssoc(p, x, y);
      ModMul(p * x, y, m);
      MulComm(p, x * y);
      ModMul(x * y, p, m);
      ModSmall(0, m);
    }
  }

  /** One has only two square roots. */
  lemma FermatTwoRoots(m: int)
    requires Fermat(m)
    ensures OnlyTwoRoots(m)
  {
    forall x | 0 <= x < m && (x * x) % m == 1
      ensures x == 1 || x == m - 1
    {
      MulAdd(x, 1, x - 1);
      MulSub(x, 1, x);
      ModSmall(1, m);
      var k := ModDiff(x * x, 1, m);
      DivExact(k, m);
      NoZeroDivisors(x + 1, x - 1, m);
      if (x + 1) % m == 0 {
        if x + 1 < m {
          ModSmall(x + 1, m);
        }
      } else if x > 0 {
        ModSmall(x - 1, m);
      } else {
        ModSmall(0, m);
      }
    }
  }

  // ----- a polynomial has no more roots than its degree -----

  /** Coefficients from the lowest up. */
  function Eval(c: seq<int>, x: int): int {
    if c == [] then 0 else c[0] + x * Eval(c[1..], x)
  }

  function AddScaled(c: seq<int>, r: int, d: seq<int>): (s: seq<int>)
    requires |d| <= |c|
    ensures |s| == |c|
  {
    if d == [] then c else [c[0] + r * d[0]] + AddScaled(c[1..], r, d[1..])
  }

  lemma {:induction false} EvalAddScaled(c: seq<int>, r: int, d: seq<int>, x: int)
    requires |d| <= |c|
    ensures Eval(AddScaled(c, r, d), x) == Eval(c, x) + r * Eval(d, x)
    ensures |d| < |c| ==> AddScaled(c, r, d)[|c| - 1] == c[|c| - 1]
  {
    if d != [] {
      EvalAddScaled(c[1..], r, d[1..], x);
      var u, v := Eval(c[1..], x), Eval(d[1..], x);
      assert AddScaled(c, r, d)[1..] == AddScaled(c[1..], r, d[1..]);
      MulAdd(u, r * v, x);
      MulAssoc(x, r, v);
      MulComm(x, r);
      MulAssoc(r, x, v);
      MulAdd(d[0], x * v, r);
    }
  }

  /** The quotient of a polynomial by x - r. */
  function Deflated(c: seq<int>, r: int): (q: seq<int>)
    requires c != []
    ensures |q| == |c| - 1
  {
    if |c| == 1 then [] else AddScaled(c[1..], r, Deflated(c[1..], r))
  }

  lemma {:induction false} DeflatedEval(c: seq<int>, r: int, x: int)
    requires c != []
    ensures Eval(c, x) - Eval(c, r) == (x - r) * Eval(Deflated(c, r), x)
    ensures |c| > 1 ==> Deflated(c, r)[|c| - 2] == c[|c| - 1]
  {
    if |c| == 1 {
      assert c[1..] == [];
    } else {
      var f := c[1..];
      DeflatedEval(f, r, x);
      EvalAddScaled(f, r, Deflated(f, r), x);
      var fx, fr, g := Eval(f, x), Eval(f, r), Eval(Deflated(f, r), x);
      // x f(x) - r f(r) == (x - r) f(x) + r (f(x) - f(r))
      MulSub(x, r, fx);
      MulSub(fx, fr, r);
      MulAssoc(r, x - r, g);
      MulComm(r, x - r);
      MulAssoc(x - r, r, g);
      MulAdd(fx, r * g, x - r);
    }
  }

  /** A polynomial with as many roots as coefficients has a leading coefficient of zero. */
  lemma {:induction false} TooManyRoots(c: seq<int>, lo: int, m: int)
    requires Fermat(m) && c != [] && 0 < lo && lo + |c| <= m
    requires forall x :: lo <= x < lo + |c| ==> Eval(c, x) % m == 0
    ensures c[|c| - 1] % m == 0
    decreases |c|
  {
    hide Fermat, Deflated;
    assert Eval(c, lo) % m == 0;
    if |c| == 1 {
      assert c[1..] == [];
    } else {
      var g := Deflated(c, lo);
      forall x | lo + 1 <= x < lo + 1 + |g|
        ensures Eval(g, x) % m == 0
      {
        DeflatedEval(c, lo, x);
        RootOfFactor(Eval(c, x), Eval(c, lo), x - lo, Eval(g, x), m);
      }
      TooManyRoots(g, lo + 1, m);
      DeflatedEval(c, lo, lo);
    }
  }

  lemma RootOfFactor(fx: int, fr: int, d: int, gx: int, m: int)
    requires Fermat(m) && 0 < d < m && fx % m == 0 && fr % m == 0 && fx - fr == d * gx
    ensures gx % m == 0
  {
    hide Fermat;
    var k := ModDiff(fx, fr, m);
    DivExact(k, m);
    ModSmall(d, m);
    NoZeroDivisors(d, gx, m);
  }

  /** x^k */
  function Monomial(k: nat): seq<int> {
    if k == 0 then [1] else [0] + Monomial(k - 1)
  }

  lemma {:induction false} MonomialEval(k: nat, x: int)
    ensures Eval(Monomial(k), x) == Pow(x, k)
    ensures |Monomial(k)| == k + 1 && Monomial(k)[k] == 1
  {
    if k == 0 {
      assert Monomial(0)[1..] == [];
    } else {
      MonomialEval(k - 1, x);
      assert Monomial(k)[1..] == Monomial(k - 1);
    }
  }

  /** Not every residue has Euler power 1: some has -1. */
  lemma NonResidueExists(m: int)
    requires Fermat(m) && m > 2 && m % 2 == 1
    ensures HasNonResidue(m, (m - 1) / 2)
  {
    hide Fermat, Pow;
    var h := (m - 1) / 2;
    if !HasNonResidue(m, h) {
      var c := [-1] + Monomial(h - 1);
      MonomialEval(h - 1, 0);
      forall x | 1 <= x < 1 + |c|
        ensures Eval(c, x) % m == 0
      {
        MonomialEval(h - 1, x);
        assert c[1..] == Monomial(h - 1);
        PowStep(x, h);
        EulerPowerIsOne(x, h, m);
        var k := ModDiff(Pow(x, h), 1, m);
        DivExact(k, m);
      }
      TooManyRoots(c, 1, m);
      ModSmall(1, m);
    }
  }

  lemma PowStep(x: int, e: nat)
    requires e > 0
    ensures Pow(x, e) == x * Pow(x, e - 1)
  {
  }

  lemma EulerPowerIsOne(x: int, h: nat, m: int)
    requires Fermat(m) && m == 2 * h + 1 && 0 < x < m && !HasNonResidue(m, h)
    ensures Pow(x, h) % m == 1 && 1 % m == 1
  {
    hide Pow;
    var y := Pow(x, h) % m;
    DivMod(Pow(x, h), m);
    assert FermatAt(x, m);
    PowModStep(x, h, h, y, y, m);
    FermatTwoRoots(m);
    assert y == 1 || y == m - 1;
    ModSmall(1, m);
  }

  // ----- roots and Euler powers -----

  /** A nonzero number with a root has Euler power 1. */
  lemma RootGivesEulerPower(a: int, m: int)
    requires Fermat(m) && m % 2 == 1 && 0 < a < m && HasRoot(a, m)
    ensures Pow(a, (m - 1) / 2) % m == 1
  {
    hide Pow, Fermat;
    var x: int :| IsRoot(x, a, m);
    if x % m == 0 {
      ModMul(x, x, m);
      ModSmall(0, m);
    }
    FermatReduced(x, m);
    RootHasEulerPower(x, a, m);
  }

  /** Then the power (m+1)/2 is the number itself. */
  lemma NextEulerPower(a: int, m: int)
    requires m > 1 && m % 2 == 1 && 0 <= a < m && Pow(a, (m - 1) / 2) % m == 1
    ensures Pow(a, (m + 1) / 2) % m == a
  {
    PowStep(a, (m + 1) / 2);
    ModMulBoth(a, Pow(a, (m - 1) / 2), m);
    ModSmall(a, m);
  }

  /** What square roots by exponentiation need holds for every nonzero number with a root. */
  lemma RootsAreFound(a: int, m: int)
    requires Fermat(m) && m > 2 && m % 2 == 1 && 0 < a < m && HasRoot(a, m)
    ensures Pow(a, (m + 1) / 2) % m == a
    ensures OnlyTwoRoots(m) && HasNonResidue(m, (m - 1) / 2) && Pow(a, (m - 1) / 2) % m == 1
  {
    hide Pow, Fermat;
    RootGivesEulerPower(a, m);
    NextEulerPower(a, m);
    FermatTwoRoots(m);
    NonResidueExists(m);
  }
}
