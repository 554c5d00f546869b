/** Fermat's theorem for prime moduli, by the binomial theorem. */
module Primes {
  import opened Arith
  import opened Residues

  ghost predicate IsPrime(p: int) {
    p > 1 && forall d :: 1 < d < p ==> p % d != 0
  }

  // ----- a prime divides a product only through a factor -----

  /** A common divisor of a and b that is a combination of them. */
  lemma {:induction false} Combination(a: nat, b: nat) returns (g: nat, u: int, v: int)
    requires b > 0
    ensures g > 0 && u * a + v * b == g && a % g == 0 && b % g == 0
    decreases a
  {
    if a == 0 {
      g, u, v := b, 0, 1;
      DivExact(1, b);
      ModSmall(0, b);
    } else {
      DivMod(b, a);
      var q, u', v' := b / a, 0, 0;
      g, u', v' := Combination(b % a, a);
      // g == u' (b - q a) + v' a
      u, v := v' - u' * q, u';
      MulSub(v', u' * q, a);
      MulAssoc(u', q, a);
      MulSub(b, q * a, u');
      DivMod(a, g);
      DivMod(b % a, g);
      var k := q * (a / g) + (b % a) / g;
      MulAssoc(q, a / g, g);
      MulAdd(q * (a / g), (b % a) / g, g);
      DivExact(k, g);
    }
  }

  /** A residue other than zero is coprime to the prime. */
  lemma PrimeCombination(p: int, a: int) returns (u: int, v: int)
    requires IsPrime(p) && 0 < a < p
    ensures u * a + v * p == 1
  {
    var g;
    g, u, v := Combination(a, p);
    DivisorAtMost(a, g);
  }

  lemma PrimeDivides(p: int, x: int, y: int)
    requires IsPrime(p) && (x * y) % p == 0
    ensures x % p == 0 || y % p == 0
  {
    var a := x % p;
    DivMod(x, p);
    if a != 0 {
      var u, v := PrimeCombination(p, a);
      ModMul(x, y, p);
      DivMod(a * y, p);
      MultipleOf(u, a, v, p, y, (a * y) / p);
      DivExact(u * ((a * y) / p) + v * y, p);
    }
  }

  /** If a and p have one as a combination and a y is a multiple of p, so is y. */
  lemma MultipleOf(u: int, a: int, v: int, p: int, y: int, k: int)
    requires u * a + v * p == 1 && a * y == k * p
    ensures y == (u * k + v * y) * p
  {
    MulAdd(u * a, v * p, y);
    MulAssoc(u, a, y);
    MulAssoc(u, k, p);
    MulAssoc(v, p, y);
    MulComm(p, y);
    MulAssoc(v, y, p);
    MulAdd(u * k, v * y, p);
  }

  lemma DivisorAtMost(a: int, g: int)
    requires a > 0 && g > 0 && a % g == 0
    ensures g <= a
  {
    if g > a {
      ModSmall(a, g);
    }
  }

  // ----- binomial coefficients -----

  function Choose(n: nat, k: nat): nat {
    if k == 0 then 1 else if n == 0 then 0 else Choose(n - 1, k - 1) + Choose(n - 1, k)
  }

  lemma {:induction false} Absorption(n: nat, k: nat)
    requires 0 < n && 0 < k
    ensures k * Choose(n, k) == n * Choose(n - 1, k - 1)
  {
    var c, d := Choose(n - 1, k - 1), Choose(n - 1, k);
    if n == 1 {
      assert d == 0;
      if k > 1 {
        assert c == 0;
      }
    } else {
      Absorption(n - 1, k);
      if k > 1 {
        Absorption(n - 1, k - 1);
      }
      MulAdd(c, d, k);
      MulSub(k, 1, c);
      MulSub(n, 1, c);
      var e, f := if k > 1 then Choose(n - 2, k - 2) else 0, Choose(n - 2, k - 1);
      MulAdd(e, f, n - 1);
    }
  }

  /** The coefficients of (x + 1)^n. */
  function Binomial(n: nat): (c: seq<int>)
    ensures |c| == n + 1
  {
    if n == 0 then [1] else AddScaled([0] + Binomial(n - 1), 1, Binomial(n - 1))
  }

  lemma {:induction false} BinomialEval(n: nat, x: int)
    ensures Eval(Binomial(n), x) == Pow(x + 1, n)
  {
    if n == 0 {
      assert Binomial(0)[1..] == [];
    } else {
      BinomialEval(n - 1, x);
      var b := Binomial(n - 1);
      EvalAddScaled([0] + b, 1, b, x);
      assert ([0] + b)[1..] == b;
      MulAdd(x, 1, Eval(b, x));
    }
  }

  lemma {:induction false} AddScaledAt(c: seq<int>, r: int, d: seq<int>, k: nat)
    requires |d| <= |c| && k < |c|
    ensures AddScaled(c, r, d)[k] == c[k] + (if k < |d| then r * d[k] else 0)
    decreases |c|
  {
    if d != [] && k > 0 {
      AddScaledAt(c[1..], r, d[1..], k - 1);
    }
  }

  lemma {:induction false} ChooseNone(n: nat, k: nat)
    requires k > n
    ensures Choose(n, k) == 0
  {
    if n > 0 {
      ChooseNone(n - 1, k - 1);
      ChooseNone(n - 1, k);
    }
  }

  lemma {:induction false} BinomialAt(n: nat, k: nat)
    requires k <= n
    ensures Binomial(n)[k] == Choose(n, k)
  {
    if n > 0 {
      var b := Binomial(n - 1);
      AddScaledAt([0] + b, 1, b, k);
      if k > 0 {
        BinomialAt(n - 1, k - 1);
      }
      if k < n {
        BinomialAt(n - 1, k);
      } else {
        ChooseNone(n - 1, k);
      }
    }
  }

  /** Modulo a prime only the outer coefficients are left. */
  lemma MiddleVanishes(p: nat, k: nat)
    requires IsPrime(p) && 0 < k < p
    ensures Choose(p, k) % p == 0
  {
    Absorption(p, k);
    MulComm(p, Choose(p - 1, k - 1));
    DivExact(Choose(p - 1, k - 1), p);
    PrimeDivides(p, k, Choose(p, k));
    ModSmall(k, p);
  }

  lemma {:induction false} OnlyLeadingCounts(c: seq<int>, x: int, m: int)
    requires m > 0 && c != [] && c[|c| - 1] == 1 && forall k :: 0 <= k < |c| - 1 ==> c[k] % m == 0
    ensures Eval(c, x) % m == Pow(x, |c| - 1) % m
  {
    if |c| == 1 {
      assert c[1..] == [];
    } else {
      var f := c[1..];
      forall k | 0 <= k < |f| - 1
        ensures f[k] % m == 0
      {
        assert f[k] == c[k + 1];
      }
      OnlyLeadingCounts(f, x, m);
      assert c[0] % m == 0;
      ModAdd(c[0], x * Eval(f, x), m);
      ModMulBoth(x, Eval(f, x), m);
      ModMulBoth(x, Pow(x, |f| - 1), m);
    }
  }

  /** (x + 1)^p == x^p + 1 modulo a prime p. */
  lemma NextPower(p: nat, x: int)
    requires IsPrime(p)
    ensures Pow(x + 1, p) % p == (Pow(x, p) + 1) % p
  {
    hide Choose, Binomial;
    var c := Binomial(p);
    var f := c[1..];
    BinomialEval(p, x);
    BinomialAt(p, 0);
    BinomialAt(p, p);
    ChooseEnds(p);
    forall k | 0 <= k < |f| - 1
      ensures f[k] % p == 0
    {
      BinomialAt(p, k + 1);
      MiddleVanishes(p, k + 1);
    }
    OnlyLeadingCounts(f, x, p);
    assert Eval(c, x) == c[0] + x * Eval(f, x);
    PowStep(x, p);
    ModMulBoth(x, Eval(f, x), p);
    ModMulBoth(x, Pow(x, p - 1), p);
    ModAdd(x * Eval(f, x), 1, p);
    ModAdd(Pow(x, p), 1, p);
  }

  lemma {:induction false} ChooseEnds(n: nat)
    ensures Choose(n, 0) == 1 && Choose(n, n) == 1
  {
    if n > 0 {
      ChooseEnds(n - 1);
      ChooseNone(n - 1, n);
    }
  }

  lemma {:induction false} PowerIsItself(p: nat, x: nat)
    requires IsPrime(p)
    ensures Pow(x, p) % p == x % p
  {
    if x == 0 {
      PowStep(0, p);
    } else {
      PowerIsItself(p, x - 1);
      NextPower(p, x - 1);
      ModAdd(Pow(x - 1, p), 1, p);
      ModAdd(x - 1, 1, p);
    }
  }

  /** Fermat's theorem. */
  lemma PrimesSatisfyFermat(p: int)
    requires IsPrime(p)
    ensures Fermat(p)
  {
    hide Pow;
    forall x | 0 < x < p
      ensures FermatAt(x, p)
    {
      PowerIsItself(p, x);
      PowStep(x, p);
      var y := Pow(x, p - 1);
      var k := ModDiff(x * y, x, p);
      MulSub(y, 1, x);
      DivExact(k, p);
      PrimeDivides(p, x, y - 1);
      ModSmall(x, p);
      ModSmall(1, p);
      DivMod(y - 1, p);
      ModAddMultiple(1, (y - 1) / p, p);
    }
  }

  /** Modulo 7, three has no root: the single exponentiation of the fast case gives 2, whose
      square is 4. */
  lemma NoRootOfThree()
    ensures IsPrime(7) && !HasRoot(3, 7)
    ensures Pow(3, (7 + 1) / 4) % 7 == 2 && !IsRoot(2, 3, 7)
  {
    assert Pow(3, 2) == 9;
    forall x: int
      ensures !IsRoot(x, 3, 7)
    {
      var y := x % 7;
      DivMod(x, 7);
      ModMulBoth(x, x, 7);
      assert y == 0 || y == 1 || y == 2 || y == 3 || y == 4 || y == 5 || y == 6;
    }
  }
}
