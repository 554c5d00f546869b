/** The binary extended Euclid of egcd and the field inversion _invmp. */
module Gcd {
  import opened Arith
  import opened JsNumber
  import opened Limbs
  import opened BigNum
  import opened Division

  ghost predicate Divides(d: int, n: int) {
    exists k: int :: n == d * k
  }

  /** g is the greatest common divisor: it divides both, and every common divisor divides it. */
  ghost predicate IsGcd(g: int, x: int, y: int) {
    g > 0 && Divides(g, x) && Divides(g, y) &&
    forall d: int :: Divides(d, x) && Divides(d, y) ==> Divides(d, g)
  }

  /** A positive common divisor that is an integer combination of x and y is their gcd. */
  lemma GcdFromCombination(g: int, x: int, y: int, a: int, b: int, f: int, k: int)
    requires g > 0 && x == g * f && y == g * k && a * x + b * y == g
    ensures IsGcd(g, x, y)
  {
    forall d: int | Divides(d, x) && Divides(d, y)
      ensures Divides(d, g)
    {
      var m: int :| x == d * m;
      var n: int :| y == d * n;
      MulAssoc(a, d, m);
      MulAssoc(b, d, n);
      MulComm(a, d);
      MulComm(b, d);
      MulAssoc(d, a, m);
      MulAssoc(d, b, n);
      MulAdd(a * m, b * n, d);
      assert g == d * (a * m + b * n);
    }
  }

  /** Why the halving loops are exact: if an even number is a * x + b * y with x, y not both
      even, then a and b are both even, or become so by adding y and subtracting x. */
  lemma HalvingParity(a: int, b: int, x: int, y: int)
    requires (a * x + b * y) % 2 == 0 && (x % 2 == 1 || y % 2 == 1)
    ensures a % 2 == 1 || b % 2 == 1 ==> (a + y) % 2 == 0 && (b - x) % 2 == 0
    ensures (a + y) * x + (b - x) * y == a * x + b * y
  {
    ProductParity(a, x);
    ProductParity(b, y);
    ParityCases(a, b, x, y, a * x, b * y);
    MulAdd(a, y, x);
    MulSub(b, x, y);
    MulComm(x, y);
  }

  lemma ParityCases(a: int, b: int, x: int, y: int, p: int, q: int)
    requires (p + q) % 2 == 0 && (x % 2 == 1 || y % 2 == 1)
    requires p % 2 == (if a % 2 == 1 then x % 2 else 0) && q % 2 == (if b % 2 == 1 then y % 2 else 0)
    ensures a % 2 == 1 || b % 2 == 1 ==> (a + y) % 2 == 0 && (b - x) % 2 == 0
  {
  }

  lemma ProductParity(a: int, x: int)
    ensures (a * x) % 2 == if a % 2 == 1 then x % 2 else 0
  {
    ModMulBoth(a, x, 2);
  }

  /** One halving of a cofactor pair; exact because of HalvingParity. */
  method HalveOnce(A: BN, B: BN, xp: BN, yp: BN)
    requires A.Canon() && B.Canon() && xp.Canon() && yp.Canon()
    requires A != B && xp != A && xp != B && yp != A && yp != B
    requires xp.negative == 0 && yp.negative == 0 && (xp.Value() % 2 == 1 || yp.Value() % 2 == 1)
    requires (A.Value() * xp.Value() + B.Value() * yp.Value()) % 2 == 0
    modifies A, B
    ensures A.Canon() && B.Canon()
    ensures 2 * (A.Value() * xp.Value() + B.Value() * yp.Value()) ==
      old(A.Value() * xp.Value() + B.Value() * yp.Value())
  {
    hide BN.Canon, BN.Value, BN.WF, BN.IsOdd, BN.Mag;
    ghost var x, y := xp.Value(), yp.Value();
    HalvingParity(A.Value(), B.Value(), x, y);
    A.ParityOfValue();
    B.ParityOfValue();
    if A.IsOdd() || B.IsOdd() {
      A.IAdd(yp);
      B.ISub(xp);
      A.ParityOfValue();
      B.ParityOfValue();
    }
    ghost var a, b := A.Value(), B.Value();
    A.Halve();
    B.Halve();
    MulAssoc(2, A.Value(), x);
    MulAssoc(2, B.Value(), y);
  }

  lemma TwicePower(x: int, i: nat)
    ensures x * PowerOfTwo(i + 1) == 2 * (x * PowerOfTwo(i))
    ensures (x * PowerOfTwo(i + 1)) % 2 == 0
  {
    MulAssoc(2, x, PowerOfTwo(i));
    MulComm(2, x);
    MulAssoc(x, 2, PowerOfTwo(i));
  }

  lemma PowerZero(x: int)
    ensures x * PowerOfTwo(0) == x
  {
  }

  /** Halves the cofactor pair n times; together with x, which was halved n times at once. */
  method HalveCofactors(A: BN, B: BN, xp: BN, yp: BN, n: nat, ghost x: int)
    requires A.Canon() && B.Canon() && xp.Canon() && yp.Canon()
    requires A != B && xp != A && xp != B && yp != A && yp != B
    requires xp.negative == 0 && yp.negative == 0 && (xp.Value() % 2 == 1 || yp.Value() % 2 == 1)
    requires A.Value() * xp.Value() + B.Value() * yp.Value() == x * PowerOfTwo(n)
    modifies A, B
    ensures A.Canon() && B.Canon()
    ensures A.Value() * xp.Value() + B.Value() * yp.Value() == x
  {
    hide PowerOfTwo, BN.Canon, BN.Value, BN.WF;
    var i := n;
    while i > 0
      invariant 0 <= i <= n
      invariant A.Canon() && B.Canon()
      invariant A.Value() * xp.Value() + B.Value() * yp.Value() == x * PowerOfTwo(i)
    {
      i := i - 1;
      TwicePower(x, i);
      HalvingParity(A.Value(), B.Value(), xp.Value(), yp.Value());
      HalveOnce(A, B, xp, yp);
    }
    PowerZero(x);
  }

  /** The first half of an egcd round: divides out up to 26 factors of two of x, and halves
      its cofactors as often. */
  method StripTwos(x: BN, A: BN, B: BN, xp: BN, yp: BN) returns (ghost k: int)
    requires x.Canon() && A.Canon() && B.Canon() && xp.Canon() && yp.Canon()
    requires x != A && x != B && A != B && xp != A && xp != B && yp != A && yp != B && x != xp && x != yp
    requires xp.negative == 0 && yp.negative == 0 && (xp.Value() % 2 == 1 || yp.Value() % 2 == 1)
    requires x.Value() > 0
    requires A.Value() * xp.Value() + B.Value() * yp.Value() == x.Value()
    modifies x, A, B
    ensures x.Canon() && A.Canon() && B.Canon()
    ensures k >= 1 && old(x.Value()) == k * x.Value() && x.Value() > 0
    ensures old(x.Value()) % 2 == 1 ==> k == 1
    ensures A.Value() * xp.Value() + B.Value() * yp.Value() == x.Value()
  {
    hide PowerOfTwo, BN.Canon, BN.Value, BN.WF, BN.Mag, BN.IsOdd;
    x.SignOfValue();
    var i := x.LowZeroBits();
    x.ParityOfValue();
    k := PowerOfTwo(i);
    PowerZero(1);
    if i > 0 {
      ghost var v := x.Value();
      DivMod(v, k);
      x.IUShrn(i);
      x.SignOfValue();
      DivPositive(v, k);
      MulComm(k, x.Value());
      HalveCofactors(A, B, xp, yp, i, x.Value());
    }
  }

  /** The numbers of an egcd run, all different objects. */
  datatype Run = Run(x: BN, y: BN, A: BN, B: BN, C: BN, D: BN, xp: BN, yp: BN) {
    ghost predicate Distinct() {
      x != y && x != A && x != B && x != C && x != D && x != xp && x != yp &&
      y != A && y != B && y != C && y != D && y != xp && y != yp &&
      A != B && A != C && A != D && A != xp && A != yp &&
      B != C && B != D && B != xp && B != yp &&
      C != D && C != xp && C != yp && D != xp && D != yp
    }

    ghost predicate Canonical()
      reads x, y, A, B, C, D, xp, yp
    {
      x.Canon() && y.Canon() && A.Canon() && B.Canon() && C.Canon() && D.Canon() &&
      xp.Canon() && yp.Canon() && xp.negative == 0 && yp.negative == 0
    }

    ghost predicate Linked(e: int, f: int, h: int, k: int)
      reads x, y, A, B, C, D, xp, yp
    {
      LinkedValues(x.Value(), y.Value(), A.Value(), B.Value(), C.Value(), D.Value(), xp.Value(), yp.Value(), e, f, h, k)
    }
  }

  /** x and y are combinations of xp and yp by the cofactors the run carries, and xp and
      yp are combinations of x and y by the ghost numbers e, f, h, k. Together these
      keep the common divisors. Neither pair is even in both numbers. */
  ghost predicate LinkedValues(x: int, y: int, a: int, b: int, c: int, d: int, xp: int, yp: int,
    e: int, f: int, h: int, k: int)
  {
    a * xp + b * yp == x && c * xp + d * yp == y &&
    xp == e * x + f * y && yp == h * x + k * y &&
    (xp % 2 == 1 || yp % 2 == 1) && (x % 2 == 1 || y % 2 == 1)
  }

  lemma ScaleLink(n: int, e: int, f: int, x: int, y: int, k1: int, k2: int)
    requires n == e * (k1 * x) + f * (k2 * y)
    ensures n == (e * k1) * x + (f * k2) * y
  {
    MulAssoc(e, k1, x);
    MulAssoc(f, k2, y);
  }

  lemma SubtractLink(x: int, y: int, a: int, b: int, c: int, d: int, xp: int, yp: int, e: int, f: int, h: int, k: int)
    requires LinkedValues(x, y, a, b, c, d, xp, yp, e, f, h, k)
    ensures LinkedValues(x - y, y, a - c, b - d, c, d, xp, yp, e, e + f, h, h + k)
  {
    CombinationDifference(a, b, c, d, xp, yp);
    Recombine(xp, e, f, x, y);
    Recombine(yp, h, k, x, y);
    SubtractParity(x, y);
  }

  lemma SubtractParity(x: int, y: int)
    requires x % 2 == 1 || y % 2 == 1
    ensures (x - y) % 2 == 1 || y % 2 == 1
  {
  }

  /** The two numbers of a run play the same part. */
  lemma SwapLink(x: int, y: int, a: int, b: int, c: int, d: int, xp: int, yp: int, e: int, f: int, h: int, k: int)
    ensures LinkedValues(x, y, a, b, c, d, xp, yp, e, f, h, k) == LinkedValues(y, x, c, d, a, b, xp, yp, f, e, k, h)
  {
  }

  lemma CombinationDifference(a: int, b: int, c: int, d: int, x: int, y: int)
    ensures (a - c) * x + (b - d) * y == (a * x + b * y) - (c * x + d * y)
  {
    MulSub(a, c, x);
    MulSub(b, d, y);
  }

  lemma Recombine(n: int, e: int, f: int, x: int, y: int)
    requires n == e * x + f * y
    ensures n == e * (x - y) + (e + f) * y
  {
    MulSub(x, y, e);
    MulAdd(e, f, y);
  }

  /** First half of a round: both numbers lose their low zero bits. */
  method StripBoth(r: Run, ghost e: int, ghost f: int, ghost h: int, ghost k: int)
    returns (ghost e': int, ghost f': int, ghost h': int, ghost k': int)
    requires r.Distinct() && r.Canonical() && r.Linked(e, f, h, k)
    requires r.x.Value() > 0 && r.y.Value() > 0
    modifies r.x, r.y, r.A, r.B, r.C, r.D
    ensures r.Canonical() && r.Linked(e', f', h', k')
    ensures 0 < r.x.Value() <= old(r.x.Value()) && 0 < r.y.Value() <= old(r.y.Value())
  {
    hide BN.Canon, BN.Value, BN.WF, BN.Mag;
    var Run(x, y, A, B, C, D, xp, yp) := r;
    ghost var k1 := StripTwos(x, A, B, xp, yp);
    ghost var k2 := StripTwos(y, C, D, xp, yp);
    ghost var xv, yv := x.Value(), y.Value();
    ScaleLink(xp.Value(), e, f, xv, yv, k1, k2);
    ScaleLink(yp.Value(), h, k, xv, yv, k1, k2);
    MulLe(1, k1, xv);
    MulLe(1, k2, yv);
    e', f', h', k' := e * k1, f * k2, h * k1, k * k2;
  }

  /** Second half of a round: the smaller number is subtracted from the larger. */
  method SubtractSmaller(r: Run, ghost e: int, ghost f: int, ghost h: int, ghost k: int)
    returns (ghost e': int, ghost f': int, ghost h': int, ghost k': int)
    requires r.Distinct() && r.Canonical() && r.Linked(e, f, h, k)
    requires r.x.Value() > 0 && r.y.Value() > 0
    modifies r.x, r.y, r.A, r.B, r.C, r.D
    ensures r.Canonical() && r.Linked(e', f', h', k')
    ensures r.x.Value() >= 0 && r.y.Value() > 0
    ensures r.x.Value() + r.y.Value() < old(r.x.Value() + r.y.Value())
  {
    hide BN.Canon, BN.Value, BN.WF, BN.Mag;
    var Run(x, y, A, B, C, D, xp, yp) := r;
    hide LinkedValues;
    x.SignOfValue();
    y.SignOfValue();
    var cmp := x.Cmp(y);
    if cmp >= 0 {
      SubtractLink(x.Value(), y.Value(), A.Value(), B.Value(), C.Value(), D.Value(), xp.Value(), yp.Value(),
        e, f, h, k);
      x.ISub(y);
      A.ISub(C);
      B.ISub(D);
      e', f', h', k' := e, e + f, h, h + k;
    } else {
      SwapLink(x.Value(), y.Value(), A.Value(), B.Value(), C.Value(), D.Value(), xp.Value(), yp.Value(), e, f, h, k);
      SubtractLink(y.Value(), x.Value(), C.Value(), D.Value(), A.Value(), B.Value(), xp.Value(), yp.Value(),
        f, e, k, h);
      y.ISub(x);
      C.ISub(A);
      D.ISub(B);
      e', f', h', k' := f + e, f, k + h, k;
      SwapLink(x.Value(), y.Value(), A.Value(), B.Value(), C.Value(), D.Value(), xp.Value(), yp.Value(),
        e', f', h', k');
    }
  }

  /** The shared factors of two that egcd and gcd take out first. */
  method StripCommonTwos(x: BN, y: BN) returns (g: nat)
    requires x.Canon() && y.Canon() && x != y && x.Value() >= 0 && y.Value() > 0
    modifies x, y
    ensures x.Canon() && y.Canon() && x.Value() >= 0 && y.Value() > 0
    ensures x.Value() % 2 == 1 || y.Value() % 2 == 1
    ensures old(x.Value()) == x.Value() * PowerOfTwo(g)
    ensures old(y.Value()) == y.Value() * PowerOfTwo(g)
  {
    hide PowerOfTwo, BN.Canon, BN.Value, BN.WF, BN.Mag, BN.IsOdd;
    g := 0;
    PowerZero(x.Value());
    PowerZero(y.Value());
    x.ParityOfValue();
    y.ParityOfValue();
    while !x.IsOdd() && !y.IsOdd()
      invariant x.Canon() && y.Canon() && x.Value() >= 0 && y.Value() > 0
      invariant x.IsOdd() <==> x.Value() % 2 == 1
      invariant y.IsOdd() <==> y.Value() % 2 == 1
      invariant old(x.Value()) == x.Value() * PowerOfTwo(g)
      invariant old(y.Value()) == y.Value() * PowerOfTwo(g)
      decreases y.Value()
    {
      x.ParityOfValue();
      y.ParityOfValue();
      x.Halve();
      y.Halve();
      TwicePower(x.Value(), g);
      TwicePower(y.Value(), g);
      MulAssoc(2, x.Value(), PowerOfTwo(g));
      MulAssoc(2, y.Value(), PowerOfTwo(g));
      g := g + 1;
      x.ParityOfValue();
      y.ParityOfValue();
    }
  }

  /** The number both inversions start from: this, or this mod p when negative. */
  method Start(self: BN, p: BN) returns (x: BN)
    requires self.Canon() && p.Canon() && p.negative == 0 && p.Value() > 0
    ensures fresh(x) && x.Canon() && x.Value() >= 0
    ensures x.Value() == if self.Value() < 0 then self.Value() % p.Value() else self.Value()
  {
    self.SignOfValue();
    DivMod(self.Value(), p.Value());
    x := self;
    if self.negative != 0 {
      x := UMod(self, p);
    }
    x := x.Clone();
  }

  /** The main loop of egcd: x + y falls every round and y stays positive. */
  method RunToEnd(r: Run) returns (ghost e: int, ghost f: int, ghost h: int, ghost k: int)
    requires r.Distinct() && r.Canonical() && r.Linked(1, 0, 0, 1)
    requires r.x.Value() >= 0 && r.y.Value() > 0
    modifies r.x, r.y, r.A, r.B, r.C, r.D
    ensures r.Canonical() && r.Linked(e, f, h, k)
    ensures r.x.Value() == 0 && r.y.Value() > 0
  {
    hide BN.Canon, BN.Value, BN.WF, BN.Mag, LinkedValues;
    var x := r.x;
    e, f, h, k := 1, 0, 0, 1;
    x.SignOfValue();
    while !x.IsZero()
      invariant r.Canonical() && r.Linked(e, f, h, k)
      invariant x.Value() >= 0 && r.y.Value() > 0
      invariant x.IsZero() <==> x.Value() == 0
      decreases x.Value() + r.y.Value()
    {
      e, f, h, k := StripBoth(r, e, f, h, k);
      e, f, h, k := SubtractSmaller(r, e, f, h, k);
      x.SignOfValue();
    }
  }

  /** The initial cofactors and the copies of the numbers they refer to. */
  method NewRun(x: BN, y: BN) returns (r: Run)
    requires x.Canon() && y.Canon() && x != y && x.Value() >= 0 && y.Value() > 0
    requires x.Value() % 2 == 1 || y.Value() % 2 == 1
    ensures r.x == x && r.y == y
    ensures fresh(r.A) && fresh(r.B) && fresh(r.C) && fresh(r.D) && fresh(r.xp) && fresh(r.yp)
    ensures r.Distinct() && r.Canonical() && r.Linked(1, 0, 0, 1)
    ensures r.xp.Value() == x.Value() && r.yp.Value() == y.Value()
  {
    hide BN.Canon, BN.Value, BN.WF, BN.Mag, BN.CleanTail, LinkedValues;
    var A := new BN.FromSmall(1);
    var B := new BN.FromSmall(0);
    var C := new BN.FromSmall(0);
    var D := new BN.FromSmall(1);
    var yp := y.Clone();
    var xp := x.Clone();
    xp.SignOfValue();
    yp.SignOfValue();
    LinkStart(x.Value(), y.Value());
    r := Run(x, y, A, B, C, D, xp, yp);
  }

  /** Cofactors and the greatest common divisor. */
  method EGcd(self: BN, p: BN) returns (a: BN, b: BN, gcd: BN)
    requires self.Canon() && p.Canon() && p.negative == 0 && p.Value() > 0
    ensures fresh(a) && a.Canon() && fresh(b) && b.Canon() && fresh(gcd) && gcd.Canon()
    ensures var x0 := if self.Value() < 0 then self.Value() % p.Value() else self.Value();
      a.Value() * x0 + b.Value() * p.Value() == gcd.Value() && IsGcd(gcd.Value(), x0, p.Value())
  {
    hide PowerOfTwo, BN.Canon, BN.Value, BN.WF, BN.Mag, BN.CleanTail, BN.IsZero, LinkedValues, IsGcd;
    var x := Start(self, p);
    var y := p.Clone();
    var g := StripCommonTwos(x, y);
    var r := NewRun(x, y);
    ghost var e, f, h, k := RunToEnd(r);
    LinkEnd(y.Value(), r.A.Value(), r.B.Value(), r.C.Value(), r.D.Value(), r.xp.Value(), r.yp.Value(),
      e, f, h, k, PowerOfTwo(g));
    y.IUShln(g);
    a, b, gcd := r.C, r.D, y;
  }

  lemma LinkStart(x: int, y: int)
    requires x % 2 == 1 || y % 2 == 1
    ensures LinkedValues(x, y, 1, 0, 0, 1, x, y, 1, 0, 0, 1)
  {
  }

  /** When x has run down to zero, y is the gcd of xp and yp, and scaled back that of the
      original numbers. */
  lemma LinkEnd(y: int, a: int, b: int, c: int, d: int, xp: int, yp: int, e: int, f: int, h: int, k: int, t: int)
    requires LinkedValues(0, y, a, b, c, d, xp, yp, e, f, h, k) && y > 0 && t > 0
    ensures c * (xp * t) + d * (yp * t) == y * t
    ensures IsGcd(y * t, xp * t, yp * t)
  {
    MulAssoc(c, xp, t);
    MulAssoc(d, yp, t);
    MulAdd(c * xp, d * yp, t);
    MulLe(1, y, t);
    assert xp * t == (y * t) * f by {
      MulComm(f, y);
      MulAssoc(y, f, t);
      MulComm(f, t);
      MulAssoc(y, t, f);
    }
    assert yp * t == (y * t) * k by {
      MulComm(k, y);
      MulAssoc(y, k, t);
      MulComm(k, t);
      MulAssoc(y, t, k);
    }
    GcdFromCombination(y * t, xp * t, yp * t, c, d, f, k);
  }

  /** One halving of a factor x1 modulo the odd number p. The ghost c is the multiple of p
      that x1 * t leaves out. */
  method HalveFactorOnce(x1: BN, p: BN, ghost t: int, ghost c: int) returns (ghost c': int)
    requires x1.Canon() && p.Canon() && x1 != p && p.negative == 0 && p.Value() % 2 == 1
    requires (x1.Value() * t + c * p.Value()) % 2 == 0 && 0 < p.Value()
    modifies x1
    ensures x1.Canon() && 2 * (x1.Value() * t + c' * p.Value()) == old(x1.Value() * t + c * p.Value())
    ensures 2 * Abs(x1.Value()) <= Abs(old(x1.Value())) + p.Value()
  {
    hide BN.Canon, BN.Value, BN.WF, BN.Mag, BN.IsOdd, Abs;
    ghost var x0 := x1.Value();
    x1.ParityOfValue();
    ghost var b := c;
    if x1.IsOdd() {
      x1.IAdd(p);
      b := c - t;
      x1.ParityOfValue();
    }
    ghost var a := x1.Value();
    x1.Halve();
    c' := b / 2;
    HalvedFactor(x0, c, a, b, x1.Value(), c', t, p.Value());
  }

  /** A factor x, made even by adding p if need be, and its half x'. */
  lemma HalvedFactor(x: int, c: int, a: int, b: int, x': int, c': int, t: int, p: int)
    requires (x * t + c * p) % 2 == 0 && p % 2 == 1 && 0 < p
    requires if x % 2 == 1 then a == x + p && b == c - t else a == x && b == c
    requires a == 2 * x' && c' == b / 2
    ensures 2 * (x' * t + c' * p) == x * t + c * p
    ensures 2 * Abs(x') <= Abs(x) + p
  {
    HalvingParity(x, c, t, p);
    EvenCofactor(x, c, t, p);
    HalfCombination(a, x', b, c', t, p);
  }

  /** Divides out up to 26 factors of two of a, halving its factor x1 as often. */
  method StripTwosModP(a: BN, x1: BN, p: BN, ghost t: int, ghost c: int)
    returns (ghost c': int, ghost k: int)
    requires a.Canon() && x1.Canon() && p.Canon() && a != x1 && a != p && x1 != p
    requires p.negative == 0 && p.Value() % 2 == 1 && a.Value() > 0
    requires x1.Value() * t + c * p.Value() == a.Value() && 0 < p.Value()
    modifies a, x1
    ensures a.Canon() && x1.Canon() && x1.Value() * t + c' * p.Value() == a.Value()
    ensures k >= 1 && old(a.Value()) == k * a.Value() && a.Value() > 0
    ensures old(a.Value()) % 2 == 1 ==> k == 1
    ensures old(a.Value()) % 2 == 0 ==> k >= 2
    ensures a.Value() % 2 == 0 ==> k >= BASE
    ensures Abs(x1.Value()) * k <= Abs(old(x1.Value())) + p.Value() * (k - 1)
  {
    hide PowerOfTwo, BN.Canon, BN.Value, BN.WF, BN.Mag, BN.IsOdd;
    a.SignOfValue();
    a.ParityOfValue();
    var i := a.LowZeroBits();
    k := PowerOfTwo(i);
    PowTwo26();
    PowerAtLeastTwo(i);
    PowerZero(1);
    c' := c;
    ghost var v := a.Value();
    if i > 0 {
      DivMod(v, k);
      a.IUShrn(i);
      a.SignOfValue();
      DivPositive(v, k);
      MulComm(k, a.Value());
    }
    PowerZero(a.Value());
    ghost var n, x0, pv := i, Abs(x1.Value()), p.Value();
    PowerZero(x0);
    while i > 0
      modifies x1
      invariant 0 <= i <= n <= 26 && x1.Canon()
      invariant x1.Value() * t + c' * pv == a.Value() * PowerOfTwo(i)
      invariant Abs(x1.Value()) * PowerOfTwo(n - i) <= x0 + pv * (PowerOfTwo(n - i) - 1)
    {
      i := i - 1;
      TwicePower(a.Value(), i);
      ghost var x := Abs(x1.Value());
      c' := HalveFactorOnce(x1, p, t, c');
      HalvedLimit(x, Abs(x1.Value()), x0, pv, PowerOfTwo(n - i - 1));
      TwicePower(1, n - i - 1);
    }
  }

  /** After j halvings that may each add p first, the factor x is below x0 / 2^j + p. */
  lemma HalvedLimit(x: int, x': int, x0: int, p: int, q: int)
    requires 2 * x' <= x + p && 0 < q && x * q <= x0 + p * (q - 1)
    ensures x' * (2 * q) <= x0 + p * (2 * q - 1)
  {
    MulLe(2 * x', x + p, q);
    MulAdd(x, p, q);
    MulAssoc(x', 2, q);
    MulComm(x', 2);
    MulSub(q, 1, p);
    MulSub(2 * q, 1, p);
    MulAssoc(p, 2, q);
    MulComm(p, 2);
    MulAssoc(2, p, q);
  }

  lemma EvenCofactor(a: int, b: int, x: int, y: int)
    requires (a * x + b * y) % 2 == 0 && y % 2 == 1
    ensures a % 2 == 0 ==> b % 2 == 0
  {
    ProductParity(a, x);
    ProductParity(b, y);
  }

  lemma HalfCombination(a: int, a': int, b: int, b': int, x: int, y: int)
    requires a == 2 * a' && b == 2 * b'
    ensures a * x + b * y == 2 * (a' * x + b' * y)
  {
    MulAssoc(2, a', x);
    MulAssoc(2, b', y);
  }

  lemma PowerAtLeastTwo(i: nat)
    ensures i > 0 ==> PowerOfTwo(i) >= 2
  {
    if i > 0 {
      PowPositive(2, i - 1);
    }
  }

  /** The limit of a factor after r rounds, in multiples of p. A factor that was just the
      result of a subtraction belongs to an even number, and is halved before the next one. */
  function FactorLimit(a: int, p: int, r: nat): int {
    if a % 2 == 0 then 2 * (p * (3 * r + 1)) else p * (3 * r + 1)
  }

  /** As many rounds as the limit is claimed for. */
  const MANY_ROUNDS := 0x200_0000

  /** How large the factors of an _invmp run can get: by three p every round. The number of
      rounds is limited because the product of the two numbers halves in each; n0 is the
      product they start with. */
  ghost predicate Bounded(a: int, b: int, x1: int, x2: int, p: int, n0: int, r: nat) {
    PowerOfTwo(r) <= 2 * n0 &&
    PowerOfTwo(r) * (a * b) <= (if a % 2 == 0 || b % 2 == 0 then 2 * n0 else n0) &&
    (3 * r + 1 <= MANY_ROUNDS ==> Abs(x1) <= FactorLimit(a, p, r) && Abs(x2) <= FactorLimit(b, p, r))
  }

  /** After both numbers lost their zero bits. A number that is still even has lost 26 of
      them, and its factor has been halved as often. */
  ghost predicate TightlyBounded(a: int, b: int, x1: int, x2: int, p: int, n0: int, r: nat) {
    PowerOfTwo(r) * (a * b) <= n0 &&
    (a % 2 == 0 || b % 2 == 0 ==> 2 * (PowerOfTwo(r) * (a * b)) <= n0) &&
    (3 * r + 1 <= MANY_ROUNDS ==> StrippedLimit(a, x1, p, r) && StrippedLimit(b, x2, p, r))
  }

  predicate StrippedLimit(a: int, x: int, p: int, r: nat) {
    Abs(x) <= p * (3 * r + 1) + p && (a % 2 == 0 ==> Abs(x) <= 2 * p)
  }

  lemma FactorStripped(a: int, a': int, x: int, x': int, k: int, p: int, r: nat)
    requires p > 0 && 3 * r + 1 <= MANY_ROUNDS && Abs(x) <= FactorLimit(a, p, r)
    requires k >= 1 && (if a % 2 == 0 then k >= 2 else k == 1) && (a' % 2 == 0 ==> k >= BASE)
    requires Abs(x') * k <= Abs(x) + p * (k - 1)
    ensures StrippedLimit(a', x', p, r)
  {
    var l, y := p * (3 * r + 1), Abs(x');
    MulSub(k, 1, p);
    MulSub(y, p, k);
    MulComm(p, k);
    assert (y - p) * k <= Abs(x) - p;
    MulLe(1, 3 * r + 1, p);
    MulLe(3 * r + 1, MANY_ROUNDS, p);
    if a % 2 == 0 && y > l + p {
      MulLe(l + 1, y - p, k);
      MulLe(2, k, l + 1);
    }
    if a' % 2 == 0 && y > 2 * p {
      MulLe(p + 1, y - p, k);
      MulLe(BASE, k, p + 1);
    }
  }

  lemma StripBounds(a: int, b: int, a': int, b': int, k1: int, k2: int, w: int, n0: int)
    requires a > 0 && b > 0 && a' > 0 && b' > 0 && w >= 1 && (a % 2 == 1 || b % 2 == 1)
    requires a == k1 * a' && b == k2 * b' && k1 >= 1 && k2 >= 1
    requires (if a % 2 == 0 then k1 >= 2 else k1 == 1) && (if b % 2 == 0 then k2 >= 2 else k2 == 1)
    requires (a' % 2 == 0 ==> k1 >= BASE) && (b' % 2 == 0 ==> k2 >= BASE)
    requires w * (a * b) <= if a % 2 == 0 || b % 2 == 0 then 2 * n0 else n0
    ensures w * (a' * b') <= n0
    ensures a' % 2 == 0 || b' % 2 == 0 ==> 2 * (w * (a' * b')) <= n0
  {
    var k, m := if a % 2 == 0 then k1 else k2, w * (a' * b');
    // only one of them was even, so a * b == k * (a' * b')
    assert a * b == k * (a' * b') by {
      if a % 2 == 0 {
        MulAssoc(k1, a', b');
      } else {
        MulAssoc(a', k2, b');
        MulComm(a', k2);
        MulAssoc(k2, a', b');
      }
    }
    MulAssoc(w, k, a' * b');
    MulComm(w, k);
    MulAssoc(k, w, a' * b');
    MulLe(0, a', b');
    MulLe(0, a' * b', w);
    if k >= 2 {
      MulLe(2, k, m);
    }
    if k >= BASE {
      MulLe(BASE, k, m);
    }
  }

  /** A subtraction: its result is even, or the factor subtracted or subtracted from is small. */
  lemma FactorSubtracted(a: int, b: int, x1: int, x2: int, p: int, r: nat)
    requires p > 0 && StrippedLimit(a, x1, p, r) && StrippedLimit(b, x2, p, r)
    ensures Abs(x1 - x2) <= FactorLimit(a - b, p, r + 1) && Abs(x2) <= FactorLimit(b, p, r + 1)
  {
    MulAdd(3 * r + 1, 3, p);
    MulLe(1, 3 * r + 1, p);
  }

  lemma SubtractBounds(a: int, b: int, x1: int, x2: int, p: int, n0: int, r: nat)
    requires TightlyBounded(a, b, x1, x2, p, n0, r) && a >= b > 0 && p > 0
    ensures Bounded(a - b, b, x1 - x2, x2, p, n0, r + 1)
  {
    hide PowerOfTwo, StrippedLimit, FactorLimit;
    var w := PowerOfTwo(r);
    TwicePower(1, r);
    ProductShrinks(a, b, w);
    ParityBound(a, b, w * (a * b), (2 * w) * ((a - b) * b), n0);
    if 3 * (r + 1) + 1 <= MANY_ROUNDS {
      FactorSubtracted(a, b, x1, x2, p, r);
    }
  }

  lemma ParityBound(a: int, b: int, m: int, x: int, n0: int)
    requires 0 <= m <= n0 && (a % 2 == 0 || b % 2 == 0 ==> 2 * m <= n0) && x <= 2 * m
    ensures x <= if (a - b) % 2 == 0 || b % 2 == 0 then 2 * n0 else n0
  {
  }

  lemma ProductShrinks(a: int, b: int, w: int)
    requires a >= b > 0 && w >= 1
    ensures (2 * w) * ((a - b) * b) <= 2 * (w * (a * b)) && w <= w * (a * b)
  {
    MulLe(1, a, b);
    MulLe(1, a * b, w);
    MulLe(a - b, a, b);
    MulLe((a - b) * b, a * b, w);
    MulAssoc(2, w, (a - b) * b);
  }

  /** The numbers of an _invmp run, all different objects. */
  datatype FieldRun = FieldRun(a: BN, b: BN, x1: BN, x2: BN, delta: BN) {
    ghost predicate Distinct() {
      a != b && a != x1 && a != x2 && a != delta &&
      b != x1 && b != x2 && b != delta && x1 != x2 && x1 != delta && x2 != delta
    }

    ghost predicate Canonical()
      reads a, b, x1, x2, delta
    {
      a.Canon() && b.Canon() && x1.Canon() && x2.Canon() && delta.Canon() &&
      delta.negative == 0 && delta.Value() % 2 == 1
    }

    /** x1 * t is a and x2 * t is b modulo p; the ghost numbers complete the picture as
        they do for egcd. */
    ghost predicate Linked(t: int, g: Ghosts)
      reads a, b, x1, x2, delta
    {
      LinkedValues(a.Value(), b.Value(), x1.Value(), g.c1, x2.Value(), g.c2, t, delta.Value(), g.e, g.f, g.h, g.k)
    }

    ghost predicate Limited(n0: int, g: Ghosts)
      reads a, b, x1, x2, delta
    {
      Bounded(a.Value(), b.Value(), x1.Value(), x2.Value(), delta.Value(), n0, g.r)
    }

    ghost predicate TightlyLimited(n0: int, g: Ghosts)
      reads a, b, x1, x2, delta
    {
      TightlyBounded(a.Value(), b.Value(), x1.Value(), x2.Value(), delta.Value(), n0, g.r)
    }
  }

  datatype Ghosts = Ghosts(c1: int, c2: int, e: int, f: int, h: int, k: int, r: nat)

  /** First half of a round of _invmp. */
  method StripBothModP(r: FieldRun, ghost t: int, ghost n0: int, ghost g: Ghosts) returns (ghost g': Ghosts)
    requires r.Distinct() && r.Canonical() && r.a.Value() > 0 && r.b.Value() > 0 && r.delta.Value() > 0
    requires r.Linked(t, g) && r.Limited(n0, g)
    modifies r.a, r.b, r.x1, r.x2
    ensures r.Canonical() && r.Linked(t, g') && r.TightlyLimited(n0, g')
    ensures 0 < r.a.Value() <= old(r.a.Value()) && 0 < r.b.Value() <= old(r.b.Value())
  {
    hide BN.Canon, BN.Value, BN.WF, BN.Mag;
    var FieldRun(a, b, x1, x2, delta) := r;
    ghost var Ghosts(c1, c2, e, f, h, k, n) := g;
    ghost var av, bv, x1v, x2v := a.Value(), b.Value(), x1.Value(), x2.Value();
    ghost var c1', k1 := StripTwosModP(a, x1, delta, t, c1);
    ghost var c2', k2 := StripTwosModP(b, x2, delta, t, c2);
    StripBounds(av, bv, a.Value(), b.Value(), k1, k2, PowerOfTwo(n), n0);
    if 3 * n + 1 <= MANY_ROUNDS {
      FactorStripped(av, a.Value(), x1v, x1.Value(), k1, delta.Value(), n);
      FactorStripped(bv, b.Value(), x2v, x2.Value(), k2, delta.Value(), n);
    }
    ScaleLink(t, e, f, a.Value(), b.Value(), k1, k2);
    ScaleLink(delta.Value(), h, k, a.Value(), b.Value(), k1, k2);
    MulLe(1, k1, a.Value());
    MulLe(1, k2, b.Value());
    g' := Ghosts(c1', c2', e * k1, f * k2, h * k1, k * k2, n);
  }

  /** Second half. */
  method SubtractSmallerModP(r: FieldRun, ghost t: int, ghost n0: int, ghost g: Ghosts) returns (ghost g': Ghosts)
    requires r.Distinct() && r.Canonical() && r.a.Value() > 0 && r.b.Value() > 0 && r.delta.Value() > 0
    requires r.Linked(t, g) && r.TightlyLimited(n0, g)
    modifies r.a, r.b, r.x1, r.x2
    ensures r.Canonical() && r.Linked(t, g') && r.Limited(n0, g')
    ensures r.a.Value() >= 0 && r.b.Value() > 0
    ensures r.a.Value() + r.b.Value() < old(r.a.Value() + r.b.Value())
  {
    hide BN.Canon, BN.Value, BN.WF, BN.Mag, LinkedValues, Bounded, TightlyBounded;
    var FieldRun(a, b, x1, x2, delta) := r;
    ghost var Ghosts(c1, c2, e, f, h, k, n) := g;
    ghost var p := delta.Value();
    a.SignOfValue();
    b.SignOfValue();
    var cmp := a.Cmp(b);
    if cmp >= 0 {
      SubtractLink(a.Value(), b.Value(), x1.Value(), c1, x2.Value(), c2, t, p, e, f, h, k);
      SubtractBounds(a.Value(), b.Value(), x1.Value(), x2.Value(), p, n0, n);
      a.ISub(b);
      x1.ISub(x2);
      g' := Ghosts(c1 - c2, c2, e, e + f, h, h + k, n + 1);
    } else {
      SwapLink(a.Value(), b.Value(), x1.Value(), c1, x2.Value(), c2, t, p, e, f, h, k);
      SubtractLink(b.Value(), a.Value(), x2.Value(), c2, x1.Value(), c1, t, p, f, e, k, h);
      SwapBounds(a.Value(), b.Value(), x1.Value(), x2.Value(), p, n0, n);
      SubtractBounds(b.Value(), a.Value(), x2.Value(), x1.Value(), p, n0, n);
      b.ISub(a);
      x2.ISub(x1);
      g' := Ghosts(c1, c2 - c1, f + e, f, k + h, k, n + 1);
      SwapLink(a.Value(), b.Value(), x1.Value(), c1, x2.Value(), c2 - c1, t, p, f + e, f, k + h, k);
      SwapBounds(a.Value(), b.Value(), x1.Value(), x2.Value(), p, n0, n + 1);
    }
  }

  lemma SwapBounds(a: int, b: int, x1: int, x2: int, p: int, n0: int, r: nat)
    ensures Bounded(a, b, x1, x2, p, n0, r) == Bounded(b, a, x2, x1, p, n0, r)
    ensures TightlyBounded(a, b, x1, x2, p, n0, r) == TightlyBounded(b, a, x2, x1, p, n0, r)
  {
    MulComm(a, b);
  }

  /** The loop of _invmp, until one of the numbers is at most one. */
  method RunModP(r: FieldRun, ghost t: int, ghost n0: int, ghost g0: Ghosts) returns (ghost g: Ghosts)
    requires r.Distinct() && r.Canonical() && r.a.Value() >= 0 && r.b.Value() > 0 && r.delta.Value() > 0
    requires r.Linked(t, g0) && (r.a.Value() > 0 ==> r.Limited(n0, g0))
    modifies r.a, r.b, r.x1, r.x2
    ensures r.Canonical() && r.Linked(t, g) && (old(r.a.Value()) > 0 ==> r.Limited(n0, g))
    ensures old(r.a.Value()) == 0 ==> r.x2.Unchanged()
    ensures r.a.Value() >= 0 && r.b.Value() > 0 && (r.a.Value() <= 1 || r.b.Value() <= 1)
    ensures old(r.a.Value()) == 0 ==> r.a.Value() == 0
  {
    hide BN.Canon, BN.Value, BN.WF, BN.Mag, LinkedValues, Bounded, TightlyBounded;
    g := g0;
    var ca := r.a.Cmpn(1);
    var cb := r.b.Cmpn(1);
    while ca > 0 && cb > 0
      invariant r.Canonical() && r.Linked(t, g) && (old(r.a.Value()) > 0 ==> r.Limited(n0, g))
      invariant r.a.Value() >= 0 && r.b.Value() > 0
      invariant (ca > 0 <==> r.a.Value() > 1) && (cb > 0 <==> r.b.Value() > 1)
      invariant old(r.a.Value()) == 0 ==> r.a.Value() == 0 && r.x2.Unchanged()
      decreases r.a.Value() + r.b.Value()
    {
      g := StripBothModP(r, t, n0, g);
      g := SubtractSmallerModP(r, t, n0, g);
      ca := r.a.Cmpn(1);
      cb := r.b.Cmpn(1);
    }
  }

  /** A factor that takes this to its gcd with an odd p, modulo p: the inverse, where the
      two have no common factor. It may lie outside [0, p), but not far: by about the bits
      of the two numbers. */
  method InvMp(self: BN, p: BN, ghost bits: nat) returns (res: BN, ghost g: int)
    requires self.Canon() && p.Canon() && p.negative == 0 && p.Value() % 2 == 1 && p.Value() > 0
    ensures fresh(res) && res.Canon()
    ensures IsGcd(g, self.Value(), p.Value()) && (res.Value() * self.Value()) % p.Value() == g % p.Value()
    ensures var t := if self.Value() < 0 then self.Value() % p.Value() else self.Value();
      2 * (t * p.Value()) < PowerOfTwo(bits) && 3 * bits <= MANY_ROUNDS ==>
        Abs(res.Value()) <= p.Value() * (6 * bits + 1)
  {
    hide BN.Canon, BN.Value, BN.WF, BN.Mag, BN.CleanTail, BN.IsZero, LinkedValues, IsGcd;
    p.SignOfValue();
    var r := NewFieldRun(self, p);
    ghost var t, n0, pv := r.a.Value(), r.a.Value() * p.Value(), p.Value();
    ghost var link := RunModP(r, t, n0, Ghosts(0, 1, 1, 0, 0, 1, 0));
    g := FactorFound(r.a.Value(), r.b.Value(), r.x1.Value(), r.x2.Value(), t, self.Value(), pv, link);
    if 2 * n0 < PowerOfTwo(bits) && 3 * bits <= MANY_ROUNDS {
      RoundsBound(r.a.Value(), r.b.Value(), r.x1.Value(), r.x2.Value(), pv, n0, link.r, t, bits);
    }
    var ca := r.a.Cmpn(1);
    if ca == 0 {
      res := r.x1;
    } else {
      res := r.x2;
    }
    var neg := res.Cmpn(0);
    if neg < 0 {
      ModAddMultiple(res.Value() * self.Value(), self.Value(), pv);
      MulAdd(res.Value(), pv, self.Value());
      MulComm(pv, self.Value());
      res.IAdd(p);
    }
  }

  /** The rounds there can have been, and with them the limits. */
  lemma RoundsBound(a: int, b: int, x1: int, x2: int, p: int, n0: int, r: nat, t: int, bits: nat)
    requires p > 0 && n0 == t * p && t >= 0 && (if t > 0 then Bounded(a, b, x1, x2, p, n0, r) else x2 == 0)
    requires 2 * n0 < PowerOfTwo(bits) && 3 * bits <= MANY_ROUNDS
    ensures t > 0 ==> Abs(x1) <= p * (6 * bits) && Abs(x2) <= p * (6 * bits)
    ensures p * (6 * bits) >= 0 && p * (6 * bits + 1) == p * (6 * bits) + p
  {
    hide PowerOfTwo;
    MulLe(0, 6 * bits, p);
    MulAdd(6 * bits, 1, p);
    if t > 0 {
      if r >= bits {
        PowMonotone(2, bits, r);
      }
      MulLe(2 * (3 * r + 1), 6 * bits, p);
      MulLe(3 * r + 1, 6 * bits, p);
      MulAssoc(2, p, 3 * r + 1);
      MulComm(2, p);
      MulAssoc(p, 2, 3 * r + 1);
    }
  }

  method NewFieldRun(self: BN, p: BN) returns (r: FieldRun)
    requires self.Canon() && p.Canon() && p.negative == 0 && p.Value() % 2 == 1 && p.Value() > 0
    ensures fresh(r.a) && fresh(r.b) && fresh(r.x1) && fresh(r.x2) && fresh(r.delta)
    ensures r.Distinct() && r.Canonical() && r.delta.Value() == p.Value() && r.b.Value() > 0
    ensures r.a.Value() == if self.Value() < 0 then self.Value() % p.Value() else self.Value()
    ensures r.a.Value() >= 0 && r.x2.Value() == 0
    ensures r.Linked(r.a.Value(), Ghosts(0, 1, 1, 0, 0, 1, 0))
    ensures r.a.Value() > 0 ==> r.Limited(r.a.Value() * p.Value(), Ghosts(0, 1, 1, 0, 0, 1, 0))
  {
    hide BN.Canon, BN.Value, BN.WF, BN.Mag, BN.CleanTail, BN.IsZero, LinkedValues;
    p.SignOfValue();
    var a := Start(self, p);
    var b := p.Clone();
    var x1 := new BN.FromSmall(1);
    var x2 := new BN.FromSmall(0);
    var delta := b.Clone();
    delta.SignOfValue();
    LinkStart(a.Value(), p.Value());
    if a.Value() > 0 {
      MulLe(1, a.Value(), p.Value());
    }
    r := FieldRun(a, b, x1, x2, delta);
  }

  /** When the loop ends one of a and b is one, or a is zero and b the common divisor of the
      original numbers. */
  lemma FactorFound(a: int, b: int, x1: int, x2: int, t: int, x: int, p: int, link: Ghosts) returns (g: int)
    requires LinkedValues(a, b, x1, link.c1, x2, link.c2, t, p, link.e, link.f, link.h, link.k)
    requires a >= 0 && b > 0 && (a <= 1 || b <= 1) && p > 0
    requires t == (if x < 0 then x % p else x)
    ensures IsGcd(g, x, p)
    ensures a == 1 ==> (x1 * x) % p == g % p
    ensures a != 1 ==> (x2 * x) % p == g % p
  {
    hide IsGcd;
    if a == 1 {
      g := 1;
      GcdModP(1, x1, link.c1, t, x, p, t, p);
    } else if a == 0 {
      g := b;
      MulComm(link.f, b);
      MulComm(link.k, b);
      GcdModP(b, x2, link.c2, t, x, p, link.f, link.k);
    } else {
      g := 1;
      GcdModP(1, x2, link.c2, t, x, p, t, p);
    }
  }

  /** A common divisor g of t and p that y takes t to modulo p, for a number x that is t
      modulo p. */
  lemma GcdModP(g: int, y: int, c: int, t: int, x: int, p: int, f: int, k: int)
    requires p > 0 && g > 0 && y * t + c * p == g && t == g * f && p == g * k
    requires t == (if x < 0 then x % p else x)
    ensures IsGcd(g, x, p) && (y * x) % p == g % p
  {
    hide IsGcd;
    DivMod(x, p);
    var q := if x < 0 then x / p else 0;
    assert x == q * p + t;
    MulAssoc(q, k, g);
    MulComm(k, g);
    MulComm(q * k, g);
    MulAdd(q * k, f, g);
    assert x == g * (q * k + f);
    MulAdd(q * p, t, y);
    MulAssoc(y, q, p);
    MulSub(c, y * q, p);
    GcdFromCombination(g, x, p, y, c - y * q, q * k + f, k);
    ModShift(y, x, t, p);
    assert (-c) * p == -(c * p);
    ModAddMultiple(g, -c, p);
  }

  lemma ModShift(y: int, x: int, t: int, p: int)
    requires p > 0 && t == (if x < 0 then x % p else x)
    ensures (y * x) % p == (y * t) % p
  {
    MulComm(y, x);
    MulComm(y, x % p);
    ModMul(x, y, p);
  }

  /** Numbers with an integer combination that is one have no other common divisor. */
  lemma CoprimeGcd(g: int, x: int, p: int, u: int, v: int)
    requires IsGcd(g, x, p) && u * x + v * p == 1
    ensures g == 1
  {
    var f: int :| x == g * f;
    var k: int :| p == g * k;
    MulComm(g, f);
    MulComm(g, k);
    MulAssoc(u, f, g);
    MulAssoc(v, k, g);
    MulAdd(u * f, v * k, g);
    UnitFactor(u * f + v * k, g);
  }

  lemma UnitFactor(x: int, b: int)
    requires b > 0 && x * b == 1
    ensures b == 1
  {
    if x <= 0 {
      MulLe(x, 0, b);
    } else {
      MulLe(1, x, b);
    }
  }

  /** egcd(num).a modulo num: a factor in [0, num) that takes this to its gcd with num. */
  method InvM(self: BN, num: BN) returns (r: BN, ghost g: int)
    requires self.Canon() && num.Canon() && num.negative == 0 && num.Value() > 0
    ensures r.Canon() && 0 <= r.Value() < num.Value()
    ensures IsGcd(g, self.Value(), num.Value()) && (r.Value() * self.Value()) % num.Value() == g % num.Value()
  {
    hide BN.Canon, BN.Value, BN.WF, BN.Mag, BN.CleanTail, IsGcd;
    var a, b, gcd := EGcd(self, num);
    ghost var x, n := self.Value(), num.Value();
    ghost var t := if x < 0 then x % n else x;
    g := gcd.Value();
    GcdShift(g, x, t, n);
    CombinationModP(a.Value(), b.Value(), g, t, x, n);
    ghost var y := a.Value();
    r := UMod(a, num);
    DivMod(y, n);
    ModMul(y, x, n);
  }

  lemma CombinationModP(y: int, c: int, g: int, t: int, x: int, p: int)
    requires p > 0 && y * t + c * p == g && t == (if x < 0 then x % p else x)
    ensures (y * x) % p == g % p
  {
    ModShift(y, x, t, p);
    assert (-c) * p == -(c * p);
    ModAddMultiple(g, -c, p);
  }

  lemma GcdShift(g: int, x: int, t: int, p: int)
    requires p > 0 && IsGcd(g, t, p) && t == (if x < 0 then x % p else x)
    ensures IsGcd(g, x, p)
  {
    DivMod(x, p);
    var q := if x < 0 then x / p else 0;
    ShiftedDivisor(g, t, p, q);
    forall d: int | Divides(d, x) && Divides(d, p)
      ensures Divides(d, g)
    {
      ShiftedDivisor(d, x, p, -q);
      MulSub(0, q, p);
      assert Divides(d, t);
    }
  }

  lemma ShiftedDivisor(d: int, x: int, p: int, q: int)
    requires Divides(d, x) && Divides(d, p)
    ensures Divides(d, x + q * p)
  {
    var m: int :| x == d * m;
    var n: int :| p == d * n;
    MulAssoc(q, d, n);
    MulComm(q, d);
    MulAssoc(d, q, n);
    MulAdd(m, q * n, d);
    assert x + q * p == d * (m + q * n);
  }
}
