/** The Montgomery engine: residues scaled by R = 2^shift, products reduced by exact
    division by R. */
module Montgomery {
  import opened Arith
  import opened JsNumber
  import opened Limbs
  import opened BigNum
  import opened Division
  import opened Multiplication
  import Gcd
  import K256

  /** A power of two and an odd number have an integer combination that is one. */
  lemma {:induction false} OddCoprime(k: nat, m: int) returns (u: int, v: int)
    requires m % 2 == 1
    ensures u * PowerOfTwo(k) + v * m == 1
  {
    if k == 0 {
      u, v := 1, 0;
    } else {
      u, v := OddCoprime(k - 1, m);
      var t := PowerOfTwo(k - 1);
      assert PowerOfTwo(k) == 2 * t;
      hide PowerOfTwo;
      u, v := HalvedCofactors(u, v, t, m);
    }
  }

  lemma HalvedCofactors(u: int, v: int, t: int, m: int) returns (u': int, v': int)
    requires m % 2 == 1 && u * t + v * m == 1
    ensures u' * (2 * t) + v' * m == 1
  {
    u', v' := u, v;
    if u % 2 == 1 {
      MulAdd(u, m, t);
      MulSub(v, t, m);
      MulComm(t, m);
      u', v' := u + m, v - t;
    }
    assert u' % 2 == 0 && u' * t + v' * m == 1;
    u' := Halved(u', t);
  }

  lemma Halved(u: int, t: int) returns (h: int)
    requires u % 2 == 0
    ensures h * (2 * t) == u * t
  {
    h := u / 2;
    MulAssoc(h, 2, t);
    MulComm(h, 2);
  }

  /** What the constructor sets up for modulus m, R, its inverse and the inverse of m. */
  ghost predicate Constants(m: int, R: int, r2: int, rinv: int, minv: int) {
    1 < m < R && 0 <= r2 < m && r2 == (R * R) % m &&
    (rinv * R) % m == 1 && (minv * m) % R == 1 && 0 <= minv <= R
  }

  /** minv = R - ((rinv * R - 1) / m mod R) inverts m modulo R. */
  lemma MinvInverts(m: int, R: int, rinv: int, k: int)
    requires 1 < m < R && rinv * R - 1 == k * m
    ensures ((R - k % R) * m) % R == 1 && 0 <= R - k % R <= R
  {
    DivMod(k, R);
    MulSub(R, k % R, m);
    var j := k / R;
    MulAdd(j * R, k % R, m);
    MulAssoc(j, R, m);
    MulComm(R, m);
    MulAssoc(j, m, R);
    // (R - k % R) * m == m * R - k * m + j * m * R == (m + j * m - rinv) * R + 1
    MulAdd(m, j * m, R);
    MulSub(m + j * m, rinv, R);
    ModAddMultiple(1, m + j * m - rinv, R);
    ModSmall(1, R);
  }

  /** What a Montgomery reduction subtracts makes t divisible by R. */
  lemma SubtrahendMatches(t: int, m: int, R: int, minv: int)
    requires 1 < R && (minv * m) % R == 1
    ensures ((((t % R) * minv) % R) * m) % R == t % R
  {
    var x := (t % R) * minv;
    ModMul(x, m, R);
    MulAssoc(t % R, minv, m);
    ModMulBoth(t % R, minv * m, R);
    ModTwice(t, R);
  }

  /** The exact quotient is off by at most one modulus. */
  lemma QuotientRange(t: int, m: int, R: int, x: int, u: int)
    requires 1 < m < R && 0 <= t < m * m && 0 <= x < R
    requires t - x * m == u * R
    ensures -m < u < m
  {
    MulLe(0, x, m);
    MulLe(m, R, m);
    MulComm(R, m);
    MulCancelLt(u, m, R);
    MulLt(x, R, m);
    MulSub(0, m, R);
    MulCancelLt(-m, u, R);
  }

  /** A Montgomery reduction: t - c is an exact multiple of R, and the quotient u lies in
      (-m, m) and is t divided by R modulo m. */
  lemma ExactReduction(t: int, m: int, R: int, minv: int, c: int) returns (u: int)
    requires 1 < m < R && 0 <= t < m * m && (minv * m) % R == 1
    requires c == (((t % R) * minv) % R) * m
    ensures t - c == u * R && -m < u < m
    ensures (u * R) % m == t % m
  {
    var x := ((t % R) * minv) % R;
    DivMod((t % R) * minv, R);
    SubtrahendMatches(t, m, R, minv);
    u := ModDiff(t, c, R);
    QuotientRange(t, m, R, x, u);
    MulSub(0, x, m);
    ModAddMultiple(t, -x, m);
  }

  /** Dividing by R modulo m is multiplying by its inverse. */
  lemma DivideByR(u: int, t: int, m: int, R: int, rinv: int)
    requires 1 < m && (rinv * R) % m == 1 && (u * R) % m == t % m
    ensures u % m == (t * rinv) % m
  {
    ModMul(u * R, rinv, m);
    ModMul(t, rinv, m);
    MulAssoc(u, R, rinv);
    MulComm(R, rinv);
    ModMulBoth(u, rinv * R, m);
    ModTwice(u, m);
  }

  lemma ExactQuotient(k: int, m: int)
    requires 0 < m
    ensures Quot(k * m, m) == k
  {
    TruncatedDivision(k * m, m, k, 0);
  }

  /** With moduli up to here R^2, and every other product, stays below 1024 limbs. */
  const MONT_LIMBS := 510

  function InverseBits(n: nat): nat {
    52 * n + 2
  }

  /** An inverse modulo m of a number up to R has at most one limb more than m. */
  lemma InverseBound(m: int, t: int, n: nat)
    requires 0 < m < P(n) && 0 <= t <= P(n) && n <= MONT_LIMBS
    ensures 2 * (t * m) < PowerOfTwo(InverseBits(n)) && 3 * InverseBits(n) <= Gcd.MANY_ROUNDS
    ensures m * (6 * InverseBits(n) + 1) < P(n + 1)
  {
    hide P, PowerOfTwo, Pow;
    var R, e := P(n), 6 * InverseBits(n) + 1;
    MulLe(t, R, m);
    MulLe(m, R, R);
    MulLe(1, R, R);
    PPow2(n);
    PowAdd(2, 26 * n, 26 * n);
    Gcd.TwicePower(1, 52 * n);
    Gcd.TwicePower(1, 52 * n + 1);
    MulLt(m, R, e);
    MulLe(e, BASE, R);
    MulComm(R, e);
    PStep(n);
  }

  class Mont {
    const m: BN
    const shift: nat
    const r: BN
    const r2: BN
    const rinv: BN
    const minv: BN

    ghost predicate Valid()
      reads this, m, r, r2, rinv, minv
    {
      && m.Canon() && m.negative == 0 && m.Value() > 1 && m.Value() % 2 == 1 && m.length <= MONT_LIMBS
      && shift == 26 * m.length && r.Canon() && r.Value() == PowerOfTwo(shift)
      && r2.Canon() && r2.negative == 0 && rinv.Canon() && rinv.length <= m.length + 1
      && minv.Canon() && minv.negative == 0 && minv.Value() <= r.Value()
      && Constants(m.Value(), r.Value(), r2.Value(), rinv.Value(), minv.Value())
    }

    ghost predicate Residue(a: BN)
      reads this, m, a
    {
      IsResidue(a, m)
    }

    /** t / R modulo m */
    ghost function DividedByR(t: int): int
      requires Valid()
      reads this, m, r, r2, rinv, minv
    {
      (t * rinv.Value()) % m.Value()
    }

    lemma ZeroByR()
      requires Valid()
      ensures DividedByR(0) == 0 && 0 % m.Value() == 0
    {
      ModSmall(0, m.Value());
    }

    constructor (m: BN)
      requires m.Canon() && m.negative == 0 && m.Value() > 1 && m.length <= MONT_LIMBS && m.Value() % 2 == 1
      ensures Valid() && this.m == m
    {
      var bits := Shift(m);
      var R := PowerOfR(bits, m);
      var square := Multiplication.Mul(R, R);
      var rr := ToResidue(square, m);
      var inverse := InverseOfR(R, m);
      var mi := InverseOfM(inverse, R, m);
      this.m, shift, r, r2, rinv, minv := m, bits, R, rr, inverse, mi;
      new;
    }

    /** The bit length rounded up to whole limbs. */
    static method Shift(m: BN) returns (bits: nat)
      requires m.Canon() && m.Value() > 1
      ensures bits == 26 * m.length
    {
      hide BN.Canon, BN.Mag, BN.WF, BN.IsZero, PowerOfTwo, At, CountBits;
      m.SignOfValue();
      m.TopOfNonzero();
      bits := m.BitLength();
      TopBits(m, bits);
      if bits % 26 != 0 {
        bits := bits + (26 - bits % 26);
      }
    }

    static lemma TopBits(m: BN, bits: nat)
      requires m.WF() && At(m.words, m.length - 1) != 0
      requires bits == (m.length - 1) * 26 + CountBits(At(m.words, m.length - 1))
      ensures 26 * (m.length - 1) < bits <= 26 * m.length
    {
      hide PowerOfTwo;
      K256.TopBitsAtMost26(At(m.words, m.length - 1), CountBits(At(m.words, m.length - 1)));
    }

    static method PowerOfR(shift: nat, m: BN) returns (r: BN)
      requires m.Canon() && m.negative == 0 && m.Value() > 1 && shift == 26 * m.length
      ensures fresh(r) && r.Canon() && r.negative == 0 && r.Value() == PowerOfTwo(shift) == P(m.length)
      ensures r.length == m.length + 1 && m.Value() < r.Value()
    {
      hide P, PowerOfTwo, Pow;
      r := new BN.FromSmall(1);
      r.IUShln(shift);
      PPow2(m.length);
      m.ZeroMag();
      PMonotone(m.length, m.length + 1);
      PStep(m.length);
      LengthFromValue(r.words, r.length, m.length + 1);
    }

    /** r._invmp(m) */
    static method InverseOfR(r: BN, m: BN) returns (rinv: BN)
      requires m.Canon() && m.negative == 0 && m.Value() > 1 && m.Value() % 2 == 1
      requires r.Canon() && r.negative == 0 && r.Value() == PowerOfTwo(26 * m.length) == P(m.length)
      requires m.Value() < r.Value() && m.length <= MONT_LIMBS
      ensures fresh(rinv) && rinv.Canon() && rinv.length <= m.length + 1
      ensures (rinv.Value() * r.Value()) % m.Value() == 1
    {
      hide BN.Canon, BN.Mag, PowerOfTwo, P;
      ghost var u, v := OddCoprime(26 * m.length, m.Value());
      InverseBound(m.Value(), r.Value(), m.length);
      ghost var g: int;
      rinv, g := Gcd.InvMp(r, m, InverseBits(m.length));
      Gcd.CoprimeGcd(g, r.Value(), m.Value(), u, v);
      ModSmall(1, m.Value());
      rinv.SignOfValue();
      rinv.LengthAtMost(m.length + 1);
    }

    /** r - ((rinv * r - 1) / m) mod r */
    static method InverseOfM(rinv: BN, r: BN, m: BN) returns (minv: BN)
      requires m.Canon() && m.negative == 0 && m.Value() > 1 && m.length <= MONT_LIMBS
      requires r.Canon() && r.negative == 0 && m.Value() < r.Value() && r.length == m.length + 1
      requires rinv.Canon() && rinv.length <= m.length + 1
      requires (rinv.Value() * r.Value()) % m.Value() == 1
      ensures fresh(minv) && minv.Canon() && minv.negative == 0
      ensures (minv.Value() * m.Value()) % r.Value() == 1 && 0 <= minv.Value() <= r.Value()
    {
      hide BN.Canon, BN.Mag, PowerOfTwo, P;
      ghost var mv, rv := m.Value(), r.Value();
      m.SignOfValue();
      r.SignOfValue();
      var x := Multiplication.Mul(rinv, r);
      x.ISubn(1);
      ModSmall(1, mv);
      ghost var k := ModDiff(rinv.Value() * rv, 1, mv);
      ExactQuotient(k, mv);
      MinvInverts(mv, rv, rinv.Value(), k);
      var d, _ := DivideBy(x, m, DivOnly, false);
      d := UMod(d, r);
      minv := r.Sub(d);
      minv.SignOfValue();
    }

    /** c = ((t mod R) * minv mod R) * m */
    method Subtrahend(t: BN) returns (c: BN)
      requires Valid() && t.Canon() && t.negative == 0
      ensures fresh(c) && c.Canon() && c.negative == 0
      ensures c.Value() == (((t.Value() % r.Value()) * minv.Value()) % r.Value()) * m.Value()
    {
      hide BN.Canon, BN.Mag, BN.WF, PowerOfTwo, P, Pow;
      ModulusLengths();
      DivMod(t.Value(), r.Value());
      var low := t.Maskn(shift);
      BelowR(low);
      var scaled := Multiplication.Mul(low, minv);
      DivMod(scaled.Value(), r.Value());
      scaled.SignOfValue();
      minv.SignOfValue();
      MulLe(0, low.Value(), minv.Value());
      scaled.IMaskn(shift);
      BelowR(scaled);
      c := Multiplication.Mul(scaled, m);
    }

    lemma ModulusLengths()
      requires Valid()
      ensures 1 <= m.length <= MONT_LIMBS && minv.length <= m.length + 1 && 0 < shift
      ensures m.Canon() && m.negative == 0 && 1 < m.Value() < r.Value() == PowerOfTwo(shift) == P(m.length)
      ensures m.Value() % 2 == 1
    {
      hide BN.Canon, BN.Mag, PowerOfTwo, P, Pow;
      m.SignOfValue();
      PPow2(m.length);
      minv.SignOfValue();
      PMonotone(m.length, m.length + 1);
      PStep(m.length);
      minv.LengthAtMost(m.length + 1);
    }

    lemma BelowR(x: BN)
      requires Valid() && x.Canon() && x.negative == 0 && x.Value() < r.Value() && r.Value() == P(m.length)
      ensures x.length <= m.length
    {
      hide P;
      x.LengthAtMost(m.length);
    }

    /** Shifting a multiple of R right by R's bits leaves the factor. */
    static lemma ExactShift(t: BN, u: int, rv: int)
      requires t.Canon() && 0 < rv && t.Value() == u * rv
      ensures t.Mag() / rv == Abs(u) && (t.negative != 0 <==> u < 0)
    {
      t.SignOfValue();
      if u < 0 {
        MulLe(u, -1, rv);
        MulSub(0, u, rv);
        DivExact(-u, rv);
      } else {
        MulLe(0, u, rv);
        DivExact(u, rv);
      }
    }

    /** Adding m once brings a negative quotient into range. */
    static lemma Corrected(u: int, m: int, rv: int)
      requires -m < u < m
      ensures u % m == (if u < 0 then u + m else u)
      ensures ((u % m) * rv) % m == (u * rv) % m
    {
      if u < 0 {
        DivModUnique(u, m, -1, u + m);
      } else {
        ModSmall(u, m);
      }
      ModMul(u, rv, m);
    }

    /** Divides t by R modulo m, in place: an exact division and at most one correction. */
    method Reduce(t: BN)
      requires Valid() && t.Canon() && t.negative == 0 && t.Value() < m.Value() * m.Value()
      requires t != m && t != r && t != r2 && t != rinv && t != minv
      modifies t
      ensures Valid() && Residue(t)
      ensures t.Value() == DividedByR(old(t.Value()))
      ensures (t.Value() * r.Value()) % m.Value() == old(t.Value()) % m.Value()
    {
      hide BN.Canon, BN.Mag, BN.WF, PowerOfTwo, P, Pow;
      ModulusLengths();
      ghost var x, mv, rv := t.Value(), m.Value(), r.Value();
      t.SignOfValue();
      var c := Subtrahend(t);
      ghost var u := ExactReduction(x, mv, rv, minv.Value(), c.Value());
      DivideByR(u, x, mv, rv, rinv.Value());
      t.ISub(c);
      ExactShift(t, u, rv);
      t.IUShrn(shift);
      t.SignOfValue();
      assert t.Value() == u;
      var cmp := t.Cmp(m);
      if cmp >= 0 {
        // the quotient is below m: the subtraction the source has here never happens
        assert false;
      }
      var sign := t.Cmpn(0);
      Corrected(u, mv, rv);
      if sign < 0 {
        t.IAdd(m);
        t.SignOfValue();
      }
    }

    method Mul(a: BN, b: BN) returns (t: BN)
      requires Valid() && Residue(a) && Residue(b)
      ensures fresh(t) && Residue(t)
      ensures t.Value() == DividedByR(a.Value() * b.Value())
      ensures (t.Value() * r.Value()) % m.Value() == (a.Value() * b.Value()) % m.Value()
    {
      hide BN.Canon, BN.Mag, BN.WF, BN.IsZero, PowerOfTwo, P, Pow, DividedByR;
      ModulusLengths();
      a.SignOfValue();
      b.SignOfValue();
      if a.IsZero() || b.IsZero() {
        ZeroByR();
        t := new BN.FromSmall(0);
        return;
      }
      ResidueLength(a, m);
      ResidueLength(b, m);
      t := Multiplication.Mul(a, b);
      BelowSquare(a.Value(), b.Value(), m.Value());
      Reduce(t);
    }

    static lemma BelowSquare(a: int, b: int, m: int)
      requires 0 <= a < m && 0 <= b < m
      ensures 0 <= a * b < m * m
    {
      MulLe(a, m - 1, b);
      MulLe(b, m, m - 1);
      MulLe(0, a, b);
      MulLt(m - 1, m, m);
    }

    /** a *= b; the same number may be given twice where `imul` allows it. */
    method IMul(a: BN, b: BN)
      requires Valid() && Residue(a) && Residue(b) && (a == b ==> MayOverwrite(a.length, b.length))
      requires a != m && a != r && a != r2 && a != rinv && a != minv
      modifies a
      ensures Valid() && Residue(a)
      ensures a.Value() == DividedByR(old(a.Value()) * old(b.Value()))
    {
      hide BN.Canon, BN.Mag, BN.WF, BN.CleanTail, PowerOfTwo, P, Pow, DividedByR;
      ModulusLengths();
      a.SignOfValue();
      b.SignOfValue();
      if a.IsZero() || b.IsZero() {
        ZeroByR();
        a.words := Put(a.words, 0, 0);
        a.length := 1;
        ZeroInPlace(a);
        return;
      }
      ResidueLength(a, m);
      ResidueLength(b, m);
      BelowSquare(a.Value(), b.Value(), m.Value());
      Multiplication.IMul(a, b);
      a.SignOfValue();
      Reduce(a);
    }

    static lemma ZeroInPlace(a: BN)
      requires a.length == 1 && At(a.words, 0) == 0 && a.negative == 0
      ensures a.Canon() && a.Value() == 0
    {
      VStepZero(a.words);
    }

    /** num * R mod m */
    method ConvertTo(num: BN) returns (x: BN)
      requires Valid() && num.Canon()
      ensures fresh(x) && Residue(x) && x.Value() == (num.Value() * r.Value()) % m.Value()
    {
      hide BN.Canon, BN.Mag, BN.WF, BN.CleanTail, PowerOfTwo, P, Pow;
      ModulusLengths();
      x := num.Clone();
      x.IUShln(shift);
      x := ToResidue(x, m);
    }

    method One() returns (r: BN)
      requires Valid()
      ensures fresh(r) && Residue(r) && r.Value() == (1 * this.r.Value()) % m.Value()
    {
      var one := new BN.FromSmall(1);
      r := ConvertTo(one);
    }

    /** x / R mod m; the inverse of R may be negative */
    method ConvertFrom(x: BN) returns (num: BN)
      requires Valid() && Residue(x)
      ensures fresh(num) && Residue(num) && num.Value() == DividedByR(x.Value())
    {
      hide BN.Canon, BN.Mag, BN.WF, BN.CleanTail, PowerOfTwo, P, Pow;
      ModulusLengths();
      ResidueLength(x, m);
      num := Multiplication.Mul(x, rinv);
      num := ToResidue(num, m);
    }

    /** The inverse of a converted number, converted: a * result is R^2, or R^2 times the
        gcd if a has a factor in common with the modulus. */
    method InvM(a: BN) returns (x: BN, ghost g: int)
      requires Valid() && Residue(a)
      ensures fresh(x) && Residue(x) && Gcd.IsGcd(g, a.Value(), m.Value())
      ensures (x.Value() * a.Value()) % m.Value() == (g * (r.Value() * r.Value())) % m.Value()
    {
      hide BN.Canon, BN.Mag, BN.WF, BN.CleanTail, PowerOfTwo, P, Pow;
      ModulusLengths();
      ghost var mv := m.Value();
      InverseBound(mv, a.Value(), m.length);
      var inv: BN;
      inv, g := Gcd.InvMp(a, m, InverseBits(m.length));
      inv.SignOfValue();
      inv.LengthAtMost(m.length + 1);
      ResidueLength(r2, m);
      x := Multiplication.Mul(inv, r2);
      ScaledInverse(inv.Value(), r2.Value(), a.Value(), g, mv);
      MulComm(g, r2.Value());
      MulComm(g, r.Value() * r.Value());
      ModMul(r.Value() * r.Value(), g, mv);
      x := ToResidue(x, m);
    }

    static lemma ScaledInverse(i: int, y: int, a: int, g: int, m: int)
      requires 1 < m && (i * a) % m == g % m
      ensures (((i * y) % m) * a) % m == (g * y) % m
    {
      ModMul(i * y, a, m);
      assert (i * y) * a == (i * a) * y by {
        MulAssoc(i, y, a);
        MulComm(y, a);
        MulAssoc(i, a, y);
      }
      ModMul(i * a, y, m);
      ModMul(g, y, m);
    }
  }

  /** Converting out undoes converting in. */
  lemma ConvertBack(x: int, m: int, R: int, rinv: int)
    requires 1 < m && (rinv * R) % m == 1
    ensures (((x * R) % m) * rinv) % m == x % m
  {
    ModMul(x * R, rinv, m);
    MulAssoc(x, R, rinv);
    MulComm(R, rinv);
    ModMulBoth(x, rinv * R, m);
    ModTwice(x, m);
  }

  /** The Montgomery product of converted numbers is the converted product. */
  lemma ProductOfConverted(x: int, y: int, m: int, R: int, rinv: int)
    requires 1 < m && (rinv * R) % m == 1
    ensures ((((x * R) % m) * ((y * R) % m)) * rinv) % m == (((x * y) % m) * R) % m
  {
    var a, b := x * R, y * R;
    ModMulBoth(a, b, m);
    ModMul((a % m) * (b % m), rinv, m);
    ModMul(a * b, rinv, m);
    assert a * b == ((x * y) * R) * R by {
      MulAssoc(x * R, y, R);
      MulAssoc(x, R, y);
      MulComm(R, y);
      MulAssoc(x, y, R);
    }
    ConvertBack((x * y) * R, m, R, rinv);
    ModMul(((x * y) * R) * R, rinv, m);
    ModMul(x * y, R, m);
  }

  /** A Montgomery inverse, converted out, inverts the number converted out, up to the gcd. */
  lemma InverseOfConverted(a: int, i: int, g: int, m: int, R: int, rinv: int)
    requires 1 < m && (rinv * R) % m == 1 && (i * a) % m == (g * (R * R)) % m
    ensures (((i * rinv) % m) * ((a * rinv) % m)) % m == g % m
  {
    var s := rinv * rinv;
    ModMulBoth(i * rinv, a * rinv, m);
    assert (i * rinv) * (a * rinv) == (i * a) * s by {
      MulAssoc(i * rinv, a, rinv);
      MulAssoc(i, rinv, a);
      MulComm(rinv, a);
      MulAssoc(i, a, rinv);
      MulAssoc(i * a, rinv, rinv);
    }
    ModMul(i * a, s, m);
    ModMul(g * (R * R), s, m);
    MulAssoc(g, R * R, s);
    SquaresCancel(m, R, rinv);
    ModMulBoth(g, (R * R) * s, m);
    ModTwice(g, m);
  }

  lemma SquaresCancel(m: int, R: int, rinv: int)
    requires 1 < m && (rinv * R) % m == 1
    ensures ((R * R) * (rinv * rinv)) % m == 1
  {
    MulComm(rinv, R);
    MulAssoc(R * R, rinv, rinv);
    MulAssoc(R, R, rinv);
    MulAssoc(R, R * rinv, rinv);
    MulAssoc(R, rinv, R);
    MulComm(R * rinv, R);
    MulAssoc(R * rinv, R, rinv);
    ModMulBoth(rinv * R, rinv * R, m);
    ModSmall(1, m);
  }

  /** A number and its conversion have the same divisors in common with the modulus. */
  lemma GcdOfConverted(g: int, x: int, m: int, R: int, rinv: int)
    requires 1 < m && (rinv * R) % m == 1 && Gcd.IsGcd(g, (x * R) % m, m)
    ensures Gcd.IsGcd(g, x, m)
  {
    var y, q := (x * R) % m, (x * R) / m;
    ModSmall(1, m);
    var j := ModDiff(rinv * R, 1, m);
    DivMod(x * R, m);
    forall d: int | Gcd.Divides(d, m)
      ensures Gcd.Divides(d, x) <==> Gcd.Divides(d, y)
    {
      if Gcd.Divides(d, x) {
        DividesMultiple(d, x, R);
        Gcd.ShiftedDivisor(d, x * R, m, -q);
        MulSub(0, q, m);
      }
      if Gcd.Divides(d, y) {
        Gcd.ShiftedDivisor(d, y, m, q);
        DividesMultiple(d, x * R, rinv);
        Gcd.ShiftedDivisor(d, (x * R) * rinv, m, -(x * j));
        MulAssoc(x, R, rinv);
        MulComm(R, rinv);
        MulAdd(1, j * m, x);
        MulAssoc(x, j, m);
        MulSub(0, x * j, m);
      }
    }
  }

  lemma DividesMultiple(d: int, x: int, k: int)
    requires Gcd.Divides(d, x)
    ensures Gcd.Divides(d, x * k)
  {
    var q: int :| x == d * q;
    MulAssoc(d, q, k);
  }
}
