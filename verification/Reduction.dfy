/** The reduction context: arithmetic modulo m, windowed exponentiation, inversion and
    square roots. */
module Reduction {
  import opened Arith
  import opened JsNumber
  import opened Limbs
  import opened BigNum
  import opened Division
  import opened Multiplication
  import opened Montgomery
  import opened Residues
  import Gcd
  import K256

  /** With moduli up to here a product of residues stays below 1024 limbs, where the exact
      kernels end. */
  const MAX_LIMBS := 511

  /** How a context writes numbers: x as x * R modulo m. A plain context has R = 1. */
  datatype Scale = Scale(m: int, R: int, rinv: int) {
    /** a^e in this writing, a being written in it too */
    ghost function Power(a: int, e: nat): int
      requires 0 < m
    {
      (Arith.Pow(a * rinv, e) * R) % m
    }
  }

  /** The object whose `mul` an inherited method calls: a plain context, or one of the
      Montgomery kind. */
  datatype Context = Plain(red: Red) | Scaled(mont: Mont) {
    ghost function Objects(): set<object> {
      match this
      case Plain(red) => {red, red.m}
      case Scaled(mont) => {mont, mont.m, mont.r, mont.r2, mont.rinv, mont.minv}
    }

    ghost predicate Ready(s: Scale)
      reads Objects()
    {
      match this
      case Plain(red) => red.Multiplies() && s == Scale(red.m.Value(), 1, 1)
      case Scaled(mont) => mont.Valid() && s == Scale(mont.m.Value(), mont.r.Value(), mont.rinv.Value())
    }

    function Modulus(): BN {
      match this
      case Plain(red) => red.m
      case Scaled(mont) => mont.m
    }

    method Mul(x: BN, y: BN, ghost s: Scale, ghost a: int, ghost e: nat, ghost f: nat) returns (z: BN)
      requires Ready(s) && 0 < s.m && IsPower(x, Modulus(), s, a, e) && IsPower(y, Modulus(), s, a, f)
      ensures fresh(z) && IsPower(z, Modulus(), s, a, e + f)
    {
      hide BN.Canon, BN.Value, BN.Mag, BN.WF, Arith.Pow;
      ghost var b := a * s.rinv;
      ProductOfConverted(Arith.Pow(b, e), Arith.Pow(b, f), s.m, s.R, s.rinv);
      PowAdd(b, e, f);
      ModMul(Arith.Pow(b, e) * Arith.Pow(b, f), s.R, s.m);
      match this
      case Plain(red) => z := red.Mul(x, y);
      case Scaled(mont) => z := mont.Mul(x, y);
    }

    method One(ghost s: Scale, ghost a: int) returns (r: BN)
      requires Ready(s) && 0 < s.m
      ensures fresh(r) && IsPower(r, Modulus(), s, a, 0)
    {
      hide BN.Canon, BN.Value, BN.Mag, BN.WF;
      match this
      case Plain(red) =>
        ModSmall(1, s.m);
        r := red.One();
      case Scaled(mont) =>
        r := mont.One();
    }
  }

  ghost predicate IsPower(x: BN, m: BN, s: Scale, a: int, e: nat)
    requires 0 < s.m
    reads x, m
  {
    IsResidue(x, m) && x.Value() == s.Power(a, e)
  }

  lemma FirstPower(s: Scale, a: int)
    requires 1 < s.m && (s.rinv * s.R) % s.m == 1 && 0 <= a < s.m
    ensures s.Power(a, 1) == a
  {
    PowOneTwo(a * s.rinv);
    MulAssoc(a, s.rinv, s.R);
    ModMulBoth(a, s.rinv * s.R, s.m);
    ModTwice(a, s.m);
    ModSmall(a, s.m);
  }

  lemma PowOneTwo(a: int)
    ensures Arith.Pow(a, 0) == 1 && Arith.Pow(a, 1) == a && Arith.Pow(a, 2) == a * a
  {
    assert Arith.Pow(a, 1) == a * Arith.Pow(a, 0);
    assert Arith.Pow(a, 2) == a * Arith.Pow(a, 1);
  }

  // ----- windowed exponentiation -----

  /** The table of a^0 .. a^15. */
  method Window(ctx: Context, a: BN, ghost s: Scale) returns (wnd: seq<BN>)
    requires ctx.Ready(s) && 0 < s.m && IsPower(a, ctx.Modulus(), s, a.Value(), 1)
    ensures IsWindow(wnd, ctx.Modulus(), s, a.Value()) && wnd[1] == a && fresh(wnd[0])
  {
    hide BN.Canon, BN.Value, BN.WF, BN.Mag, Scale.Power;
    ghost var av, m := a.Value(), ctx.Modulus();
    var one := ctx.One(s, av);
    wnd := [one, a];
    var i := 2;
    while i < 16
      invariant 2 <= i <= 16 && |wnd| == i && wnd[0] == one && wnd[1] == a
      invariant forall k :: 0 <= k < i ==> IsPower(wnd[k], m, s, av, k)
    {
      var next := ctx.Mul(wnd[i - 1], a, s, av, i - 1, 1);
      wnd := wnd + [next];
      i := i + 1;
    }
  }

  ghost predicate IsWindow(wnd: seq<BN>, m: BN, s: Scale, av: int)
    requires 0 < s.m
    reads wnd, m
  {
    |wnd| == 16 && forall i :: 0 <= i < 16 ==> IsPower(wnd[i], m, s, av, i)
  }

  /** One exponent bit. res holds a^ex and `current` the pending window bits, so that
      res * a^current is a^e for the exponent bits e read so far. As long as res is the
      window's own one, squaring is skipped. */
  method PowBit(ctx: Context, wnd: seq<BN>, ghost s: Scale, ghost av: int, res: BN, ghost ex: nat, ghost e: nat,
      bit: nat, current: nat, len: nat, last: bool)
    returns (res': BN, ghost ex': nat, current': nat, len': nat)
    requires ctx.Ready(s) && 0 < s.m && IsWindow(wnd, ctx.Modulus(), s, av)
    requires IsPower(res, ctx.Modulus(), s, av, ex) && (res == wnd[0] ==> ex == 0)
    requires e == ex + current && bit <= 1 && len <= 3 && current < PowerOfTwo(len)
    ensures IsPower(res', ctx.Modulus(), s, av, ex') && (res' == wnd[0] ==> ex' == 0)
    ensures res' == res || fresh(res')
    ensures 2 * e + bit == ex' + current' && len' <= 3 && current' < PowerOfTwo(len')
    ensures last ==> current' == 0
  {
    hide IsResidue, BN.Value, Scale.Power, PowerOfTwo;
    res', ex' := res, ex;
    SmallPowers();
    if res' != wnd[0] {
      res' := ctx.Mul(res', res', s, av, ex, ex);
    }
    ex' := 2 * ex;
    if bit == 0 && current == 0 {
      return res', ex', 0, 0;
    }
    current', len' := 2 * current + bit, len + 1;
    if len' != 4 && !last {
      return;
    }
    res' := ctx.Mul(res', wnd[current'], s, av, ex', current');
    ex' := ex' + current';
    current', len' := 0, 0;
  }

  lemma SmallPowers()
    ensures PowerOfTwo(0) == 1 && PowerOfTwo(1) == 2 && PowerOfTwo(2) == 4 && PowerOfTwo(3) == 8 && PowerOfTwo(4) == 16
  {
    assert Arith.Pow(2, 2) == 4;
  }

  /** Reading one more bit of the exponent. */
  lemma NextExponent(ws: seq<int>, n: nat, i: nat, j: nat)
    requires i < n && InRange(ws, n) && j < 26
    ensures V(ws, n) / PowerOfTwo(i * 26 + j) ==
      2 * (V(ws, n) / PowerOfTwo(i * 26 + j + 1)) + (At(ws, i) / PowerOfTwo(j)) % 2
  {
    var v, u := V(ws, n), PowerOfTwo(i * 26 + j);
    VBit(ws, i, j, n);
    assert PowerOfTwo(i * 26 + j + 1) == 2 * u;
    DivDiv(v, u, 2);
    MulComm(u, 2);
    DivMod(v / u, 2);
  }

  /** The first limb is read from its topmost used bit. */
  lemma StartBits(ws: seq<int>, n: nat, bits: nat)
    requires 0 < n && InRange(ws, n) && At(ws, n - 1) != 0
    requires bits == (n - 1) * 26 + CountBits(At(ws, n - 1)) && V(ws, n) < PowerOfTwo(bits)
    ensures var start := if bits % 26 == 0 then 26 else bits % 26;
      1 <= start <= 26 && V(ws, n) / PowerOfTwo((n - 1) * 26 + start) == 0
  {
    hide V, At, CountBits, PowerOfTwo;
    var c := CountBits(At(ws, n - 1));
    K256.TopBitsAtMost26(At(ws, n - 1), c);
    StartOf(n - 1, c);
    VBound(ws, n);
    ModSmall(V(ws, n), PowerOfTwo(bits));
  }

  lemma StartOf(k: nat, c: int)
    requires 1 <= c <= 26
    ensures (if (k * 26 + c) % 26 == 0 then 26 else (k * 26 + c) % 26) == c
  {
    if c == 26 {
      DivModUnique(k * 26 + c, 26, k + 1, 0);
    } else {
      DivModUnique(k * 26 + c, 26, k, c);
    }
  }

  /** The bits of one exponent limb, from bit start - 1 down. */
  method PowLimb(ctx: Context, wnd: seq<BN>, ghost s: Scale, ghost av: int, res: BN, ghost ex: nat, num: BN, i: nat,
      start: nat, current: nat, len: nat)
    returns (res': BN, ghost ex': nat, current': nat, len': nat)
    requires ctx.Ready(s) && 0 < s.m && IsWindow(wnd, ctx.Modulus(), s, av)
    requires num.WF() && i < num.length && 1 <= start <= 26
    requires IsPower(res, ctx.Modulus(), s, av, ex) && (res == wnd[0] ==> ex == 0)
    requires num.Mag() / PowerOfTwo(i * 26 + start) == ex + current && len <= 3 && current < PowerOfTwo(len)
    ensures IsPower(res', ctx.Modulus(), s, av, ex') && (res' == wnd[0] ==> ex' == 0)
    ensures res' == res || fresh(res')
    ensures num.Mag() / PowerOfTwo(i * 26) == ex' + current' && len' <= 3 && current' < PowerOfTwo(len')
    ensures i == 0 ==> current' == 0
  {
    hide BN.Canon, BN.Value, IsPower, PowerOfTwo, At, V;
    res', ex', current', len' := res, ex, current, len;
    var word := At(num.words, i);
    var j := start;
    while j > 0
      invariant 0 <= j <= start
      invariant IsPower(res', ctx.Modulus(), s, av, ex') && (res' == wnd[0] ==> ex' == 0)
      invariant res' == res || fresh(res')
      invariant num.Mag() / PowerOfTwo(i * 26 + j) == ex' + current' && len' <= 3 && current' < PowerOfTwo(len')
      invariant i == 0 && j == 0 ==> current' == 0
    {
      j := j - 1;
      var bit := (word / PowerOfTwo(j)) % 2;
      NextExponent(num.words, num.length, i, j);
      res', ex', current', len' :=
        PowBit(ctx, wnd, s, av, res', ex', ex' + current', bit, current', len', i == 0 && j == 0);
    }
  }

  /** a^num in a context, four exponent bits at a time. */
  method Power(ctx: Context, a: BN, num: BN, ghost s: Scale) returns (res: BN)
    requires ctx.Ready(s) && IsResidue(a, ctx.Modulus()) && num.Canon() && num.Value() >= 0
    requires 1 < s.m == ctx.Modulus().Value() && (s.rinv * s.R) % s.m == 1
    ensures fresh(res) && IsPower(res, ctx.Modulus(), s, a.Value(), num.Value())
  {
    hide BN.Canon, BN.Value, BN.WF, BN.Mag, Scale.Power;
    num.SignOfValue();
    FirstPower(s, a.Value());
    if num.IsZero() {
      res := ctx.One(s, a.Value());
      return;
    }
    var c := num.Cmpn(1);
    if c == 0 {
      res := a.Clone();
      return;
    }
    res := PowWindowed(ctx, a, num, s);
  }

  method PowWindowed(ctx: Context, a: BN, num: BN, ghost s: Scale) returns (res: BN)
    requires ctx.Ready(s) && 0 < s.m && IsPower(a, ctx.Modulus(), s, a.Value(), 1)
    requires num.Canon() && num.Value() >= 0 && !num.IsZero()
    ensures fresh(res) && IsPower(res, ctx.Modulus(), s, a.Value(), num.Value())
  {
    hide BN.Canon, BN.IsZero, IsPower, IsResidue, Scale.Power, PowerOfTwo, At, V, CountBits;
    num.SignOfValue();
    num.TopOfNonzero();
    var wnd := Window(ctx, a, s);
    var bits := num.BitLength();
    var start := bits % 26;
    if start == 0 {
      start := 26;
    }
    StartBits(num.words, num.length, bits);
    res := PowLimbs(ctx, wnd, s, a.Value(), num, start);
  }

  /** All limbs of the exponent, from the top. */
  method PowLimbs(ctx: Context, wnd: seq<BN>, ghost s: Scale, ghost av: int, num: BN, first: nat) returns (res: BN)
    requires ctx.Ready(s) && 0 < s.m && IsWindow(wnd, ctx.Modulus(), s, av)
    requires num.WF() && 1 <= first <= 26 && num.Mag() / PowerOfTwo((num.length - 1) * 26 + first) == 0
    ensures (res == wnd[0] || fresh(res)) && IsPower(res, ctx.Modulus(), s, av, num.Mag())
  {
    hide IsPower, BN.Value, PowerOfTwo, At, V;
    res := wnd[0];
    var current: nat, len: nat := 0, 0;
    var start := first;
    SmallPowers();
    var i := num.length;
    ghost var ex: nat := 0;
    while i > 0
      invariant 0 <= i <= num.length && 1 <= start <= 26
      invariant IsWindow(wnd, ctx.Modulus(), s, av) && (res == wnd[0] || fresh(res))
      invariant IsPower(res, ctx.Modulus(), s, av, ex) && (res == wnd[0] ==> ex == 0)
      invariant ex + current == num.Mag() / PowerOfTwo(if i == 0 then 0 else (i - 1) * 26 + start)
      invariant len <= 3 && current < PowerOfTwo(len)
      invariant i == 0 ==> current == 0
    {
      i := i - 1;
      res, ex, current, len := PowLimb(ctx, wnd, s, av, res, ex, num, i, start, current, len);
      start := 26;
    }
  }

  // ----- in and out of a Montgomery context -----

  /** Converted in, raised to a power and converted out. */
  method PowerConverted(mont: Mont, x: BN, num: BN) returns (y: BN)
    requires mont.Valid() && x.Canon() && num.Canon() && num.Value() >= 0
    ensures fresh(y) && mont.Residue(y) && y.Value() == Arith.Pow(x.Value(), num.Value()) % mont.m.Value()
  {
    hide BN.Canon, BN.Value, BN.WF, BN.Mag, Arith.Pow;
    ghost var e, m, R, rinv := num.Value(), mont.m.Value(), mont.r.Value(), mont.rinv.Value();
    var a := mont.ConvertTo(x);
    var p := Power(Scaled(mont), a, num, Scale(m, R, rinv));
    y := mont.ConvertFrom(p);
    ConvertBack(Arith.Pow(a.Value() * rinv, e), m, R, rinv);
    ConvertBack(x.Value(), m, R, rinv);
    PowReduced(a.Value() * rinv, e, m);
    PowReduced(x.Value(), e, m);
  }

  /** Converted in, multiplied and converted out. */
  method ProductConverted(mont: Mont, x: BN, y: BN) returns (z: BN)
    requires mont.Valid() && x.Canon() && y.Canon()
    ensures fresh(z) && mont.Residue(z) && z.Value() == (x.Value() * y.Value()) % mont.m.Value()
  {
    hide BN.Canon, BN.Value, BN.WF, BN.Mag;
    ghost var m, R, rinv := mont.m.Value(), mont.r.Value(), mont.rinv.Value();
    var a := mont.ConvertTo(x);
    var b := mont.ConvertTo(y);
    var p := mont.Mul(a, b);
    z := mont.ConvertFrom(p);
    ProductOfConverted(x.Value(), y.Value(), m, R, rinv);
    ConvertBack((x.Value() * y.Value()) % m, m, R, rinv);
    ModTwice(x.Value() * y.Value(), m);
  }

  /** Converted in, inverted and converted out. */
  method InverseConverted(mont: Mont, x: BN) returns (y: BN, ghost g: int)
    requires mont.Valid() && x.Canon()
    ensures fresh(y) && mont.Residue(y) && Gcd.IsGcd(g, x.Value(), mont.m.Value())
    ensures (y.Value() * x.Value()) % mont.m.Value() == g % mont.m.Value()
  {
    hide BN.Canon, BN.Value, BN.WF, BN.Mag, Gcd.IsGcd;
    ghost var m, R, rinv := mont.m.Value(), mont.r.Value(), mont.rinv.Value();
    var a := mont.ConvertTo(x);
    var i: BN;
    i, g := mont.InvM(a);
    y := mont.ConvertFrom(i);
    GcdOfConverted(g, x.Value(), m, R, rinv);
    InverseOfConverted(a.Value(), i.Value(), g, m, R, rinv);
    ConvertBack(x.Value(), m, R, rinv);
    MulComm(y.Value(), x.Value());
    MulComm(y.Value(), x.Value() % m);
    ModMul(x.Value(), y.Value(), m);
  }

  class Red {
    const m: BN
    const fast: bool // the k256 prime, with its own reduction

    ghost predicate Valid()
      reads this, m
    {
      m.Canon() && m.negative == 0 && m.Value() > 1 &&
      (fast ==> m.Value() == K256.Prime())
    }

    /** What every operation that forms a product needs. */
    ghost predicate Multiplies()
      reads this, m
    {
      Valid() && m.length <= MAX_LIMBS
    }

    constructor (m: BN, fast: bool)
      requires m.Canon() && m.negative == 0 && m.Value() > 1
      requires fast ==> m.Value() == K256.Prime()
      ensures this.m == m && this.fast == fast && Valid()
    {
      this.m, this.fast := m, fast;
    }

    /** A number this context computes with: a canonical residue. */
    ghost predicate Residue(a: BN)
      reads this, m, a
    {
      IsResidue(a, m)
    }

    method IMod(a: BN) returns (r: BN)
      requires Valid() && a.Canon() && a != m && (fast ==> a.negative == 0)
      modifies if fast then {a} else {}
      ensures r == a || fresh(r)
      ensures Valid() && Residue(r) && r.Value() == old(a.Value()) % m.Value()
    {
      if fast {
        DivMod(a.Value(), m.Value());
        K256.IReduce(a, m);
        r := a;
      } else {
        r := ToResidue(a, m);
      }
    }

    method Mul(a: BN, b: BN) returns (r: BN)
      requires Multiplies() && Residue(a) && Residue(b)
      ensures fresh(r) && Residue(r) && r.Value() == (a.Value() * b.Value()) % m.Value()
    {
      ResidueLength(a, m);
      ResidueLength(b, m);
      var out := Multiplication.Mul(a, b);
      r := IMod(out);
    }

    method Sqr(a: BN) returns (r: BN)
      requires Multiplies() && Residue(a)
      ensures fresh(r) && Residue(r) && r.Value() == (a.Value() * a.Value()) % m.Value()
    {
      r := Mul(a, a);
    }

    /** m - a, or zero */
    method Neg(a: BN) returns (r: BN)
      requires Valid() && Residue(a)
      ensures fresh(r) && Residue(r) && r.Value() == (-a.Value()) % m.Value()
    {
      a.SignOfValue();
      if a.IsZero() {
        r := a.Clone();
        ModSmall(0, m.Value());
        return;
      }
      r := m.Sub(a);
      r.SignOfValue();
      DivModUnique(-a.Value(), m.Value(), -1, m.Value() - a.Value());
    }

    /** a += b, for residues, also when they are the same */
    method IAdd(a: BN, b: BN)
      requires Valid() && Residue(a) && Residue(b) && a != m
      modifies a
      ensures Valid() && Residue(a) && a.Value() == (old(a.Value()) + old(b.Value())) % m.Value()
    {
      ghost var s, q := a.Value() + b.Value(), m.Value();
      a.IAdd(b);
      var cmp := a.Cmp(m);
      if cmp >= 0 {
        DivModUnique(s, q, 1, s - q);
        a.ISub(m);
      } else {
        ModSmall(s, q);
      }
      a.SignOfValue();
    }

    /** Into the context (toRed) */
    method ConvertTo(num: BN) returns (r: BN)
      requires Valid() && num.Canon()
      ensures fresh(r) && Residue(r) && r.Value() == num.Value() % m.Value()
    {
      DivMod(num.Value(), m.Value());
      r := UMod(num, m);
      if r == num {
        r := r.Clone();
      }
      r.SignOfValue();
    }

    method One() returns (r: BN)
      requires Valid()
      ensures fresh(r) && Residue(r) && r.Value() == 1
    {
      var one := new BN.FromSmall(1);
      ModSmall(1, m.Value());
      r := ConvertTo(one);
    }

    /** a^num mod m */
    method Pow(a: BN, num: BN) returns (res: BN)
      requires Multiplies() && Residue(a) && num.Canon() && num.Value() >= 0
      ensures fresh(res) && Residue(res) && res.Value() == Arith.Pow(a.Value(), num.Value()) % m.Value()
    {
      hide BN.Canon, BN.Value, BN.Mag, BN.WF, Arith.Pow;
      ModSmall(1, m.Value());
      res := Power(Plain(this), a, num, Scale(m.Value(), 1, 1));
    }

    /** The residue that takes a to its gcd with the modulus: the inverse, if a has one. */
    method InvM(a: BN) returns (r: BN, ghost g: int)
      requires Valid() && Residue(a) && m.Value() % 2 == 1
      ensures fresh(r) && Residue(r)
      ensures Gcd.IsGcd(g, a.Value(), m.Value()) && (r.Value() * a.Value()) % m.Value() == g % m.Value()
    {
      hide BN.Canon, BN.Value, BN.WF, BN.Mag, Gcd.IsGcd;
      ghost var q := m.Value();
      var inv: BN;
      inv, g := Gcd.InvMp(a, m, 0);
      ghost var x := inv.Value();
      inv.SignOfValue();
      ModMul(x, a.Value(), q);
      if inv.negative != 0 {
        inv.INeg();
        r := IMod(inv);
        NegTwice(x, q);
        r := Neg(r);
      } else {
        r := IMod(inv);
      }
    }

    static lemma NegTwice(x: int, q: int)
      requires q > 0
      ensures (-((-x) % q)) % q == x % q
    {
      DivMod(-x, q);
      ModAddMultiple(x, (-x) / q, q);
    }

    /** The odd part q of m - 1 and the number s of twos taken out. */
    method OddPart() returns (q: BN, s: nat)
      requires Valid() && m.Value() % 2 == 1
      ensures fresh(q) && q.Canon() && q.Value() > 0 && q.Value() % 2 == 1
      ensures m.Value() - 1 == q.Value() * PowerOfTwo(s)
    {
      hide BN.Canon, BN.WF, BN.Mag, BN.IsOdd, BN.IsZero, PowerOfTwo;
      q := MinusOne();
      s := 0;
      Gcd.PowerZero(q.Value());
      q.ParityOfValue();
      q.SignOfValue();
      while !q.IsZero() && !q.IsOdd()
        invariant q.Canon() && q.Value() > 0 && fresh(q)
        invariant m.Value() - 1 == q.Value() * PowerOfTwo(s)
        invariant !q.IsZero() && (q.IsOdd() <==> q.Value() % 2 == 1)
        decreases q.Value()
      {
        q.ParityOfValue();
        q.Halve();
        Gcd.TwicePower(q.Value(), s);
        MulAssoc(2, q.Value(), PowerOfTwo(s));
        s := s + 1;
        q.ParityOfValue();
        q.SignOfValue();
      }
    }

    /** m.subn(1) */
    method MinusOne() returns (r: BN)
      requires Valid()
      ensures fresh(r) && r.Canon() && r.Value() == m.Value() - 1
    {
      r := m.Clone();
      r.ISubn(1);
    }

    /** The search for a non-residue: z counts down from a start value until its Euler power
        is m - 1. Back at the start, with every residue tried, the source would search for
        ever: null. */
    method FindNonResidue(lpow: BN, nOne: BN) returns (z: BN?)
      requires Multiplies() && lpow.Canon() && lpow.Value() >= 0
      requires Residue(nOne) && nOne.Value() == m.Value() - 1
      ensures z != null ==> fresh(z) && Residue(z) && Arith.Pow(z.Value(), lpow.Value()) % m.Value() == m.Value() - 1
      ensures z == null ==> !HasNonResidue(m.Value(), lpow.Value())
    {
      hide BN.Canon, BN.WF, BN.Mag, BN.CleanTail, BN.Value, Arith.Pow;
      ghost var q := m.Value();
      var w := SearchStart();
      var first := w.Clone();
      ghost var left := q;
      ModAddMultiple(w.Value(), 1, q);
      ModSmall(w.Value(), q);
      var hit := IsNonResidue(w, lpow, nOne);
      while !hit
        invariant Residue(w) && fresh(w) && Residue(first) && first != w && 0 < left <= q
        invariant w.Value() == (first.Value() + left) % q
        invariant hit <==> Arith.Pow(w.Value(), lpow.Value()) % q == q - 1
        invariant NoneAmong(first.Value(), left + 1, q, lpow.Value())
        decreases left
      {
        NoneNow(first.Value(), left, q, lpow.Value());
        var back := CountDown(w, nOne, first, left);
        if back {
          AllTried(first.Value(), q, lpow.Value());
          return null;
        }
        left := left - 1;
        hit := IsNonResidue(w, lpow, nOne);
      }
      z := w;
    }

    method IsNonResidue(z: BN, lpow: BN, nOne: BN) returns (hit: bool)
      requires Multiplies() && lpow.Canon() && lpow.Value() >= 0 && Residue(z)
      requires Residue(nOne) && nOne.Value() == m.Value() - 1
      ensures hit <==> Arith.Pow(z.Value(), lpow.Value()) % m.Value() == m.Value() - 1
    {
      var p := Pow(z, lpow);
      var c := p.Cmp(nOne);
      hit := c == 0;
    }

    /** z.redIAdd(nOne): the next candidate, and whether it is the first one again. */
    method CountDown(w: BN, nOne: BN, first: BN, ghost left: int) returns (back: bool)
      requires Valid() && Residue(w) && Residue(nOne) && Residue(first) && nOne.Value() == m.Value() - 1
      requires w != nOne && w != first && w != m && 0 < left
      requires w.Value() == (first.Value() + left) % m.Value() && left <= m.Value()
      modifies w
      ensures Valid() && Residue(w) && w.Value() == (first.Value() + (left - 1)) % m.Value()
      ensures back <==> left == 1
    {
      hide BN.Canon, BN.WF, BN.Mag, BN.CleanTail, BN.Value;
      OneDown(first.Value(), left, w.Value(), m.Value());
      IAdd(w, nOne);
      var c := w.Cmp(first);
      back := c == 0;
    }

    /** Where the search for a non-residue starts: 2 * bits^2. */
    method SearchStart() returns (w: BN)
      requires Multiplies()
      ensures fresh(w) && Residue(w)
    {
      var bits := ModulusBits();
      BitsBound(bits, m.length);
      var start := new BN.FromNumber(2 * bits * bits);
      w := ConvertTo(start);
    }

    method ModulusBits() returns (bits: nat)
      requires Valid()
      ensures bits <= 26 * m.length
    {
      hide PowerOfTwo, CountBits;
      bits := m.BitLength();
      K256.TopBitsAtMost26(At(m.words, m.length - 1), CountBits(At(m.words, m.length - 1)));
    }

    static lemma BitsBound(bits: nat, n: nat)
      requires n <= MAX_LIMBS && bits <= 26 * n
      ensures 2 * bits * bits < MAX_EXACT
    {
      MulLe(bits, 13286, bits);
    }

    static lemma OneDown(z0: int, left: int, z: int, q: int)
      requires q > 1 && z == (z0 + left) % q && 0 <= z0 < q && 0 < left <= q
      ensures (z + (q - 1)) % q == (z0 + (left - 1)) % q
      ensures (z0 + (left - 1)) % q == z0 <==> left == 1
    {
      RoundLess(z0 + left, q);
      RemainderOnce(z0, left - 1, q);
    }

    static lemma RoundLess(x: int, q: int)
      requires q > 1
      ensures (x % q + (q - 1)) % q == (x - 1) % q
    {
      ModAdd(x, q - 1, q);
      ModAddMultiple(x - 1, 1, q);
    }

    /** Going less than once round comes back only by not moving. */
    static lemma RemainderOnce(z0: int, d: int, q: int)
      requires 0 <= z0 < q && 0 <= d < q
      ensures (z0 + d) % q == z0 <==> d == 0
    {
      if z0 + d < q {
        ModSmall(z0 + d, q);
      } else {
        DivModUnique(z0 + d, q, 1, z0 + d - q);
      }
    }

    /** The candidate tried when j steps are left. */
    static function Candidate(z0: int, j: int, q: int): int
      requires q > 0
    {
      (z0 + j) % q
    }

    /** The candidates from j = lo on are all tried without success. */
    ghost static predicate NoneAmong(z0: int, lo: int, q: int, e: nat) {
      q > 0 && forall j :: lo <= j <= q ==> Arith.Pow(Candidate(z0, j, q), e) % q != q - 1
    }

    static lemma NoneNow(z0: int, left: int, q: int, e: nat)
      requires NoneAmong(z0, left + 1, q, e) && Arith.Pow((z0 + left) % q, e) % q != q - 1
      ensures NoneAmong(z0, left, q, e)
    {
    }

    /** These are all residues. */
    static lemma AllTried(z0: int, q: int, e: nat)
      requires NoneAmong(z0, 1, q, e) && 0 <= z0 < q
      ensures !HasNonResidue(q, e)
    {
      forall z | 0 <= z < q
        ensures Arith.Pow(z, e) % q != q - 1
      {
        var j := if z > z0 then z - z0 else z - z0 + q;
        DivModUnique(z0 + j, q, if z > z0 then 0 else 1, z);
        assert Candidate(z0, j, q) == z;
      }
    }

    /** (m + 1) / 4 */
    method QuarterSuccessor() returns (e: BN)
      requires Valid()
      ensures fresh(e) && e.Canon() && e.Value() == (m.Value() + 1) / 4
    {
      hide BN.Canon, BN.WF, BN.Mag, BN.CleanTail, BN.IsZero, PowerOfTwo, Arith.Pow;
      var one := new BN.FromSmall(1);
      e := m.Add(one);
      e.SignOfValue();
      SmallPowers();
      e.IUShrn(2);
      e.SignOfValue();
    }

    /** (q + 1) / 2, for an odd q */
    method HalfSuccessor(q: BN) returns (e: BN)
      requires q.Canon() && q.Value() > 0 && q.Value() % 2 == 1
      ensures fresh(e) && e.Canon() && e.Value() == (q.Value() + 1) / 2
    {
      e := q.Clone();
      e.IAddn(1);
      e.ParityOfValue();
      e.Halve();
    }

    /** Modulus 3 mod 4: one exponentiation. It gives a root exactly when there is one to
        be had this way, which the Euler power of a decides. */
    method SqrtFast(a: BN) returns (r: BN)
      requires Multiplies() && Residue(a) && m.Value() % 4 == 3
      ensures fresh(r) && Residue(r)
      ensures (r.Value() * r.Value()) % m.Value() == Arith.Pow(a.Value(), (m.Value() + 1) / 2) % m.Value()
      ensures IsRoot(r.Value(), a.Value(), m.Value()) <==>
        Arith.Pow(a.Value(), (m.Value() + 1) / 2) % m.Value() == a.Value()
    {
      hide BN.Canon, BN.WF, BN.Mag, BN.CleanTail, BN.IsZero, PowerOfTwo, Arith.Pow;
      var e := QuarterSuccessor();
      r := Pow(a, e);
      PowModStep(a.Value(), e.Value(), e.Value(), r.Value(), r.Value(), m.Value());
    }

    /** How many squarings take t to one, if fewer than `limit`; otherwise limit. */
    method OrderExponent(t: BN, one: BN, limit: nat) returns (i: nat)
      requires Multiplies() && Residue(t) && Residue(one) && one.Value() == 1
      ensures i <= limit
      ensures i < limit ==> Arith.Pow(t.Value(), PowerOfTwo(i)) % m.Value() == 1
      ensures forall j: nat :: j < i ==> Arith.Pow(t.Value(), PowerOfTwo(j)) % m.Value() != 1
    {
      hide BN.Canon, BN.WF, BN.Mag, BN.Value, Arith.Pow, PowerOfTwo;
      ghost var tv, q := t.Value(), m.Value();
      var tmp := t;
      i := 0;
      FirstPower(tv, q);
      var c := tmp.Cmp(one);
      while c != 0 && i < limit
        invariant i <= limit && Residue(tmp) && (c == 0 <==> tmp.Value() == 1)
        invariant tmp.Value() == Arith.Pow(tv, PowerOfTwo(i)) % q
        invariant forall j: nat :: j < i ==> Arith.Pow(tv, PowerOfTwo(j)) % q != 1
      {
        PowModStep(tv, PowerOfTwo(i), PowerOfTwo(i), tmp.Value(), tmp.Value(), q);
        DoublePower(i + 1);
        tmp := Sqr(tmp);
        i := i + 1;
        c := tmp.Cmp(one);
      }
    }

    static lemma FirstPower(t: int, q: int)
      requires 0 <= t < q
      ensures Arith.Pow(t, PowerOfTwo(0)) % q == t
    {
      PowOneTwo(t);
      ModSmall(t, q);
    }

    /** One Tonelli-Shanks step keeps r^2 == a * t. */
    static lemma TonelliStep(r: int, b: int, a: int, t: int, q: int)
      requires SquareIsProduct(r, a, t, q)
      ensures var r', t' := (r * b) % q, (t * ((b * b) % q)) % q;
        SquareIsProduct(r', a, t', q)
    {
      ModMulBoth(r * b, r * b, q);
      assert (r * b) * (r * b) == (r * r) * (b * b) by {
        MulAssoc(r * b, r, b);
        MulComm(r * b, r);
        MulAssoc(r, r, b);
        MulAssoc(r * r, b, b);
      }
      ModMulBoth(r * r, b * b, q);
      ModMulBoth(a * t, b * b, q);
      MulAssoc(a, t, b * b);
      ModMulBoth(a, t * (b * b), q);
      ModMulBoth(t, b * b, q);
      ModMulBoth(t, (b * b) % q, q);
      ModMulBoth(a, t * ((b * b) % q), q);
      ModTwice(b * b, q);
      ModTwice(t * ((b * b) % q), q);
      ModMulBoth(a, (t * ((b * b) % q)) % q, q);
    }

    static lemma TonelliStart(a: int, e: nat, r: int, t: int, q: int)
      requires q > 0 && e % 2 == 1
      requires r == Arith.Pow(a, (e + 1) / 2) % q && t == Arith.Pow(a, e) % q
      ensures SquareIsProduct(r, a, t, q)
    {
      var h := (e + 1) / 2;
      PowModStep(a, h, h, r, r, q);
      assert h + h == e + 1;
      MulComm(a, Arith.Pow(a, e));
      ModMul(Arith.Pow(a, e), a, q);
      MulComm(a, t);
    }

    /** The Tonelli-Shanks loop. It ends with a number whose square is a, or it does not
        end normally (null): the source asserts i < m, and the order of t need not be a
        power of two when m is not prime. From a ready start it does end normally. */
    method TonelliLoop(a: BN, one: BN, r0: BN, c0: BN, t0: BN, s: nat) returns (r: BN?)
      requires Multiplies() && Residue(a) && Residue(one) && one.Value() == 1
      requires Residue(r0) && Residue(c0) && Residue(t0)
      requires SquareIsProduct(r0.Value(), a.Value(), t0.Value(), m.Value())
      ensures r != null ==> Residue(r) && IsRoot(r.Value(), a.Value(), m.Value())
      ensures Ready(c0.Value(), t0.Value(), s, m.Value()) ==> r != null
    {
      hide BN.Canon, BN.WF, BN.Mag, BN.Value, BN.CleanTail, PowerOfTwo, Arith.Pow, Ready, OnlyTwoRoots, IsRoot,
        SquareIsProduct;
      ghost var q, ready := m.Value(), Ready(c0.Value(), t0.Value(), s, m.Value());
      var root, c, t, k := r0, c0, t0, s;
      var cmp := t.Cmp(one);
      while cmp != 0
        invariant Residue(root) && Residue(c) && Residue(t)
        invariant SquareIsProduct(root.Value(), a.Value(), t.Value(), q)
        invariant cmp == 0 <==> t.Value() == 1
        invariant ready ==> Ready(c.Value(), t.Value(), k, q)
        decreases k
      {
        ghost var cv, tv, last := c.Value(), t.Value(), k;
        var i := OrderExponent(t, one, k);
        if ready {
          OrderFound(cv, tv, k, i, q);
        }
        if i >= k {
          return null;
        }
        ghost var b;
        root, c, t, b := TonelliRound(root, c, t, k - i - 1, a);
        if ready {
          RoundStaysReady(cv, tv, last, i, b, c.Value(), t.Value(), q);
        }
        k := i;
        cmp := t.Cmp(one);
      }
      ProductWithOne(root.Value(), a.Value(), q);
      r := root;
    }

    /** From a ready state the order of t is found, and it is smaller than 2^k. */
    static lemma OrderFound(c: int, t: int, k: nat, i: nat, q: int)
      requires Ready(c, t, k, q) && 0 <= t < q && t != 1 && i <= k
      requires forall j: nat :: j < i ==> Arith.Pow(t, PowerOfTwo(j)) % q != 1
      requires i < k ==> Arith.Pow(t, PowerOfTwo(i)) % q == 1
      ensures 0 < i < k && Arith.Pow(t, PowerOfTwo(i - 1)) % q != 1
    {
      hide Arith.Pow, PowerOfTwo, OnlyTwoRoots;
      FirstPower(t, q);
      assert Arith.Pow(t, PowerOfTwo(k - 1)) % q == 1;
    }

    /** r, c and t of the next round, from b = c^(2^n). */
    method TonelliRound(r: BN, c: BN, t: BN, n: nat, ghost a: BN) returns (r': BN, c': BN, t': BN, ghost b': int)
      requires Multiplies() && Residue(r) && Residue(c) && Residue(t) && Residue(a)
      requires SquareIsProduct(r.Value(), a.Value(), t.Value(), m.Value())
      ensures Residue(r') && Residue(c') && Residue(t')
      ensures SquareIsProduct(r'.Value(), a.Value(), t'.Value(), m.Value())
      ensures b' == Arith.Pow(c.Value(), PowerOfTwo(n)) % m.Value()
      ensures c'.Value() == (b' * b') % m.Value() && t'.Value() == (t.Value() * c'.Value()) % m.Value()
    {
      hide BN.Canon, BN.WF, BN.Mag, BN.CleanTail, PowerOfTwo, Arith.Pow;
      var e := new BN.FromSmall(1);
      e.IUShln(n);
      e.SignOfValue();
      var b := Pow(c, e);
      TonelliStep(r.Value(), b.Value(), a.Value(), t.Value(), m.Value());
      r' := Mul(r, b);
      c' := Sqr(b);
      t' := Mul(t, c');
      b' := b.Value();
    }

    /** A square root of a modulo m, where there is no normal end (null): an even modulus,
        no non-residue to be found, or an element t of the wrong order. Modulo an odd number
        for which Fermat's theorem holds, every odd prime for one, the result is a root
        exactly when a has one. */
    method Sqrt(a: BN) returns (r: BN?)
      requires Multiplies() && Residue(a)
      ensures r != null ==> Residue(r)
      ensures a.Value() == 0 ==> r != null && r.Value() == 0
      ensures a.Value() != 0 && m.Value() % 2 == 0 ==> r == null
      ensures a.Value() != 0 && m.Value() % 4 == 3 ==> r != null
      ensures a.Value() != 0 && m.Value() % 4 == 3 ==>
        (IsRoot(r.Value(), a.Value(), m.Value()) <==>
         Arith.Pow(a.Value(), (m.Value() + 1) / 2) % m.Value() == a.Value())
      ensures a.Value() != 0 && m.Value() % 4 == 1 && r != null ==> IsRoot(r.Value(), a.Value(), m.Value())
      ensures m.Value() % 4 == 1 && HasEulerRoot(a) ==> r != null
      ensures m.Value() % 2 == 1 && Fermat(m.Value()) ==>
        (HasRoot(a.Value(), m.Value()) <==> r != null && IsRoot(r.Value(), a.Value(), m.Value()))
    {
      hide BN.Canon, BN.WF, BN.Mag, BN.Value, BN.CleanTail, BN.IsZero, PowerOfTwo, Arith.Pow;
      hide Fermat, OnlyTwoRoots, HasNonResidue, IsRoot;
      a.SignOfValue();
      if a.IsZero() {
        r := a.Clone();
        ZeroIsRoot(m.Value());
        return;
      }
      if m.Value() % 2 == 1 && Fermat(m.Value()) && HasRoot(a.Value(), m.Value()) {
        RootsAreFound(a.Value(), m.Value());
      }
      var mod4 := LowTwoBits();
      if mod4 % 2 != 1 {
        return null;
      }
      if mod4 == 3 {
        r := SqrtFast(a);
        return;
      }
      r := SqrtTonelli(a);
    }

    /** m.andln(3) */
    method LowTwoBits() returns (r: nat)
      requires Valid()
      ensures r == m.Value() % 4
    {
      SmallPowers();
      VLowBits(m.words, m.length, 2);
      r := At(m.words, 0) % 4;
    }

    /** What decides that Tonelli-Shanks finds a root of a. */
    ghost predicate HasEulerRoot(a: BN)
      requires Valid()
      reads this, m, a
    {
      OnlyTwoRoots(m.Value()) && HasNonResidue(m.Value(), (m.Value() - 1) / 2) &&
      Arith.Pow(a.Value(), (m.Value() - 1) / 2) % m.Value() == 1
    }

    method SqrtTonelli(a: BN) returns (r: BN?)
      requires Multiplies() && Residue(a) && m.Value() % 2 == 1
      ensures r != null ==> Residue(r) && IsRoot(r.Value(), a.Value(), m.Value())
      ensures HasEulerRoot(a) ==> r != null
    {
      hide BN.Canon, BN.WF, BN.Mag, BN.Value, BN.CleanTail, PowerOfTwo, Arith.Pow;
      hide OnlyTwoRoots, HasNonResidue, IsRoot;
      var one := One();
      var nOne := Neg(one);
      MinusOneResidue(m.Value());
      var lpow := EulerExponent();
      var z := FindNonResidue(lpow, nOne);
      if z == null {
        return null;
      }
      r := TonelliFrom(a, z);
    }

    /** (m - 1) / 2 */
    method EulerExponent() returns (e: BN)
      requires Valid() && m.Value() % 2 == 1
      ensures fresh(e) && e.Canon() && e.Value() == (m.Value() - 1) / 2
    {
      e := MinusOne();
      e.ParityOfValue();
      e.Halve();
    }

    /** Tonelli-Shanks from a non-residue z. */
    method TonelliFrom(a: BN, z: BN) returns (r: BN?)
      requires Multiplies() && Residue(a) && Residue(z) && m.Value() % 2 == 1
      ensures r != null ==> Residue(r) && IsRoot(r.Value(), a.Value(), m.Value())
      ensures EulerPair(z.Value(), a.Value(), m.Value()) ==> r != null
    {
      hide BN.Canon, BN.WF, BN.Mag, BN.Value, BN.CleanTail, BN.IsOdd, PowerOfTwo, Arith.Pow;
      hide EulerPair, Ready, IsRoot, SquareIsProduct;
      var q, s := OddPart();
      var one := One();
      var c := Pow(z, q);
      var e := HalfSuccessor(q);
      var root := Pow(a, e);
      var t := Pow(a, q);
      TonelliStart(a.Value(), q.Value(), root.Value(), t.Value(), m.Value());
      if EulerPair(z.Value(), a.Value(), m.Value()) {
        StartIsReady(z.Value(), a.Value(), m.Value(), q.Value(), s, c.Value(), t.Value());
      }
      r := TonelliLoop(a, one, root, c, t, s);
    }

    static lemma MinusOneResidue(q: int)
      requires q > 1
      ensures (-1) % q == q - 1
    {
      DivModUnique(-1, q, -1, q - 1);
    }
  }
}
