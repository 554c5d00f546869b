/** Long division: _wordDiv with its estimated quotient digits, and divmod above it. */
module Division {
  import opened Arith
  import opened JsNumber
  import opened Limbs
  import opened BigNum

  datatype Mode = Both | DivOnly | ModOnly

  /** min((top / bhi) | 0, 0x3ffffff), the guess for a quotient digit from the two top
      words of the dividend and the top word of the divisor */
  function Estimate(top: nat, bhi: nat): (q: nat)
    requires 0 < bhi
    ensures q < BASE
  {
    DivPositive(top, bhi);
    if top / bhi < BASE then top / bhi else BASE - 1
  }

  /** The guess as it is computed, in double arithmetic. */
  method GuessDigit(top: nat, bhi: nat) returns (q: nat)
    requires BASE / 2 <= bhi && top < BASE * BASE
    ensures q == Estimate(top, bhi)
  {
    DivUpper(top, bhi, 2 * BASE);
    DivPositive(top, bhi);
    var quotient := TruncateQuotient(top, bhi);
    q := if quotient < 0x3ff_ffff then quotient else 0x3ff_ffff;
  }

  /** The guess is never too small and at most two too big. Here the dividend a lies in
      [top * u, (top + 1) * u), the divisor d in [bhi * u, (bhi + 1) * u), and
      normalisation has made bhi at least half a limb. */
  lemma EstimateWithinTwo(a: int, d: int, u: int, top: nat, bhi: nat)
    requires 0 < u && top * u <= a < (top + 1) * u
    requires bhi * u <= d < (bhi + 1) * u && BASE / 2 <= bhi
    requires 0 <= a < BASE * d
    ensures 0 < d
    ensures a / d <= Estimate(top, bhi) <= a / d + 2
    ensures a - Estimate(top, bhi) * d > -(BASE * u)
  {
    var q := Estimate(top, bhi);
    MulLe(BASE / 2, bhi, u);
    DivMod(a, d);
    DivUpper(a, d, BASE);
    EstimateLower(a, d, u, top, bhi);
    EstimateExcess(a, d, u, top, bhi, q);
    MulLe(q, BASE - 1, u);
    if q >= a / d + 3 {
      MulLe(a / d + 3, q, d);
      MulAdd(a / d, 3, d);
      NotThree(a, d, u, (a / d) * d, q * d, q * u);
    }
  }

  /** Were the guess three too big, twice the divisor would be below BASE * u. */
  lemma NotThree(a: int, d: int, u: int, td: int, qd: int, qu: int)
    requires 0 < u && (BASE / 2) * u <= d
    requires qu <= (BASE - 1) * u && qd <= a + qu
    requires a < td + d
    ensures qd < td + 3 * d
  {
  }

  /** q * bhi <= top, so q * d exceeds a by at most q * u. */
  lemma EstimateExcess(a: int, d: int, u: int, top: nat, bhi: nat, q: nat)
    requires 0 < u && 0 < bhi && top * u <= a
    requires bhi * u <= d < (bhi + 1) * u
    requires q <= top / bhi
    ensures q * d <= a + q * u
  {
    DivMod(top, bhi);
    MulLe(q, top / bhi, bhi);
    MulLe(q * bhi, top, u);
    MulAssoc(q, bhi, u);
    MulAdd(bhi, 1, u);
    MulLe(d, bhi * u + u, q);
    MulAdd(bhi * u, u, q);
  }

  lemma EstimateLower(a: int, d: int, u: int, top: nat, bhi: nat)
    requires 0 < u && top * u <= a < (top + 1) * u
    requires bhi * u <= d && 0 < bhi && 0 < d && 0 <= a
    ensures a / d <= top / bhi
  {
    var t := a / d;
    DivMod(a, d);
    DivPositive(a, d);
    MulLe(bhi * u, d, t);
    MulAssoc(t, bhi, u);
    MulComm(t, bhi * u);
    MulCancelLt(t * bhi, top + 1, u);
    DivLower(top, bhi, t);
  }

  /** A number below the weight of limb k has its value in the limbs below. */
  lemma ValueBelow(ws: seq<int>, n: nat, k: nat)
    requires InRange(ws, n) && (forall i: nat :: n <= i ==> At(ws, i) == 0)
    requires V(ws, n) < P(k)
    ensures V(ws, n) == V(ws, k)
  {
    hide P, Range;
    if n < k {
      VTop(ws, n, k);
    } else {
      RangeSplit(ws, 0, k, n);
      RangeBound(ws, k, n);
      VBound(ws, k);
      if Range(ws, k, n) > 0 {
        MulLe(1, Range(ws, k, n), P(k));
        assert false;
      }
    }
  }

  /** The top two words of the remaining dividend locate it to within one weight u. */
  lemma TopTwoWords(ws: seq<int>, n: nat, k: nat)
    requires InRange(ws, n) && (forall i: nat :: n <= i ==> At(ws, i) == 0)
    requires V(ws, n) < P(k + 2)
    ensures (At(ws, k + 1) * BASE + At(ws, k)) * P(k) <= V(ws, n)
    ensures V(ws, n) < (At(ws, k + 1) * BASE + At(ws, k) + 1) * P(k)
    ensures 0 <= At(ws, k + 1) < BASE && 0 <= At(ws, k) < BASE
  {
    hide P, V;
    ValueBelow(ws, n, k + 2);
    VStep(ws, k);
    VStep(ws, k + 1);
    VBound(ws, k);
    PStep(k);
    TwoWords(At(ws, k + 1), At(ws, k), P(k), V(ws, k));
  }

  lemma TwoWords(h: int, l: int, p: int, rest: int)
    requires 0 <= rest < p
    ensures (h * BASE + l) * p <= rest + l * p + h * (BASE * p) < (h * BASE + l + 1) * p
  {
    MulAssoc(h, BASE, p);
    MulAdd(h * BASE, l, p);
    MulAdd(h * BASE + l, 1, p);
  }

  /** Where the shifted divisor d = b * 2^(26 j) lies. */
  lemma DivisorBounds(ws: seq<int>, n: nat, j: nat, m: int)
    requires 0 < n && InRange(ws, n)
    requires m < BASE * (V(ws, n) * P(j))
    ensures At(ws, n - 1) * P(n - 1 + j) <= V(ws, n) * P(j) < (At(ws, n - 1) + 1) * P(n - 1 + j)
    ensures V(ws, n) * P(j) < BASE * P(n - 1 + j) == P(n + j)
    ensures m < P(n - 1 + j + 2)
  {
    var x, w, y := At(ws, n - 1), P(n - 1), P(j);
    VStep(ws, n - 1);
    VBound(ws, n - 1);
    PAdd(n - 1, j);
    MulAssoc(x, w, y);
    MulAssoc(x + 1, w, y);
    MulLe(x * w, V(ws, n), y);
    MulAdd(x, 1, w);
    MulLt(V(ws, n), (x + 1) * w, y);
    MulLe(x + 1, BASE, w * y);
    PStep(n - 1 + j);
    PStep(n + j);
  }

  lemma SubmulOrder(x: int, y: int, z: int)
    ensures (x * y) * z == y * (x * z)
  {
    MulComm(x, y);
    MulAssoc(y, x, z);
  }

  /** The guess q is right exactly when a - q * d is not negative. */
  lemma GuessSign(a: int, d: int, q: int)
    requires 0 < d && 0 <= a && a / d <= q
    ensures a - q * d >= 0 <==> q == a / d
    ensures q == a / d ==> a - q * d < d
    ensures (q - 1) * d == q * d - d
  {
    DivMod(a, d);
    MulAdd(a / d, 1, d);
    MulSub(q, 1, d);
    if q > a / d {
      MulLe(a / d + 1, q, d);
    }
  }

  /** One quotient digit: leaves a - qj * b * 2^(26 j) in a and counts the corrections. */
  method DivideDigit(a: BN, b: BN, j: nat) returns (qj: nat, ghost corrections: nat)
    requires a != b && a.Canon() && a.negative == 0 && a.CleanTail()
    requires b.Canon() && b.negative == 0 && BASE / 2 <= At(b.words, b.length - 1)
    requires a.Mag() < BASE * (b.Mag() * P(j))
    modifies a
    ensures a.Canon() && a.negative == 0 && a.CleanTail()
    ensures qj < BASE && corrections <= 2
    ensures 0 <= a.Mag() < b.Mag() * P(j)
    ensures a.Mag() == old(a.Mag()) - qj * (b.Mag() * P(j))
  {
    hide V, At, P, Estimate;
    ghost var m, bv, n := a.Mag(), b.Mag(), b.length;
    ghost var d, u := bv * P(j), P(n - 1 + j);
    var bhi := At(b.words, b.length - 1);
    DivisorBounds(b.words, n, j, m);
    a.ZeroMag();
    TopTwoWords(a.words, a.length, n - 1 + j);
    var top := Exact(At(a.words, b.length + j) * BASE + At(a.words, b.length + j - 1));
    EstimateWithinTwo(m, d, u, top, bhi);
    qj := GuessDigit(top, bhi);
    SubmulOrder(bv, qj, P(j));
    a.IShlnSubMul(b, qj, j);
    ghost var exact := m / d;
    DivMod(m, d);
    corrections := 0;
    while a.negative != 0
      invariant a.Canon() && a.CleanTail() && a.Value() == m - qj * d
      invariant exact <= qj && qj + corrections <= exact + 2
      invariant 0 <= qj < BASE
      decreases qj
    {
      a.ZeroMag();
      GuessSign(m, d, qj);
      qj := qj - 1;
      a.negative := 0;
      SubmulOrder(bv, 1, P(j));
      a.IShlnSubMul(b, 1, j);
      a.ZeroMag();
      if !a.IsZero() {
        a.negative := 1 - a.negative;
      }
      corrections := corrections + 1;
    }
    a.ZeroMag();
    GuessSign(m, d, qj);
  }

  /** Shifting the top word of w bits up to 26 bits makes it at least half a limb. */
  lemma NormalisedTop(ws: seq<int>, n: nat, hi: nat, ws': seq<int>, n': nat)
    requires 0 < n && InRange(ws, n) && 0 < hi <= 26
    requires PowerOfTwo(hi - 1) <= At(ws, n - 1) < PowerOfTwo(hi)
    requires 0 < n' && InRange(ws', n') && TopNonzero(ws', n')
    requires V(ws', n') == V(ws, n) * PowerOfTwo(26 - hi)
    ensures n' == n && BASE / 2 <= At(ws', n' - 1)
  {
    var w, k, p := At(ws, n - 1), PowerOfTwo(26 - hi), P(n - 1);
    VStep(ws, n - 1);
    VBound(ws, n - 1);
    PowTwo26();
    PowAdd(2, hi, 26 - hi);
    PowAdd(2, hi - 1, 26 - hi);
    assert PowerOfTwo(hi) == 2 * PowerOfTwo(hi - 1);
    assert PowerOfTwo(hi) * k == BASE && PowerOfTwo(hi - 1) * k == BASE / 2;
    // BASE / 2 * p <= V(ws, n) * k < BASE * p
    MulLe(PowerOfTwo(hi - 1), w, k);
    MulLe(w + 1, PowerOfTwo(hi), k);
    MulLe(w * p, V(ws, n), k);
    MulAdd(w, 1, p);
    MulLt(V(ws, n), (w + 1) * p, k);
    SubmulOrder(w, p, k);
    SubmulOrder(w + 1, p, k);
    MulComm(p, w * k);
    MulComm(p, (w + 1) * k);
    MulAssoc(w, k, p);
    MulAssoc(w + 1, k, p);
    MulLe(BASE / 2, w * k, p);
    MulLe((w + 1) * k, BASE, p);
    PStep(n - 1);
    TopAtLeast(ws', n', n, BASE / 2);
  }

  lemma TopAtLeast(ws: seq<int>, n: nat, k: nat, x: int)
    requires 0 < n && InRange(ws, n) && TopNonzero(ws, n) && 0 < k && 1 <= x
    requires x * P(k - 1) <= V(ws, n) < P(k)
    ensures n == k && x <= At(ws, n - 1)
  {
    MulLe(1, x, P(k - 1));
    LengthFromValue(ws, n, k);
    VStep(ws, n - 1);
    VBound(ws, n - 1);
    MulAdd(At(ws, n - 1), 1, P(k - 1));
    MulCancelLt(x, At(ws, n - 1) + 1, P(k - 1));
  }

  /** Copies the operands scaled by a power of two that fills the divisor's top word. */
  method Normalise(self: BN, num: BN) returns (a: BN, b: BN, shift: nat)
    requires self.Canon() && self.negative == 0 && num.Canon() && num.negative == 0
    requires 0 < num.Mag() <= self.Mag()
    ensures fresh(a) && a.Canon() && a.negative == 0 && a.CleanTail()
    ensures a != b && (b == num || fresh(b)) && b.Canon() && b.negative == 0
    ensures a.Mag() == self.Mag() * PowerOfTwo(shift) && b.Mag() == num.Mag() * PowerOfTwo(shift)
    ensures 0 < b.Mag() <= a.Mag() && b.length <= a.length
    ensures BASE / 2 <= At(b.words, b.length - 1)
  {
    hide V, P, PowerOfTwo, CountBits;
    a := self.Clone();
    b := num;
    num.ZeroMag();
    VStepZero(num.words);
    var hi := CountBits(At(b.words, b.length - 1));
    TopBits(At(b.words, b.length - 1), hi);
    shift := 26 - hi;
    BitsSplit(0);
    if shift != 0 {
      b := num.Clone();
      b.IUShln(shift);
      a.IUShln(shift);
    }
    MulLe(num.Mag(), self.Mag(), PowerOfTwo(shift));
    MulLe(1, num.Mag(), PowerOfTwo(shift));
    NormalisedTop(num.words, num.length, hi, b.words, b.length);
    b.LongerIsLarger(a);
  }

  lemma TopBits(w: int, hi: nat)
    requires 0 < w < BASE && hi == CountBits(w)
    ensures 0 < hi <= 26
  {
    PowTwo26();
    if hi > 26 {
      PowMonotone(2, 26, hi - 1);
    }
  }

  /** Appending digit x to the quotient so far. */
  lemma DigitAppended(a0: int, a: int, a': int, bv: int, j: nat, quot: int, x: int)
    requires a0 == a + quot * (bv * P(j + 1))
    requires a' == a - x * (bv * P(j))
    ensures a0 == a' + (x + BASE * quot) * (bv * P(j))
  {
    var y := bv * P(j);
    PStep(j);
    MulAssoc(bv, BASE, P(j));
    MulComm(bv, BASE);
    MulAssoc(BASE, bv, P(j));
    MulAssoc(quot, BASE, y);
    MulAdd(x, BASE * quot, y);
    MulComm(quot, BASE);
  }

  /** The digit loop: turns a into the remainder by b; if q is given, its first m words
      receive the digits of `quot`. */
  method DivideDigits(a: BN, b: BN, q: BN?, m: nat) returns (ghost quot: int)
    requires a != b && a.Canon() && a.negative == 0 && a.CleanTail()
    requires b.Canon() && b.negative == 0 && BASE / 2 <= At(b.words, b.length - 1)
    requires q != null ==> q != a && q != b
    requires a.Mag() < b.Mag() * P(m)
    modifies a, if q != null then {q} else {}
    ensures a.Canon() && a.negative == 0 && 0 <= a.Mag() < b.Mag()
    ensures old(a.Mag()) == a.Mag() + quot * b.Mag()
    ensures q != null ==> q.length == old(q.length) && q.negative == old(q.negative)
    ensures q != null ==> InRange(q.words, m) && At(q.words, m) == At(old(q.words), m)
    ensures q != null ==> V(q.words, m) == quot
  {
    hide At, Put, P, Range;
    ghost var a0, bv := a.Mag(), b.Mag();
    quot := 0;
    a.ZeroMag();
    if q != null {
      RangeEmpty(q.words, m);
    }
    var j: nat := m;
    while j > 0
      invariant j <= m
      invariant a.Canon() && a.negative == 0 && a.CleanTail()
      invariant 0 <= a.Mag() < bv * P(j)
      invariant a0 == a.Mag() + quot * (bv * P(j))
      invariant q != null ==> q.length == old(q.length) && q.negative == old(q.negative)
      invariant q != null ==> At(q.words, m) == At(old(q.words), m)
      invariant q != null ==> forall i: nat :: j <= i < m ==> 0 <= At(q.words, i) < BASE
      invariant q != null ==> Range(q.words, j, m) == quot
    {
      j := j - 1;
      ghost var before := a.Mag();
      BelowNextWeight(before, bv, j);
      var qj, _ := DivideDigit(a, b, j);
      DigitAppended(a0, before, a.Mag(), bv, j, quot, qj);
      if q != null {
        RangePut(q.words, j, m, qj);
        q.words := Put(q.words, j, qj);
      }
      quot := qj + BASE * quot;
    }
    WeightZero(bv, quot);
  }

  lemma BelowNextWeight(x: int, bv: int, j: nat)
    requires x < bv * P(j + 1)
    ensures x < BASE * (bv * P(j))
  {
    PStep(j);
    MulComm(bv, BASE);
    MulAssoc(bv, BASE, P(j));
    MulAssoc(BASE, bv, P(j));
  }

  lemma WeightZero(bv: int, quot: int)
    ensures bv * P(0) == bv && quot * (bv * P(0)) == quot * bv
  {
  }

  /** The normalised dividend has at most one unit above its other digits. */
  lemma FirstDigit(a: seq<int>, la: nat, b: seq<int>, lb: nat)
    requires 0 < lb <= la && InRange(a, la) && InRange(b, lb) && BASE / 2 <= At(b, lb - 1)
    ensures V(a, la) < 2 * (V(b, lb) * P(la - lb))
    ensures V(a, la) - (V(b, lb) * 1) * P(la - lb) > -P(lb + (la - lb))
  {
    hide V, P, At;
    var m, bv := la - lb, V(b, lb);
    VBound(a, la);
    NormalisedBound(b, lb);
    PAdd(lb, m);
    assert P(la) == P(lb) * P(m);
    FirstDigitBound(V(a, la), P(lb), P(m), bv);
  }

  /** A number with its top bit set is at least half of what its limbs could hold. */
  lemma NormalisedBound(b: seq<int>, lb: nat)
    requires 0 < lb && InRange(b, lb) && BASE / 2 <= At(b, lb - 1)
    ensures 0 <= V(b, lb) < P(lb) <= 2 * V(b, lb)
  {
    hide V, P, At;
    VBound(b, lb);
    VStep(b, lb - 1);
    VBound(b, lb - 1);
    MulLe(BASE / 2, At(b, lb - 1), P(lb - 1));
    PStep(lb - 1);
  }

  lemma FirstDigitBound(x: int, w: int, p: int, bv: int)
    requires 0 <= x < w * p && 0 < p && 0 <= bv < w <= 2 * bv
    ensures x < 2 * (bv * p) && x - (bv * 1) * p > -(w * p)
  {
    MulLt(bv, w, p);
    MulLe(w, 2 * bv, p);
    MulAssoc(2, bv, p);
  }

  /** Undoing the normalisation. */
  lemma Denormalise(x: int, y: int, k: int, rem: int, quot: int)
    requires 0 < y && 0 < k && 0 <= rem < y * k
    requires x * k == rem + quot * (y * k)
    ensures x / y == quot && rem == (x % y) * k && rem / k == x % y
  {
    DivScaled(x, y, k);
    DivModUnique(x * k, y * k, quot, rem);
    DivExact(x % y, k);
  }

  /** The quotient digit above the loop, 0 or 1. */
  method LeadingDigit(a: BN, b: BN, q: BN?, m: nat) returns (r: BN, ghost first: int)
    requires a.Canon() && a.negative == 0 && a.CleanTail()
    requires b.Canon() && b.negative == 0 && BASE / 2 <= At(b.words, b.length - 1)
    requires b.length <= a.length && m == a.length - b.length
    requires q != null ==> q != a && q != b && At(q.words, m) == 0
    modifies if q != null then {q} else {}
    ensures r == a || fresh(r)
    ensures r.Canon() && r.negative == 0 && r.CleanTail() && r.Mag() < b.Mag() * P(m)
    ensures a.Mag() == r.Mag() + first * (b.Mag() * P(m)) && 0 <= first <= 1
    ensures q != null ==> q.length == old(q.length) && q.negative == old(q.negative) && At(q.words, m) == first
  {
    hide V, At, Put, P, Range;
    FirstDigit(a.words, a.length, b.words, b.length);
    var diff := a.Clone();
    diff.IShlnSubMul(b, 1, m);
    diff.ZeroMag();
    r := a;
    first := 0;
    if diff.negative == 0 {
      r := diff;
      first := 1;
      if q != null {
        q.words := Put(q.words, m, 1);
      }
    }
  }

  /** All digits of the quotient of the normalised operands. */
  method NormalisedDivision(a0: BN, b: BN, q: BN?, m: nat) returns (a: BN, ghost quot: int)
    requires a0 != b && a0.Canon() && a0.negative == 0 && a0.CleanTail()
    requires b.Canon() && b.negative == 0 && BASE / 2 <= At(b.words, b.length - 1)
    requires b.length <= a0.length && m == a0.length - b.length
    requires q != null ==> q != a0 && q != b && q.length == m + 1 && q.negative == 0 && At(q.words, m) == 0
    modifies a0, if q != null then {q} else {}
    ensures a == a0 || fresh(a)
    ensures q != a && a.Canon() && a.negative == 0 && 0 <= a.Mag() < old(b.Mag())
    ensures old(a0.Mag()) == a.Mag() + quot * old(b.Mag())
    ensures q != null ==> q.WF() && q.negative == 0 && q.Mag() == quot
  {
    hide V, At, Put, P, Range, BN.CleanTail;
    ghost var bv, p := b.Mag(), P(m);
    ghost var first, low;
    a, first := LeadingDigit(a0, b, q, m);
    low := DivideDigits(a, b, q, m);
    TotalQuotient(first, bv, p, low);
    quot := low + first * p;
    if q != null {
      VStep(q.words, m);
    }
  }

  /** Divides magnitudes. q is the quotient unless only the remainder was asked for; the
      remainder is shifted back unless only the quotient was. */
  method WordDiv(self: BN, num: BN, mode: Mode) returns (q: BN?, a: BN)
    requires self.Canon() && self.negative == 0 && num.Canon() && num.negative == 0
    requires 0 < num.Mag() <= self.Mag()
    ensures fresh(a) && a.Canon() && a.negative == 0
    ensures q == null <==> mode == ModOnly
    ensures q != null ==> fresh(q) && q != a && q.Canon() && q.negative == 0
    ensures q != null ==> q.Mag() == self.Mag() / num.Mag()
    ensures mode != DivOnly ==> a.Mag() == self.Mag() % num.Mag()
  {
    hide V, At, Put, P, Range, PowerOfTwo, BN.CleanTail, TopNonzero;
    var b, shift;
    a, b, shift := Normalise(self, num);
    var m := a.length - b.length;
    q := null;
    if mode != ModOnly {
      q := new BN.Zeroed(m + 1);
    }
    ghost var quot;
    a, quot := NormalisedDivision(a, b, q, m);
    Denormalise(self.Mag(), num.Mag(), PowerOfTwo(shift), a.Mag(), quot);
    if q != null {
      q.Strip();
    }
    a.Strip();
    if mode != DivOnly && shift != 0 {
      a.IUShrn(shift);
    }
  }

  lemma TotalQuotient(first: int, bv: int, p: int, quot: int)
    ensures first * (bv * p) + quot * bv == (quot + first * p) * bv
  {
    MulComm(bv, p);
    MulAssoc(first, p, bv);
    MulAdd(quot, first * p, bv);
  }

  function Abs(x: int): nat {
    if x < 0 then -x else x
  }

  /** Quotient rounded towards zero. */
  function Quot(x: int, y: int): int
    requires y != 0
  {
    if (x < 0) == (y < 0) then Abs(x) / Abs(y) else -(Abs(x) / Abs(y))
  }

  /** The remainder that goes with it. */
  function Rem(x: int, y: int): int
    requires y != 0
  {
    if x < 0 then -(Abs(x) % Abs(y)) else Abs(x) % Abs(y)
  }

  /** What divmod promises: x = q * y + r with |r| < |y| and r of x's sign, and no other
      pair does that. */
  lemma TruncatedDivision(x: int, y: int, q: int, r: int)
    requires y != 0
    ensures q == Quot(x, y) && r == Rem(x, y) <==>
      x == q * y + r && Abs(r) < Abs(y) && (x >= 0 ==> r >= 0) && (x <= 0 ==> r <= 0)
  {
    DivMod(Abs(x), Abs(y));
    if x == q * y + r && Abs(r) < Abs(y) && (x >= 0 ==> r >= 0) && (x <= 0 ==> r <= 0) {
      var q' := if (x < 0) == (y < 0) then q else -q;
      SignedProduct(q, q', x, y);
      DivModUnique(Abs(x), Abs(y), q', Abs(r));
    }
    if q == Quot(x, y) && r == Rem(x, y) {
      SignedProduct(q, Abs(x) / Abs(y), x, y);
    }
  }

  lemma SignedProduct(q: int, q': int, x: int, y: int)
    requires q' == if (x < 0) == (y < 0) then q else -q
    ensures q * y == if x < 0 then -(q' * Abs(y)) else q' * Abs(y)
  {
  }

  /** The remainder umod wants: in [0, |y|) and congruent to x. */
  lemma UnsignedRemainder(x: int, y: int)
    requires y != 0
    ensures x % Abs(y) == if Rem(x, y) < 0 then Rem(x, y) + Abs(y) else Rem(x, y)
  {
    var m, q, r := Abs(y), Abs(x) / Abs(y), Abs(x) % Abs(y);
    DivMod(Abs(x), m);
    if x < 0 {
      if r == 0 {
        DivModUnique(x, m, -q, 0);
      } else {
        MulSub(-q, 1, m);
        DivModUnique(x, m, -q - 1, m - r);
      }
    }
  }

  lemma Signs(x: int, y: int)
    requires y != 0
    ensures Quot(-x, y) == -Quot(x, y) && Rem(-x, y) == -Rem(x, y)
    ensures Quot(x, -y) == -Quot(x, y) && Rem(x, -y) == Rem(x, y)
    ensures Quot(-x, -y) == Quot(x, y) && Rem(-x, -y) == -Rem(x, y)
    ensures x >= 0 && y > 0 ==> Quot(x, y) == x / y && Rem(x, y) == x % y
    ensures x == 0 ==> Quot(x, y) == 0 && Rem(x, y) == 0
    ensures x >= 0 ==> Rem(x, y) >= 0
  {
    ModSmall(0, Abs(y));
    DivMod(Abs(x), Abs(y));
  }

  /** Turns a remainder of num into the one in [0, |num|). */
  method MakeNonNegative(mod: BN, num: BN)
    requires mod.Canon() && num.Canon() && mod != num
    modifies mod, if num.negative != 0 then {num} else {}
    ensures mod.Canon() && num.Unchanged()
    ensures mod.Value() == old(if mod.Value() < 0 then mod.Value() + Abs(num.Value()) else mod.Value())
  {
    mod.ZeroMag();
    num.ZeroMag();
    if mod.negative != 0 {
      if num.negative == 0 {
        mod.IAdd(num);
      } else {
        mod.ISub(num);
      }
    }
  }

  /** divmod: truncated quotient and remainder. The remainder may be `self` itself. */
  method DivideBy(self: BN, num: BN, mode: Mode, positive: bool) returns (div: BN?, mod: BN?)
    requires self.Canon() && num.Canon() && num.Value() != 0
    modifies if num.negative != 0 then {num} else {}
    ensures num.Unchanged()
    ensures mode != ModOnly ==> div != null && fresh(div) && div.Canon()
    ensures mode != ModOnly ==> div.Value() == old(Quot(self.Value(), num.Value()))
    ensures mode != DivOnly ==> mod != null && (mod == self || fresh(mod)) && mod.Canon()
    ensures mode != DivOnly ==> mod != div
    ensures mode != DivOnly && positive ==> mod.Value() == old(self.Value() % Abs(num.Value()))
    ensures mode != DivOnly && !positive ==> mod.Value() == old(Rem(self.Value(), num.Value()))
    decreases self.negative + num.negative
  {
    hide Quot, Rem, BN.Canon, BN.WF, BN.Mag, BN.Value, BN.IsZero, BN.CleanTail;
    div, mod := null, null;
    self.SignOfValue();
    num.SignOfValue();
    ghost var x, y := self.Value(), num.Value();
    UnsignedRemainder(x, y);
    Signs(x, y);
    if self.IsZero() {
      div := new BN.FromSmall(0);
      mod := new BN.FromSmall(0);
      return;
    }
    if self.negative != 0 && num.negative == 0 {
      var pos := self.Neg();
      var d, m := DivideBy(pos, num, mode, false);
      if mode != ModOnly {
        div := d.Neg();
      }
      if mode != DivOnly {
        mod := m.Neg();
        if positive {
          MakeNonNegative(mod, num);
        }
      }
      return;
    }
    if self.negative == 0 && num.negative != 0 {
      var pos := num.Neg();
      div, mod := DivideBy(self, pos, mode, false);
      if mode != ModOnly {
        div := div.Neg();
      }
      return;
    }
    if self.negative != 0 && num.negative != 0 {
      var pos := self.Neg();
      var pos' := num.Neg();
      div, mod := DivideBy(pos, pos', mode, false);
      if mode != DivOnly {
        mod := mod.Neg();
        if positive {
          MakeNonNegative(mod, num);
        }
      }
      return;
    }
    div, mod := DivideMagnitudes(self, num, mode);
    if div != null && mode != ModOnly {
      div.SignOfValue();
    }
    if mod != null && mode != DivOnly {
      mod.SignOfValue();
    }
  }

  /** Both numbers are positive at this point. */
  method DivideMagnitudes(self: BN, num: BN, mode: Mode) returns (div: BN?, mod: BN?)
    requires self.Canon() && self.negative == 0 && num.Canon() && num.negative == 0 && num.Mag() > 0
    ensures mode != ModOnly ==> div != null && fresh(div) && div.Canon() && div.negative == 0
    ensures mode != ModOnly ==> div.Mag() == self.Mag() / num.Mag()
    ensures mode != DivOnly ==> mod != null && (mod == self || fresh(mod)) && mod.Canon() && mod.negative == 0
    ensures mode != DivOnly ==> mod != div
    ensures mode != DivOnly ==> mod.Mag() == self.Mag() % num.Mag()
  {
    num.LongerIsLarger(self);
    self.ZeroMag();
    var cmp := self.Cmp(num);
    if num.length > self.length || cmp < 0 {
      ModSmall(self.Mag(), num.Mag());
      div := new BN.FromSmall(0);
      mod := self;
      return;
    }
    if num.length == 1 {
      var n := At(num.words, 0);
      VStepZero(num.words);
      div, mod := null, null;
      if mode != ModOnly {
        div := self.Divn(n);
      }
      if mode != DivOnly {
        var r := self.Modn(n);
        mod := new BN.FromSmall(r);
      }
      return;
    }
    div, mod := WordDiv(self, num, mode);
  }

  /** this mod num, in [0, |num|) */
  method UMod(self: BN, num: BN) returns (r: BN)
    requires self.Canon() && num.Canon() && num.Value() != 0
    modifies if num.negative != 0 then {num} else {}
    ensures num.Unchanged()
    ensures r == self || fresh(r)
    ensures r.Canon() && r.Value() == old(self.Value()) % Abs(num.Value())
  {
    var _, mod := DivideBy(self, num, ModOnly, true);
    r := mod;
  }

  /** A number to compute with modulo m: a canonical residue. */
  ghost predicate IsResidue(a: BN, m: BN)
    reads a, m
  {
    a.Canon() && a.negative == 0 && 0 <= a.Value() < m.Value()
  }

  lemma ResidueLength(a: BN, m: BN)
    requires IsResidue(a, m) && m.Canon() && m.negative == 0
    ensures a.length <= m.length
  {
    a.LongerIsLarger(m);
  }

  /** umod by a positive number */
  method ToResidue(a: BN, m: BN) returns (r: BN)
    requires a.Canon() && m.Canon() && m.negative == 0 && m.Value() > 0
    ensures r == a || fresh(r)
    ensures IsResidue(r, m) && r.Value() == a.Value() % m.Value()
  {
    DivMod(a.Value(), m.Value());
    r := UMod(a, m);
    r.SignOfValue();
  }
}
