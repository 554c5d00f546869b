/** Little-endian numbers in base 2^26 stored in a JavaScript array. */
module Limbs {
  import opened Arith
  import opened JsNumber

  /** Reading `ws[i] | 0`: an index never written reads as zero. */
  function At(ws: seq<int>, i: nat): int {
    if i < |ws| then ws[i] else 0
  }

  /** Writing `ws[i] = x`: the array grows as needed. */
  function Put(ws: seq<int>, i: nat, x: int): (r: seq<int>)
    ensures forall j: nat :: At(r, j) == if j == i then x else At(ws, j)
    ensures |r| == if i < |ws| then |ws| else i + 1
  {
    if i < |ws| then ws[i := x] else ws + seq(i - |ws|, _ => 0) + [x]
  }

  predicate InRange(ws: seq<int>, n: nat) {
    forall i: nat :: i < n ==> 0 <= At(ws, i) < BASE
  }

  /** Weight of limb n. */
  function P(n: nat): (r: int)
    ensures 1 <= r
  {
    PowPositive(BASE, n);
    Pow(BASE, n)
  }

  /** The number held in limbs lo .. hi-1. */
  ghost function Range(ws: seq<int>, lo: nat, hi: nat): int
    requires lo <= hi
    decreases hi
  {
    if hi == lo then 0 else Range(ws, lo, hi - 1) + At(ws, hi - 1) * P(hi - 1 - lo)
  }

  /** The number held in the first n limbs. */
  ghost function V(ws: seq<int>, n: nat): (v: int)
    ensures n == 0 ==> v == 0
  {
    Range(ws, 0, n)
  }

  lemma PStep(n: nat)
    ensures P(n + 1) == BASE * P(n)
  {
  }

  lemma PMonotone(m: nat, n: nat)
    requires m <= n
    ensures P(m) <= P(n)
  {
    PowMonotone(BASE, m, n);
  }

  lemma PAdd(m: nat, n: nat)
    ensures P(m + n) == P(m) * P(n)
  {
    PowAdd(BASE, m, n);
  }

  lemma RangeEmpty(ws: seq<int>, n: nat)
    ensures Range(ws, n, n) == 0
  {
  }

  lemma {:induction false} RangeSame(ws: seq<int>, ws': seq<int>, lo: nat, hi: nat)
    requires lo <= hi
    requires forall i: nat :: lo <= i < hi ==> At(ws, i) == At(ws', i)
    ensures Range(ws, lo, hi) == Range(ws', lo, hi)
    decreases hi
  {
    if lo < hi {
      RangeSame(ws, ws', lo, hi - 1);
    }
  }

  lemma {:induction false} RangeShift(ws: seq<int>, ws': seq<int>, lo: nat, hi: nat, lo': nat)
    requires lo <= hi
    requires forall i: nat :: lo <= i < hi ==> At(ws, i) == At(ws', i - lo + lo')
    ensures Range(ws, lo, hi) == Range(ws', lo', hi - lo + lo')
    decreases hi
  {
    if lo < hi {
      RangeShift(ws, ws', lo, hi - 1, lo');
      assert hi - lo + lo' - 1 == hi - 1 - lo + lo';
      assert At(ws, hi - 1) == At(ws', hi - 1 - lo + lo');
    }
  }

  lemma {:induction false} RangeZero(ws: seq<int>, lo: nat, hi: nat)
    requires lo <= hi
    requires forall i: nat :: lo <= i < hi ==> At(ws, i) == 0
    ensures Range(ws, lo, hi) == 0
    decreases hi
  {
    if lo < hi {
      RangeZero(ws, lo, hi - 1);
    }
  }

  lemma {:induction false} RangeBound(ws: seq<int>, lo: nat, hi: nat)
    requires lo <= hi
    requires forall i: nat :: lo <= i < hi ==> 0 <= At(ws, i) < BASE
    ensures 0 <= Range(ws, lo, hi) < P(hi - lo)
    decreases hi
  {
    if lo < hi {
      RangeBound(ws, lo, hi - 1);
      MulLe(0, At(ws, hi - 1), P(hi - 1 - lo));
      MulLe(At(ws, hi - 1), BASE - 1, P(hi - 1 - lo));
      PStep(hi - 1 - lo);
    }
  }

  lemma {:induction false} RangeSplit(ws: seq<int>, lo: nat, mid: nat, hi: nat)
    requires lo <= mid <= hi
    ensures Range(ws, lo, hi) == Range(ws, lo, mid) + P(mid - lo) * Range(ws, mid, hi)
    decreases hi
  {
    if mid < hi {
      RangeSplit(ws, lo, mid, hi - 1);
      var x := At(ws, hi - 1);
      PAdd(mid - lo, hi - 1 - mid);
      MulAdd(Range(ws, mid, hi - 1), x * P(hi - 1 - mid), P(mid - lo));
      calc {
        P(mid - lo) * (x * P(hi - 1 - mid));
        { MulAssoc(P(mid - lo), x, P(hi - 1 - mid)); MulComm(P(mid - lo), x); }
        (x * P(mid - lo)) * P(hi - 1 - mid);
        { MulAssoc(x, P(mid - lo), P(hi - 1 - mid)); }
        x * P(hi - 1 - lo);
      }
    }
  }

  lemma VBound(ws: seq<int>, n: nat)
    requires InRange(ws, n)
    ensures 0 <= V(ws, n) < P(n)
  {
    RangeBound(ws, 0, n);
  }

  lemma VSame(ws: seq<int>, ws': seq<int>, n: nat)
    requires forall i: nat :: i < n ==> At(ws, i) == At(ws', i)
    ensures V(ws, n) == V(ws', n)
  {
    RangeSame(ws, ws', 0, n);
  }

  lemma VStep(ws: seq<int>, n: nat)
    ensures V(ws, n + 1) == V(ws, n) + At(ws, n) * P(n)
  {
  }

  /** Zero limbs on top do not count. */
  lemma VTop(ws: seq<int>, m: nat, n: nat)
    requires m <= n
    requires forall i: nat :: m <= i < n ==> At(ws, i) == 0
    ensures V(ws, n) == V(ws, m)
  {
    RangeSplit(ws, 0, m, n);
    RangeZero(ws, m, n);
  }

  lemma VStepZero(ws: seq<int>)
    ensures V(ws, 1) == At(ws, 0)
  {
    VStep(ws, 0);
  }

  /** One step of a carry loop over limbs lo, lo+1, ...: digit d and the carry so far
      are written as a limb and a new carry. */
  lemma CarryStep(ws: seq<int>, lo: nat, i: nat, carry: int, d: int, limb: int, carry': int)
    requires lo <= i
    requires limb + BASE * carry' == d + carry
    ensures Range(Put(ws, i, limb), lo, i + 1) + carry' * P(i + 1 - lo)
         == Range(ws, lo, i) + carry * P(i - lo) + d * P(i - lo)
  {
    RangeSame(ws, Put(ws, i, limb), lo, i);
    PStep(i - lo);
    assert i + 1 - lo == (i - lo) + 1;
    MulAssoc(carry', BASE, P(i - lo));
    MulAdd(limb, carry' * BASE, P(i - lo));
    MulAdd(d, carry, P(i - lo));
  }

  lemma VPut(ws: seq<int>, n: nat, x: int)
    ensures V(Put(ws, n, x), n + 1) == V(ws, n) + x * P(n)
  {
    VSame(ws, Put(ws, n, x), n);
  }

  /** One step of a loop that computes wa + k * wb limb by limb. */
  lemma CombineStep(ws: seq<int>, wa: seq<int>, wb: seq<int>, k: int, i: nat, carry: int, limb: int, carry': int)
    requires V(ws, i) + carry * P(i) == V(wa, i) + k * V(wb, i)
    requires limb + BASE * carry' == At(wa, i) + k * At(wb, i) + carry
    ensures V(Put(ws, i, limb), i + 1) + carry' * P(i + 1) == V(wa, i + 1) + k * V(wb, i + 1)
  {
    var x, y := At(wa, i), At(wb, i);
    CarryStep(ws, 0, i, carry, x + k * y, limb, carry');
    MulAdd(x, k * y, P(i));
    MulAssoc(k, y, P(i));
    MulAdd(V(wb, i), y * P(i), k);
  }

  /** One step of a loop that multiplies by k. */
  lemma ScaleStep(ws: seq<int>, wa: seq<int>, k: int, i: nat, carry: int, limb: int, carry': int)
    requires V(ws, i) + carry * P(i) == k * V(wa, i)
    requires limb + BASE * carry' == k * At(wa, i) + carry
    ensures V(Put(ws, i, limb), i + 1) + carry' * P(i + 1) == k * V(wa, i + 1)
  {
    var y := At(wa, i);
    CarryStep(ws, 0, i, carry, k * y, limb, carry');
    MulAssoc(k, y, P(i));
    MulAdd(V(wa, i), y * P(i), k);
  }

  /** The same for a factor of either sign, with what is rounded up on the way. */
  lemma RoundedScaleStep(ws: seq<int>, wa: seq<int>, k: int, i: nat, carry: int, limb: int, carry': int)
    requires V(ws, i) + carry * P(i) == k * V(wa, i) + Roundings(wa, i, k)
    requires limb + BASE * carry' == k * At(wa, i) + BASE * Rounding(At(wa, i), k) + carry
    ensures V(Put(ws, i, limb), i + 1) + carry' * P(i + 1) == k * V(wa, i + 1) + Roundings(wa, i + 1, k)
  {
    var y, c := At(wa, i), Rounding(At(wa, i), k);
    CarryStep(ws, 0, i, carry, k * y + BASE * c, limb, carry');
    MulAssoc(k, y, P(i));
    MulAdd(V(wa, i), y * P(i), k);
    MulAdd(k * y, BASE * c, P(i));
    MulComm(BASE, c);
    MulAssoc(c, BASE, P(i));
    PStep(i);
  }

  /** A limb read from the top multiplies what was read before by 2^26. */
  lemma RangeHead(ws: seq<int>, lo: nat, hi: nat)
    requires lo < hi
    ensures Range(ws, lo, hi) == At(ws, lo) + BASE * Range(ws, lo + 1, hi)
  {
    RangeSplit(ws, lo, lo + 1, hi);
    PStep(0);
    assert Range(ws, lo, lo + 1) == Range(ws, lo, lo) + At(ws, lo) * P(0);
  }

  lemma RangePut(ws: seq<int>, lo: nat, hi: nat, x: int)
    requires lo < hi
    ensures Range(Put(ws, lo, x), lo, hi) == x + BASE * Range(ws, lo + 1, hi)
  {
    RangeHead(Put(ws, lo, x), lo, hi);
    RangeSame(ws, Put(ws, lo, x), lo + 1, hi);
  }

  /** One step of a loop that divides by d from the top limb down, keeping a remainder. */
  lemma DivideStep(ws: seq<int>, wa: seq<int>, d: int, i: nat, n: nat, rem: int, limb: int, rem': int)
    requires i < n
    requires Range(ws, i + 1, n) * d + rem == Range(wa, i + 1, n)
    requires limb * d + rem' == At(wa, i) + BASE * rem
    ensures Range(Put(ws, i, limb), i, n) * d + rem' == Range(wa, i, n)
  {
    var q := Range(ws, i + 1, n);
    RangePut(ws, i, n, limb);
    RangeHead(wa, i, n);
    MulAdd(limb, BASE * q, d);
    MulAssoc(BASE, q, d);
  }

  /** Dropping the low s limbs divides by their weight. */
  lemma VDrop(ws: seq<int>, wa: seq<int>, s: nat, n: nat)
    requires InRange(wa, s)
    requires forall i: nat :: i < n ==> At(ws, i) == At(wa, i + s)
    ensures V(ws, n) == V(wa, n + s) / P(s)
  {
    RangeShift(ws, wa, 0, n, s);
    RangeSplit(wa, 0, s, n + s);
    VBound(wa, s);
    MulComm(P(s), V(ws, n));
    DivModUnique(V(wa, n + s), P(s), V(ws, n), V(wa, s));
  }

  lemma PPow2(n: nat)
    ensures P(n) == Pow(2, 26 * n)
  {
    PowTwo26();
    PowMul(2, 26, n);
  }

  /** Weight of bit r of limb n. */
  lemma BitWeight(n: nat, r: nat)
    ensures PowerOfTwo(n * 26 + r) == PowerOfTwo(r) * P(n)
  {
    PPow2(n);
    PowAdd(2, 26 * n, r);
    MulComm(PowerOfTwo(r), P(n));
  }

  /** Bits split into whole limbs and the rest. */
  lemma BitsSplit(bits: nat)
    ensures PowerOfTwo(bits) == P(bits / 26) * PowerOfTwo(bits % 26)
    ensures bits / 26 == 0 ==> P(bits / 26) == 1
    ensures bits % 26 == 0 ==> PowerOfTwo(bits % 26) == 1
  {
    PPow2(bits / 26);
    PowAdd(2, 26 * (bits / 26), bits % 26);
  }

  /** Past the end of the shorter operand only the carry is added. */
  lemma PropagateStep(ws: seq<int>, wa: seq<int>, rest: int, i: nat, carry: int, limb: int, carry': int)
    requires V(ws, i) + carry * P(i) == V(wa, i) + rest
    requires limb + BASE * carry' == At(wa, i) + carry
    ensures V(Put(ws, i, limb), i + 1) + carry' * P(i + 1) == V(wa, i + 1) + rest
  {
    CarryStep(ws, 0, i, carry, At(wa, i), limb, carry');
  }

  /** Limbs that were copied add the same to both numbers. */
  lemma VCopied(ws: seq<int>, wa: seq<int>, i: nat, n: nat)
    requires i <= n
    requires forall j: nat :: i <= j < n ==> At(ws, j) == At(wa, j)
    ensures V(ws, n) - V(ws, i) == V(wa, n) - V(wa, i)
  {
    RangeSplit(ws, 0, i, n);
    RangeSplit(wa, 0, i, n);
    RangeSame(ws, wa, i, n);
  }

  /** A number with a nonzero top limb is at least the weight of that limb. */
  lemma VTopNonzero(ws: seq<int>, n: nat)
    requires 0 < n && InRange(ws, n) && At(ws, n - 1) != 0
    ensures P(n - 1) <= V(ws, n)
  {
    VStep(ws, n - 1);
    VBound(ws, n - 1);
    MulLe(1, At(ws, n - 1), P(n - 1));
  }

  /** ... and conversely. */
  lemma TopFromValue(ws: seq<int>, n: nat)
    requires 0 < n && InRange(ws, n) && P(n - 1) <= V(ws, n)
    ensures At(ws, n - 1) != 0
  {
    VStep(ws, n - 1);
    VBound(ws, n - 1);
  }

  /** Comparing from the top: the first differing limb decides. */
  lemma VCompare(ws: seq<int>, ws': seq<int>, i: nat, n: nat)
    requires i < n && InRange(ws, n) && InRange(ws', n)
    requires forall j: nat :: i < j < n ==> At(ws, j) == At(ws', j)
    requires At(ws, i) < At(ws', i)
    ensures V(ws, n) < V(ws', n)
  {
    RangeSplit(ws, 0, i + 1, n);
    RangeSplit(ws', 0, i + 1, n);
    RangeSame(ws, ws', i + 1, n);
    VStep(ws, i);
    VStep(ws', i);
    VBound(ws, i);
    VBound(ws', i);
    MulLe(At(ws, i) + 1, At(ws', i), P(i));
    MulAdd(At(ws, i), 1, P(i));
  }

  /** The low s limbs are the remainder by the weight of limb s. */
  lemma VLow(ws: seq<int>, s: nat, n: nat)
    requires s <= n && InRange(ws, n)
    ensures V(ws, s) == V(ws, n) % P(s)
  {
    RangeSplit(ws, 0, s, n);
    VBound(ws, s);
    MulComm(P(s), Range(ws, s, n));
    DivModUnique(V(ws, n), P(s), Range(ws, s, n), V(ws, s));
  }

  /** Keeping the low r bits of limb s, above s whole limbs. */
  lemma VMask(ws: seq<int>, s: nat, r: nat, n: nat)
    requires s < n && InRange(ws, n) && r < 26
    ensures 0 <= At(ws, s) % PowerOfTwo(r) < BASE
    ensures V(ws, s) + (At(ws, s) % PowerOfTwo(r)) * P(s) == V(ws, n) % (P(s) * PowerOfTwo(r))
  {
    var u, w, hi := PowerOfTwo(r), At(ws, s), Range(ws, s + 1, n);
    RangeSplit(ws, 0, s, n);
    RangeHead(ws, s, n);
    VBound(ws, s);
    PowAdd(2, r, 26 - r);
    PowTwo26();
    var up := PowerOfTwo(26 - r);
    DivMod(w, u);
    MulLe(1, up, u);
    var q, low := w / u + up * hi, w % u;
    MulAdd(w / u, up * hi, u);
    MulAssoc(u, up, hi);
    assert w + BASE * hi == q * u + low;
    MulAdd(q * u, low, P(s));
    MulAssoc(q, u, P(s));
    MulComm(u, P(s));
    MulLe(low, u - 1, P(s));
    MulSub(u, 1, P(s));
    MulLe(0, low, P(s));
    MulLe(1, u, P(s));
    DivModUnique(V(ws, n), P(s) * u, q, low * P(s) + V(ws, s));
  }

  /** The lowest limb carries the remainder by any power of two up to 2^26. */
  lemma VLowBits(ws: seq<int>, n: nat, r: nat)
    requires 0 < n && InRange(ws, n) && r <= 26
    ensures V(ws, n) % PowerOfTwo(r) == At(ws, 0) % PowerOfTwo(r)
  {
    RangeHead(ws, 0, n);
    PowAdd(2, r, 26 - r);
    PowTwo26();
    var k := PowerOfTwo(26 - r) * Range(ws, 1, n);
    MulAssoc(PowerOfTwo(r), PowerOfTwo(26 - r), Range(ws, 1, n));
    MulComm(PowerOfTwo(r), k);
    ModAddMultiple(At(ws, 0), k, PowerOfTwo(r));
  }

  /** Moving one unit of limb i + 1 down to limb i, or back up, changes nothing. */
  lemma MoveUnit(ws: seq<int>, i: nat, d: int)
    ensures V(Put(Put(ws, i, At(ws, i) - d * BASE), i + 1, At(ws, i + 1) + d), i + 2) == V(ws, i + 2)
  {
    var ws' := Put(Put(ws, i, At(ws, i) - d * BASE), i + 1, At(ws, i + 1) + d);
    VSame(ws, ws', i);
    VStep(ws, i);
    VStep(ws', i);
    VStep(ws, i + 1);
    VStep(ws', i + 1);
    PStep(i);
    MulSub(At(ws, i), d * BASE, P(i));
    MulAdd(At(ws, i + 1), d, P(i + 1));
    MulAssoc(d, BASE, P(i));
  }

  /** ... also when the number goes on above. */
  lemma MoveUnitBelow(ws: seq<int>, i: nat, d: int, n: nat)
    requires i + 2 <= n
    ensures V(Put(Put(ws, i, At(ws, i) - d * BASE), i + 1, At(ws, i + 1) + d), n) == V(ws, n)
  {
    var ws' := Put(Put(ws, i, At(ws, i) - d * BASE), i + 1, At(ws, i + 1) + d);
    MoveUnit(ws, i, d);
    VCopied(ws', ws, i + 2, n);
  }

  /** ... and when limb i is the top one, a new limb appears. */
  lemma MoveUnitTop(ws: seq<int>, i: nat)
    ensures V(Put(Put(ws, i, At(ws, i) - BASE), i + 1, 1), i + 2) == V(ws, i + 1)
  {
    var ws' := Put(Put(ws, i, At(ws, i) - BASE), i + 1, 1);
    VSame(ws, ws', i);
    VStep(ws, i);
    VStep(ws', i);
    VStep(ws', i + 1);
    PStep(i);
    MulSub(At(ws, i), BASE, P(i));
  }

  lemma AddToLow(ws: seq<int>, num: int, n: nat)
    requires 1 <= n
    ensures V(Put(ws, 0, At(ws, 0) + num), n) == V(ws, n) + num
  {
    var ws' := Put(ws, 0, At(ws, 0) + num);
    VStepZero(ws);
    VStepZero(ws');
    VCopied(ws', ws, 1, n);
  }

  lemma VNegativeTop(ws: seq<int>, n: nat)
    requires 0 < n && InRange(ws, n - 1) && At(ws, n - 1) < 0
    ensures V(ws, n) < 0
  {
    VStep(ws, n - 1);
    VBound(ws, n - 1);
    MulLe(At(ws, n - 1), -1, P(n - 1));
  }

  /** Scaling a number leaves its top limb nonzero, if no limb was added. */
  lemma ScaledTop(ws: seq<int>, wa: seq<int>, k: int, n: nat)
    requires 1 <= k && 0 < n && InRange(ws, n) && InRange(wa, n)
    requires V(ws, n) == k * V(wa, n)
    ensures n > 1 && At(wa, n - 1) != 0 ==> At(ws, n - 1) != 0
    ensures n == 1 && At(wa, 0) != 0 ==> At(ws, 0) != 0
  {
    VBound(wa, n);
    MulLe(1, k, V(wa, n));
    if At(wa, n - 1) != 0 {
      VTopNonzero(wa, n);
      TopFromValue(ws, n);
    }
  }

  /** 1 where imuln rounds a product up: a negative one is split towards zero in its high
      part and downwards in its low part. */
  function Rounding(w: int, num: int): (r: int)
    ensures num >= 0 ==> r == 0
    ensures 0 <= r <= 1
  {
    if num < 0 && (w * num) % BASE != 0 then 1 else 0
  }

  /** What all of these add up to over limbs 0 .. n-1. */
  ghost function Roundings(ws: seq<int>, n: nat, num: int): int {
    if n == 0 then 0 else Roundings(ws, n - 1, num) + Rounding(At(ws, n - 1), num) * P(n)
  }

  lemma {:induction false} NoRoundings(ws: seq<int>, n: nat, num: int)
    requires InRange(ws, n)
    ensures num >= 0 || V(ws, n) == 0 ==> Roundings(ws, n, num) == 0
  {
    if n > 0 {
      NoRoundings(ws, n - 1, num);
      VStep(ws, n - 1);
      VBound(ws, n - 1);
      if At(ws, n - 1) > 0 {
        MulLe(1, At(ws, n - 1), P(n - 1));
      }
    }
  }

  lemma OneRounding(ws: seq<int>, num: int)
    ensures Roundings(ws, 1, num) == BASE * Rounding(At(ws, 0), num)
  {
    assert Roundings(ws, 1, num) == Roundings(ws, 0, num) + Rounding(At(ws, 0), num) * P(0 + 1);
  }

  /** The limb and the carry computed by imuln. */
  lemma MulnLimb(w: int, num: int, carry: int)
    requires 0 <= w < BASE && -BASE < num < BASE && -BASE < carry < BASE
    requires num >= 0 ==> 0 <= carry
    ensures -MAX_EXACT <= w * num <= MAX_EXACT
    ensures var lo := Low26(w * num) + Low26(carry);
      var carry' := Shr26(carry) + Hi26(w * num) + UShr26(lo);
      -BASE < carry' < BASE && (num >= 0 ==> 0 <= carry') &&
      Low26(lo) + BASE * carry' == num * w + BASE * Rounding(w, num) + carry
  {
    var p := w * num;
    if num >= 0 {
      LimbProduct(w, num);
    } else {
      LimbProduct(w, -num);
      MulNeg(w, num);
      TruncatedSplit(-p);
    }
    SplitLow(p);
    SplitLow(carry);
    SplitLow(Low26(p) + Low26(carry));
  }

  lemma LimbProduct(w: int, num: int)
    requires 0 <= w < BASE && 0 <= num < BASE
    ensures 0 <= w * num <= (BASE - 1) * (BASE - 1)
  {
    MulLe(w, BASE - 1, num);
    MulLe(num, BASE - 1, BASE - 1);
    MulLe(0, w, num);
  }

  lemma MulNeg(w: int, num: int)
    ensures w * (-num) == -(w * num)
  {
  }

  /** Rounding up and rounding down differ by one unless nothing is rounded. */
  lemma TruncatedSplit(x: int)
    requires 0 <= x
    ensures -(x / BASE) == (-x) / BASE + if (-x) % BASE != 0 then 1 else 0
  {
  }

  /** The limb and the carry computed by _ishlnsubmul: nothing leaves the int32 range. */
  lemma SubmulLimb(w: int, n: int, mul: int, carry: int)
    requires 0 <= w < BASE && 0 <= n < BASE && 0 <= mul < BASE && -BASE < carry <= 0
    ensures 0 <= n * mul <= MAX_EXACT
    ensures var w' := w + carry - Low26(n * mul);
      var carry' := Shr26(w') - Hi26(n * mul);
      -BASE < carry' <= 0 && Low26(w') + BASE * carry' == w - mul * n + carry
  {
    var right := n * mul;
    MulLe(n, BASE - 1, mul);
    MulLe(mul, BASE - 1, BASE - 1);
    MulLe(0, n, mul);
    SplitLow(right);
    SplitLow(w + carry - Low26(right));
  }

  lemma SubmulStep(ws: seq<int>, wa: seq<int>, wn: seq<int>, mul: int, shift: nat, i: nat, carry: int,
      limb: int, carry': int)
    requires Range(ws, shift, i + shift) + carry * P(i) == Range(wa, shift, i + shift) - mul * V(wn, i)
    requires At(ws, i + shift) == At(wa, i + shift)
    requires limb + BASE * carry' == At(wa, i + shift) - mul * At(wn, i) + carry
    ensures Range(Put(ws, i + shift, limb), shift, i + 1 + shift) + carry' * P(i + 1)
         == Range(wa, shift, i + 1 + shift) - mul * V(wn, i + 1)
  {
    var x, y := At(wa, i + shift), At(wn, i);
    assert i + shift + 1 - shift == i + 1 && i + shift - shift == i;
    CarryStep(ws, shift, i + shift, carry, x - mul * y, limb, carry');
    MulSub(x, mul * y, P(i));
    MulAssoc(mul, y, P(i));
    MulAdd(V(wn, i), y * P(i), mul);
  }

  lemma BorrowStep(ws: seq<int>, wa: seq<int>, rest: int, shift: nat, i: nat, carry: int, limb: int, carry': int)
    requires Range(ws, shift, i + shift) + carry * P(i) == Range(wa, shift, i + shift) - rest
    requires limb + BASE * carry' == At(wa, i + shift) + carry
    ensures Range(Put(ws, i + shift, limb), shift, i + 1 + shift) + carry' * P(i + 1)
         == Range(wa, shift, i + 1 + shift) - rest
  {
    assert i + shift + 1 - shift == i + 1 && i + shift - shift == i;
    CarryStep(ws, shift, i + shift, carry, At(wa, i + shift), limb, carry');
  }

  lemma ShiftedDifference(ws: seq<int>, wa: seq<int>, shift: nat, n: nat, carry: int, product: int)
    requires shift <= n
    requires forall j: nat :: j < shift ==> At(ws, j) == At(wa, j)
    requires Range(ws, shift, n) + carry * P(n - shift) == Range(wa, shift, n) - product
    ensures V(ws, n) + carry * P(n) == V(wa, n) - product * P(shift)
  {
    RangeSplit(ws, 0, shift, n);
    RangeSplit(wa, 0, shift, n);
    VSame(ws, wa, shift);
    PAdd(shift, n - shift);
    var r, r', p := Range(ws, shift, n), Range(wa, shift, n), P(shift);
    MulAdd(r, carry * P(n - shift), p);
    MulSub(r', product, p);
    MulAssoc(carry, P(n - shift), p);
    MulComm(P(n - shift), p);
    MulComm(p, carry * P(n - shift));
    MulComm(product, p);
  }

  /** One step of modn's Horner loop. */
  lemma HornerStep(ws: seq<int>, i: nat, n: nat, d: int, acc: int)
    requires i < n && 0 < d && acc == Range(ws, i + 1, n) % d
    ensures ((BASE % d) * acc + At(ws, i)) % d == Range(ws, i, n) % d
  {
    var q := Range(ws, i + 1, n);
    RangeHead(ws, i, n);
    ModMulBoth(BASE, q, d);
    ModAdd((BASE % d) * acc, At(ws, i), d);
    ModAdd(BASE * q, At(ws, i), d);
  }

  /** The number of limbs of a number without leading zeros is determined by its value. */
  lemma LengthFromValue(ws: seq<int>, n: nat, k: nat)
    requires 0 < n && InRange(ws, n) && (n > 1 ==> At(ws, n - 1) != 0)
    requires 0 < k && P(k - 1) <= V(ws, n) < P(k)
    ensures n == k
  {
    VBound(ws, n);
    if n > k {
      VTopNonzero(ws, n);
      PMonotone(k, n - 1);
    } else if n < k {
      PMonotone(n, k - 1);
    }
  }

  /** The limbs above contribute an even multiple of the bit's weight. */
  lemma BitBelow(w: int, rest: int, u: int, half: int)
    requires 0 < u && 2 * (u * half) == BASE
    ensures ((w + BASE * rest) / u) % 2 == (w / u) % 2
  {
    var k := half * rest;
    assert BASE * rest == (2 * k) * u by {
      MulAssoc(2, u * half, rest);
      MulAssoc(u, half, rest);
      MulComm(u, k);
      MulAssoc(2, k, u);
    }
    DivMod(w, u);
    MulAdd(w / u, 2 * k, u);
    DivModUnique(w + (2 * k) * u, u, w / u + 2 * k, w % u);
  }

  /** Bit j of limb i is bit 26 i + j of the number. */
  lemma VBit(ws: seq<int>, i: nat, j: nat, n: nat)
    requires i < n && InRange(ws, n) && j < 26
    ensures (V(ws, n) / PowerOfTwo(i * 26 + j)) % 2 == (At(ws, i) / PowerOfTwo(j)) % 2
  {
    hide P;
    var u, w, rest := PowerOfTwo(j), At(ws, i), Range(ws, i + 1, n);
    RangeSplit(ws, 0, i, n);
    RangeHead(ws, i, n);
    VBound(ws, i);
    MulComm(P(i), Range(ws, i, n));
    DivModUnique(V(ws, n), P(i), Range(ws, i, n), V(ws, i));
    BitWeight(i, j);
    MulComm(u, P(i));
    DivDiv(V(ws, n), P(i), u);
    PowAdd(2, j, 25 - j);
    PowTwo26();
    BitBelow(w, rest, u, PowerOfTwo(25 - j));
  }
}
