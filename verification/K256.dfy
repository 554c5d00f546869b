/** Fast reduction modulo the secp256k1 field prime, p = 2^256 - 2^32 - 977. */
module K256 {
  import opened Arith
  import opened JsNumber
  import opened Limbs
  import opened BigNum

  const MASK22 := 0x40_0000 // `x & 0x3fffff` is x % MASK22, `x >>> 22` is x / MASK22
  const K := 0x1_0000_03d1

  ghost function TwoTo256(): (r: int)
    ensures r == PowerOfTwo(256) && r == MASK22 * P(9) && r > 2 * K
  {
    BitWeight(9, 22);
    PowTwo26();
    PowAdd(2, 22, 4);
    PMonotone(2, 9);
    PStep(1);
    PStep(0);
    PowerOfTwo(256)
  }

  ghost function Prime(): int {
    TwoTo256() - K
  }

  /** The limbs of input above bit 256 move down over 9 limbs and 22 bits. */
  lemma SplitStep(ws: seq<int>, wa: seq<int>, i: nat, low: int)
    requires 10 <= i && 0 <= At(wa, i - 1) && 0 <= At(wa, i)
    requires Range(wa, 9, i) == low + MASK22 * (V(ws, i - 10) + (At(wa, i - 1) / MASK22) * P(i - 10))
    ensures Range(wa, 9, i + 1) == low + MASK22 *
      (V(Put(ws, i - 10, (At(wa, i) % MASK22) * 16 + At(wa, i - 1) / MASK22), i - 9) + (At(wa, i) / MASK22) * P(i - 9))
  {
    var next, x, p := At(wa, i), At(wa, i - 1) / MASK22, P(i - 10);
    var lo, hi := next % MASK22, next / MASK22;
    VPut(ws, i - 10, lo * 16 + x);
    assert i - 10 + 1 == i - 9;
    PStep(i - 10);
    assert next == lo + MASK22 * hi;
    MulAdd(lo, MASK22 * hi, P(i - 9));
    MulAssoc(MASK22, hi, P(i - 9));
    MulAdd(lo * 16, x, p);
    MulAssoc(lo, BASE, p);
    MulAssoc(lo, 16, p);
  }

  /** The loop that shifts the limbs of input above bit 256 down. */
  method ShiftDown(input: BN)
    requires input.Canon() && input.negative == 0 && input.length > 9
    modifies input
    ensures input.Canon() && input.negative == 0
    ensures Range(old(input.words), 9, old(input.length)) == At(old(input.words), 9) % MASK22 + MASK22 * input.Mag()
    ensures input.length <= old(input.length) - 9
  {
    hide At, Put, P, V;
    ghost var wa, n, low := input.words, input.length, At(input.words, 9) % MASK22;
    var prev := At(input.words, 9);
    RangeOne(wa, 9);
    var i := 10;
    while i < input.length
      modifies input`words
      invariant 10 <= i <= n && prev == At(wa, i - 1)
      invariant InRange(input.words, i - 10)
      invariant forall j: nat :: i - 10 <= j ==> At(input.words, j) == At(wa, j)
      invariant Range(wa, 9, i) == low + MASK22 * (V(input.words, i - 10) + (prev / MASK22) * P(i - 10))
    {
      var next := At(input.words, i);
      SplitStep(input.words, wa, i, low);
      input.words := Put(input.words, i - 10, (next % MASK22) * 16 + prev / MASK22);
      prev := next;
      i := i + 1;
    }
    prev := prev / MASK22;
    VPut(input.words, i - 10, prev);
    input.words := Put(input.words, i - 10, prev);
    if prev == 0 && input.length > 10 {
      ShiftedTop(wa, n, low, input.words);
      input.length := input.length - 10;
    } else {
      input.length := input.length - 9;
    }
  }

  lemma RangeOne(ws: seq<int>, i: nat)
    ensures Range(ws, i, i + 1) == At(ws, i)
    ensures At(ws, i) == At(ws, i) % MASK22 + MASK22 * (V(ws, 0) + (At(ws, i) / MASK22) * P(0))
  {
    RangeHead(ws, i, i + 1);
  }

  /** If the top limb vanishes, the one below it does not. */
  lemma ShiftedTop(wa: seq<int>, n: nat, low: int, ws: seq<int>)
    requires n > 10 && InRange(wa, n) && At(wa, n - 1) != 0 && 0 <= low < MASK22
    requires InRange(ws, n - 9) && At(ws, n - 10) == 0
    requires Range(wa, 9, n) == low + MASK22 * V(ws, n - 9)
    ensures At(ws, n - 11) != 0 && V(ws, n - 10) == V(ws, n - 9)
  {
    var k := n - 10;
    VStep(ws, k);
    RangeBound(wa, 9, n - 1);
    MulLe(1, At(wa, n - 1), P(k));
    assert n - 1 - 9 == k;
    assert P(k) <= low + MASK22 * V(ws, k);
    PStep(k - 1);
    VBound(ws, k);
    TopFromValue(ws, k);
  }

  /** Moves the low 256 bits to output and leaves the rest in input. */
  method Split(input: BN, output: BN)
    requires input.Canon() && input.negative == 0 && input != output && output.negative == 0
    modifies input, output
    ensures input.Canon() && input.negative == 0 && output.WF() && output.negative == 0
    ensures old(input.Mag()) == input.Mag() * TwoTo256() + output.Mag()
    ensures output.Mag() < TwoTo256()
    ensures output.length <= 10 && (output.length == 10 ==> At(output.words, 9) < MASK22)
    ensures input.length <= old(input.length)
  {
    hide At, Put, P, V, TwoTo256;
    ghost var wa, n := input.words, input.length;
    var outLen := if input.length < 9 then input.length else 9;
    var i := 0;
    while i < outLen
      modifies output`words
      invariant i <= outLen
      invariant forall j: nat :: j < i ==> At(output.words, j) == At(wa, j)
    {
      output.words := Put(output.words, i, At(input.words, i));
      i := i + 1;
    }
    output.length := outLen;
    VSame(output.words, wa, outLen);
    LowPart(wa, n);
    if input.length <= 9 {
      input.words := Put(input.words, 0, 0);
      input.length := 1;
      VStepZero(input.words);
      return;
    }
    VPut(output.words, 9, At(input.words, 9) % MASK22);
    output.words := Put(output.words, 9, At(input.words, 9) % MASK22);
    output.length := 10;
    ShiftDown(input);
    Reassemble(wa, n, At(wa, 9) % MASK22, input.Mag());
  }

  /** Fewer than ten limbs stay below 2^256. */
  lemma LowPart(ws: seq<int>, n: nat)
    requires InRange(ws, n) && 0 < n
    ensures n <= 9 ==> V(ws, n) < TwoTo256()
  {
    VBound(ws, n);
    if n <= 9 {
      PMonotone(n, 9);
    }
  }

  lemma Reassemble(ws: seq<int>, n: nat, low: int, hi: int)
    requires n > 9 && InRange(ws, n) && 0 <= low < MASK22
    requires Range(ws, 9, n) == low + MASK22 * hi
    ensures V(ws, n) == hi * TwoTo256() + (V(ws, 9) + low * P(9))
    ensures V(ws, 9) + low * P(9) < TwoTo256()
  {
    var p := P(9);
    RangeSplit(ws, 0, 9, n);
    VBound(ws, 9);
    MulAdd(low, MASK22 * hi, p);
    MulAssoc(hi, MASK22, p);
    MulComm(hi, MASK22);
    MulComm(p, low + MASK22 * hi);
    MulLe(low, MASK22 - 1, p);
  }

  /** The running word of imulK after limb x. */
  function KCarry(x: int, lo: int): int
    requires 0 <= x < BASE && 0 <= lo <= 0x1_0000_03d0
  {
    x * 0x40 + Hi26(lo + x * 0x3d1)
  }

  /** The limb and the carry of imulK. The carry stays at or below 0x40 * 2^26 + 0x3d0. */
  lemma KLimb(x: int, lo: int)
    requires 0 <= x < BASE && 0 <= lo <= 0x1_0000_03d0
    ensures var s := lo + x * 0x3d1;
      s <= MAX_EXACT && 0 <= KCarry(x, lo) <= 0x1_0000_03d0 &&
      Low26(s) + BASE * KCarry(x, lo) == K * x + lo
  {
    SplitLow(lo + x * 0x3d1);
  }

  /** Two limbs of all ones take the running word to 0x1_0000_0390 and then to its bound. */
  lemma BoundIsReached()
    ensures KCarry(BASE - 1, 0) == 0x1_0000_0390 && KCarry(BASE - 1, 0x1_0000_0390) == 0x1_0000_03d0
  {
  }

  /** Multiplies by K = [0x3d1, 0x40]. */
  method ImulK(num: BN)
    requires num.Canon() && num.negative == 0
    modifies num
    ensures num.Canon() && num.negative == 0 && num.Mag() == old(num.Mag()) * K
    ensures num.length <= old(num.length) + 2
  {
    hide At, Put, P, V, Low26, Hi26;
    ghost var w0, n := num.words, num.length;
    num.words := Put(num.words, num.length, 0);
    num.words := Put(num.words, num.length + 1, 0);
    num.length := num.length + 2;
    ghost var w := num.words;
    VSame(w0, w, n);
    VTop(w, n, n + 2);
    var lo, i := 0, 0;
    while i < num.length
      modifies num`words
      invariant i <= n + 2 && 0 <= lo <= 0x1_0000_03d0
      invariant InRange(num.words, i)
      invariant forall j: nat :: i <= j ==> At(num.words, j) == At(w, j)
      invariant V(num.words, i) + lo * P(i) == K * V(w, i)
    {
      var x := At(num.words, i);
      KLimb(x, lo);
      ghost var carry := lo;
      lo := Exact(lo + x * 0x3d1);
      ScaleStep(num.words, w, K, i, carry, Low26(lo), x * 0x40 + Hi26(lo));
      num.words := Put(num.words, i, Low26(lo));
      lo := x * 0x40 + Hi26(lo);
      i := i + 1;
    }
    KProduct(num.words, w, n, lo, w0);
    DropZeros(num, n);
    MulComm(K, V(w0, n));
  }

  /** Takes off the one or two appended limbs that stayed zero. */
  method DropZeros(num: BN, ghost n: nat)
    requires 0 < n && num.length == n + 2 && InRange(num.words, n + 2) && num.negative == 0
    requires At(num.words, n + 1) != 0 || At(num.words, n) != 0 || (n == 1 && At(num.words, 0) == 0)
    modifies num`length
    ensures num.Canon() && num.Mag() == old(num.Mag()) && num.length <= n + 2
  {
    hide At, P, V;
    VStep(num.words, n + 1);
    VStep(num.words, n);
    if At(num.words, num.length - 1) == 0 {
      num.length := num.length - 1;
      if At(num.words, num.length - 1) == 0 {
        num.length := num.length - 1;
      }
    }
  }

  /** No carry is left, and at most one limb of a nonzero product is a leading zero. */
  lemma KProduct(ws: seq<int>, w: seq<int>, n: nat, lo: int, w0: seq<int>)
    requires 0 < n && InRange(w, n) && V(w, n + 2) == V(w, n) && InRange(ws, n + 2) && lo >= 0
    requires V(ws, n + 2) + lo * P(n + 2) == K * V(w, n + 2)
    requires n > 1 ==> At(w, n - 1) != 0
    ensures lo == 0
    ensures V(w, n) != 0 ==> At(ws, n + 1) != 0 || At(ws, n) != 0
    ensures V(w, n) == 0 ==> n == 1 && At(ws, 0) == 0 && At(ws, 1) == 0 && At(ws, 2) == 0
  {
    VBound(w, n);
    VBound(ws, n + 2);
    PStep(n);
    PStep(n + 1);
    MulLe(K, BASE * BASE, V(w, n));
    if lo >= 1 {
      MulLe(1, lo, P(n + 2));
      assert false;
    }
    VStep(ws, n + 1);
    VStep(ws, n);
    if n > 1 {
      VTopNonzero(w, n);
    } else {
      VStepZero(w);
    }
    if V(w, n) != 0 {
      PStep(n - 1);
      assert P(n - 1) <= V(w, n) by {
        if n == 1 {
          assert P(0) == 1;
        }
      }
      VBound(ws, n);
    } else {
      VStepZero(ws);
      ZeroLimbs(ws, n + 2);
    }
  }

  lemma {:induction false} ZeroLimbs(ws: seq<int>, n: nat)
    requires InRange(ws, n) && V(ws, n) == 0
    ensures forall i: nat :: i < n ==> At(ws, i) == 0
  {
    if n > 0 {
      VStep(ws, n - 1);
      VBound(ws, n - 1);
      MulLe(0, At(ws, n - 1), P(n - 1));
      if At(ws, n - 1) > 0 {
        MulLe(1, At(ws, n - 1), P(n - 1));
      }
      ZeroLimbs(ws, n - 1);
    }
  }

  /** One fold: hi * 2^256 + lo becomes hi * K + lo, the same number modulo p. The bit
      length returned exceeds 256 only when the number does. */
  method FoldOnce(num: BN) returns (rlen: nat)
    requires num.Canon() && num.negative == 0
    modifies num
    ensures num.WF() && num.negative == 0
    ensures num.Mag() % Prime() == old(num.Mag()) % Prime()
    ensures num.Mag() < PowerOfTwo(rlen)
    ensures rlen > 256 ==> num.Canon() && num.Mag() >= TwoTo256()
    ensures rlen == 256 ==> TopNonzero(num.words, num.length)
    ensures old(num.Mag()) < TwoTo256() ==> num.Mag() == old(num.Mag())
    ensures old(num.Mag()) >= TwoTo256() ==> num.Mag() < old(num.Mag())
  {
    hide At, P, V, TwoTo256, PowerOfTwo;
    ghost var m := num.Mag();
    var tmp := new BN.Zeroed(20);
    Split(num, tmp);
    ghost var hi, lo := num.Mag(), tmp.Mag();
    num.ZeroMag();
    VBound(tmp.words, tmp.length);
    Folded(m, hi, lo);
    ImulK(num);
    ghost var w, n := num.words, num.length;
    num.IAdd(tmp);
    rlen := num.BitLength();
    LongSum(num.words, num.length, w, n, CountBits(At(num.words, num.length - 1)));
  }

  lemma Folded(m: int, hi: int, lo: int)
    requires m == hi * TwoTo256() + lo && 0 <= hi && 0 <= lo < TwoTo256()
    ensures (hi * K + lo) % Prime() == m % Prime()
    ensures m < TwoTo256() ==> hi * K + lo == m
    ensures m >= TwoTo256() ==> hi * K + lo < m
  {
    var t := TwoTo256();
    MulSub(t, K, hi);
    ModAddMultiple(hi * K + lo, hi, Prime());
    if m < t && hi >= 1 {
      MulLe(1, hi, t);
    }
    if m >= t && hi >= 1 {
      MulLt(K, t, hi);
    }
    assert hi == 0 ==> hi * K == 0 && hi * t == 0;
  }

  /** A sum whose bit length exceeds 256 has a nonzero top limb and exceeds 2^256. */
  lemma LongSum(ws: seq<int>, k: nat, w: seq<int>, n: nat, bits: nat)
    requires 0 < k && InRange(ws, k) && 0 < n && InRange(w, n) && TopNonzero(w, n)
    requires var longer := if n > 10 then n else 10;
      k <= longer || (k == longer + 1 && At(ws, longer) != 0)
    requires V(ws, k) >= V(w, n) && bits == CountBits(At(ws, k - 1))
    ensures (k - 1) * 26 + bits >= 256 ==> At(ws, k - 1) != 0
    ensures (k - 1) * 26 + bits > 256 ==> V(ws, k) >= TwoTo256()
  {
    TopBitsAtMost26(At(ws, k - 1), bits);
    if (k - 1) * 26 + bits >= 256 {
      assert k >= 10;
      if k > 10 {
        if At(ws, k - 1) == 0 {
          VTopNonzero(w, n);
          PMonotone(k - 1, n - 1);
          TopFromValue(ws, k);
        }
        VTopNonzero(ws, k);
        PMonotone(10, k - 1);
        PStep(9);
      } else {
        assert bits >= 22;
        if bits > 22 {
          PowMonotone(2, 22, bits - 1);
          PowTwo26();
          PowAdd(2, 22, 4);
          VStep(ws, 9);
          VBound(ws, 9);
          MulLe(MASK22, At(ws, 9), P(9));
        }
      }
    }
  }

  lemma TopBitsAtMost26(w: int, bits: nat)
    requires 0 <= w < BASE && bits == CountBits(w)
    ensures bits <= 26
  {
    if bits > 26 {
      PowTwo26();
      PowMonotone(2, 26, bits - 1);
    }
  }

  /** Reduces any non-negative number into [0, p) in place. (The scratch number that the
      source keeps between calls is local to FoldOnce.) */
  method IReduce(num: BN, p: BN)
    requires num.Canon() && num.negative == 0 && num != p
    requires p.Canon() && p.negative == 0 && p.Value() == Prime()
    modifies num
    ensures num.Canon() && num.negative == 0
    ensures num.Value() == old(num.Value()) % Prime()
  {
    hide At, P, V, TwoTo256, PowerOfTwo, BN.Canon;
    var rlen := FoldOnce(num);
    while rlen > 256
      invariant num.WF() && num.negative == 0
      invariant num.Mag() % Prime() == old(num.Mag()) % Prime()
      invariant num.Mag() < PowerOfTwo(rlen)
      invariant rlen > 256 ==> num.Canon() && num.Mag() >= TwoTo256()
      invariant rlen == 256 ==> TopNonzero(num.words, num.length)
      decreases num.Mag()
    {
      rlen := FoldOnce(num);
    }
    FinalCorrection(num, p, rlen);
  }

  /** At most one subtraction of p is left to do. */
  method FinalCorrection(num: BN, p: BN, rlen: nat)
    requires num.WF() && num.negative == 0 && num != p
    requires p.Canon() && p.negative == 0 && p.Value() == Prime()
    requires num.Mag() < PowerOfTwo(rlen) && rlen <= 256
    requires rlen == 256 ==> TopNonzero(num.words, num.length)
    modifies num
    ensures num.Canon() && num.negative == 0
    ensures num.Value() == old(num.Mag()) % Prime()
  {
    hide At, P, V, TwoTo256, PowerOfTwo, Prime;
    ghost var m, q := num.Mag(), Prime();
    FinalRange(num.words, num.length, rlen);
    var cmp := -1;
    if rlen >= 256 {
      cmp := num.UCmp(p);
    }
    if cmp == 0 {
      DivModUnique(m, q, 1, 0);
      num.words := Put(num.words, 0, 0);
      num.length := 1;
      VStepZero(num.words);
    } else if cmp > 0 {
      DivModUnique(m, q, 1, m - q);
      num.ISub(p);
      num.SignOfValue();
    } else {
      ModSmall(m, q);
      num.Strip();
    }
  }

  lemma FinalRange(ws: seq<int>, n: nat, rlen: nat)
    requires InRange(ws, n) && V(ws, n) < PowerOfTwo(rlen) && rlen <= 256
    ensures 0 <= V(ws, n) < TwoTo256() < 2 * Prime()
    ensures rlen < 256 ==> V(ws, n) < Prime()
  {
    VBound(ws, n);
    PowMonotone(2, rlen, 256);
    if rlen < 256 {
      PowMonotone(2, rlen, 255);
    }
    assert PowerOfTwo(256) == 2 * PowerOfTwo(255);
  }
}
