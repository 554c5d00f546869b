/** The bn.js number: sign and magnitude, the magnitude in 26-bit limbs that the
    methods change in place. */
module BigNum {
  import opened Arith
  import opened JsNumber
  import opened Limbs

  predicate TopNonzero(ws: seq<int>, n: nat) {
    n > 1 ==> At(ws, n - 1) != 0
  }

  /** `32 - Math.clz32(w)`: the number of bits of w */
  function CountBits(w: nat): (r: nat)
    ensures w < PowerOfTwo(r)
    ensures w > 0 ==> r > 0 && PowerOfTwo(r - 1) <= w
    ensures w == 0 ==> r == 0
  {
    if w == 0 then 0 else
      assert PowerOfTwo(CountBits(w / 2) + 1) == 2 * PowerOfTwo(CountBits(w / 2));
      CountBits(w / 2) + 1
  }

  class BN {
    var words: seq<int>
    var length: nat
    var negative: int

    /** At least one limb, every limb in range, a 0/1 sign. */
    ghost predicate WF()
      reads this
    {
      1 <= length && InRange(words, length) && (negative == 0 || negative == 1)
    }

    /** What strip() establishes: no leading zero limb and no negative zero. */
    ghost predicate Canon()
      reads this
    {
      WF() && TopNonzero(words, length) &&
      (length == 1 && At(words, 0) == 0 ==> negative == 0)
    }

    /** Words beyond `length` read as zero. */
    ghost predicate CleanTail()
      reads this
    {
      forall i: nat :: length <= i ==> At(words, i) == 0
    }

    ghost function Mag(): int
      reads this
    {
      V(words, length)
    }

    ghost function Value(): int
      reads this
    {
      if negative == 0 then Mag() else -Mag()
    }

    constructor FromWords(ws: seq<int>, n: nat, neg: int)
      ensures words == ws && length == n && negative == neg
    {
      words, length, negative := ws, n, neg;
    }

    /** n limbs, all zero */
    constructor Zeroed(n: nat)
      requires 0 < n
      ensures WF() && length == n && negative == 0
      ensures forall i: nat :: At(words, i) == 0
    {
      words, length, negative := seq(n, _ => 0), n, 0;
    }

    /** `new BN(x)` for a number below 2^26 */
    constructor FromSmall(x: nat)
      requires x < BASE
      ensures Canon() && CleanTail() && Value() == x && negative == 0 && length == 1
    {
      words, length, negative := [x], 1, 0;
      new;
      VStep(words, 0);
    }

    /** `new BN(number)` for any exactly represented integer */
    constructor FromNumber(number: int)
      requires -MAX_EXACT < number < MAX_EXACT
      ensures Canon() && CleanTail() && Value() == number && negative == (if number < 0 then 1 else 0)
    {
      hide V, P;
      var x := number;
      negative := 0;
      if number < 0 {
        negative := 1;
        x := -number;
      }
      if x < BASE {
        words, length := [Low26(x)], 1;
      } else if x < BASE * BASE {
        words, length := [Low26(x), Low26(x / BASE)], 2;
      } else {
        words, length := [Low26(x), Low26(x / BASE), 1], 3;
      }
      new;
      FirstLimbs(words);
    }

    static lemma FirstLimbs(ws: seq<int>)
      ensures V(ws, 1) == At(ws, 0)
      ensures V(ws, 2) == At(ws, 0) + BASE * At(ws, 1)
      ensures V(ws, 3) == At(ws, 0) + BASE * At(ws, 1) + BASE * BASE * At(ws, 2)
    {
      VStepZero(ws);
      VStep(ws, 1);
      VStep(ws, 2);
      PStep(0);
      PStep(1);
    }

    method Clone() returns (r: BN)
      ensures fresh(r)
      ensures r.length == length && r.negative == negative && r.CleanTail()
      ensures forall i: nat :: i < length ==> At(r.words, i) == At(words, i)
      ensures r.Mag() == Mag() && r.Value() == Value()
      ensures Canon() ==> r.Canon()
      ensures WF() ==> r.WF()
    {
      var ws := seq(length, _ => 0);
      for i := 0 to length
        invariant |ws| == length
        invariant forall j: nat :: j < i ==> At(ws, j) == At(words, j)
      {
        ws := Put(ws, i, At(words, i));
      }
      r := new BN.FromWords(ws, length, negative);
      VSame(words, r.words, length);
    }

    method NormSign()
      modifies this`negative
      ensures negative == if length == 1 && At(words, 0) == 0 then 0 else old(negative)
    {
      if length == 1 && At(words, 0) == 0 {
        negative := 0;
      }
    }

    /** Drops leading zero limbs; the value does not change. */
    method Strip()
      requires 1 <= length && (negative == 0 || negative == 1)
      modifies this`length, this`negative
      ensures Value() == old(Value()) && Mag() == old(Mag())
      ensures old(WF()) ==> Canon()
      ensures length <= old(length)
      ensures old(CleanTail()) ==> CleanTail()
      ensures old(negative) == 0 ==> negative == 0
      ensures old(Mag()) > 0 ==> negative == old(negative)
    {
      while length > 1 && At(words, length - 1) == 0
        invariant 1 <= length <= old(length) && negative == old(negative)
        invariant Mag() == old(Mag())
        invariant forall i: nat :: length <= i < old(length) ==> At(words, i) == 0
        decreases length
      {
        VStep(words, length - 1);
        length := length - 1;
      }
      NormSign();
      if length == 1 && At(words, 0) == 0 {
        VStep(words, 0);
      }
      assert old(CleanTail()) ==> CleanTail();
    }

    predicate IsZero()
      reads this
    {
      length == 1 && At(words, 0) == 0
    }

    lemma ZeroMag()
      requires WF() && TopNonzero(words, length)
      ensures IsZero() <==> Mag() == 0
      ensures 0 <= Mag() < P(length)
    {
      VBound(words, length);
      VStep(words, length - 1);
      if length > 1 {
        VTopNonzero(words, length);
      } else {
        assert V(words, 1) == At(words, 0) * P(0);
      }
    }

    method INeg()
      requires Canon()
      modifies this`negative
      ensures Canon() && Value() == -old(Value()) && Mag() == old(Mag())
      ensures Mag() != 0 ==> negative == 1 - old(negative)
      ensures Mag() == 0 ==> negative == 0
    {
      ZeroMag();
      if !IsZero() {
        negative := 1 - negative;
      }
    }

    method Neg() returns (r: BN)
      requires Canon()
      ensures fresh(r) && r.Canon() && r.CleanTail()
      ensures r.Value() == -Value() && r.Mag() == Mag()
      ensures Mag() != 0 ==> r.negative == 1 - negative
      ensures Mag() == 0 ==> r.negative == 0
      ensures r.length == length
    {
      r := Clone();
      r.INeg();
    }

    /** Compares magnitudes. */
    method UCmp(num: BN) returns (res: int)
      requires WF() && TopNonzero(words, length)
      requires num.WF() && TopNonzero(num.words, num.length)
      ensures res == if Mag() < num.Mag() then -1 else if Mag() == num.Mag() then 0 else 1
    {
      VBound(words, length);
      VBound(num.words, num.length);
      if length > num.length {
        VTopNonzero(words, length);
        PMonotone(num.length, length - 1);
        return 1;
      }
      if length < num.length {
        VTopNonzero(num.words, num.length);
        PMonotone(length, num.length - 1);
        return -1;
      }
      res := 0;
      var i := length;
      while i > 0
        invariant i <= length
        invariant forall j: nat :: i <= j < length ==> At(words, j) == At(num.words, j)
      {
        i := i - 1;
        var a, b := At(words, i), At(num.words, i);
        if a < b {
          VCompare(words, num.words, i, length);
          return -1;
        } else if a > b {
          VCompare(num.words, words, i, length);
          return 1;
        }
      }
      VSame(words, num.words, length);
    }

    /** Compares signed values. */
    method Cmp(num: BN) returns (res: int)
      requires Canon() && num.Canon()
      ensures res == if Value() < num.Value() then -1 else if Value() == num.Value() then 0 else 1
    {
      ZeroMag();
      num.ZeroMag();
      if negative != 0 && num.negative == 0 {
        return -1;
      }
      if negative == 0 && num.negative != 0 {
        return 1;
      }
      res := UCmp(num);
      if negative != 0 {
        res := -res;
      }
    }

    /** The loops of iadd: adds num's magnitude to this one's. */
    method AddMagnitude(num: BN)
      requires WF() && num.WF()
      modifies this`words, this`length
      ensures WF() && Mag() == old(Mag()) + old(num.Mag())
      ensures var longer := if old(length) > old(num.length) then old(length) else old(num.length);
        length == longer || (length == longer + 1 && At(words, longer) != 0)
      ensures old(CleanTail()) && this != num ==> CleanTail()
    {
      hide At, Put, V, P, Low26, UShr26;
      var a, b := num, this;
      if length > num.length {
        a, b := this, num;
      }
      ghost var w0, wa, wb := words, a.words, b.words;
      var la, lb := a.length, b.length;
      var carry, i := 0, 0;
      while i < lb
        modifies this`words
        invariant i <= lb && 0 <= carry <= 1
        invariant InRange(words, i)
        invariant forall j: nat :: i <= j ==> At(words, j) == At(w0, j)
        invariant forall j: nat :: i <= j ==> At(a.words, j) == At(wa, j) && At(b.words, j) == At(wb, j)
        invariant V(words, i) + carry * P(i) == V(wa, i) + V(wb, i)
      {
        var r := At(a.words, i) + At(b.words, i) + carry;
        SplitLow(r);
        CombineStep(words, wa, wb, 1, i, carry, Low26(r), UShr26(r));
        words := Put(words, i, Low26(r));
        carry := UShr26(r);
        i := i + 1;
      }
      while carry != 0 && i < la
        modifies this`words
        invariant lb <= i <= la && 0 <= carry <= 1
        invariant InRange(words, i)
        invariant forall j: nat :: i <= j ==> At(words, j) == At(w0, j)
        invariant forall j: nat :: i <= j ==> At(a.words, j) == At(wa, j)
        invariant V(words, i) + carry * P(i) == V(wa, i) + V(wb, lb)
      {
        var r := At(a.words, i) + carry;
        SplitLow(r);
        PropagateStep(words, wa, V(wb, lb), i, carry, Low26(r), UShr26(r));
        words := Put(words, i, Low26(r));
        carry := UShr26(r);
        i := i + 1;
      }
      length := la;
      if carry != 0 {
        VPut(words, la, carry);
        words := Put(words, length, carry);
        length := length + 1;
      } else {
        if a != this {
          while i < la
            modifies this`words
            invariant lb <= i <= la
            invariant InRange(words, i)
            invariant forall j: nat :: i <= j ==> At(words, j) == At(w0, j)
            invariant V(words, i) == V(wa, i) + V(wb, lb)
          {
            PropagateStep(words, wa, V(wb, lb), i, 0, At(a.words, i), 0);
            words := Put(words, i, At(a.words, i));
            i := i + 1;
          }
        } else {
          VCopied(words, wa, i, la);
        }
      }
    }

    /** The loops of isub: leaves the difference of the magnitudes, the larger (a) minus
        the smaller (b), in this number. */
    method SubMagnitude(num: BN, cmp: int)
      requires WF() && num.WF() && this != num
      requires if cmp > 0 then length >= num.length && Mag() >= num.Mag()
        else num.length >= length && num.Mag() >= Mag()
      modifies this`words, this`length
      ensures WF()
      ensures Mag() == if cmp > 0 then old(Mag()) - old(num.Mag()) else old(num.Mag()) - old(Mag())
      ensures length == if cmp > 0 then old(length) else old(num.length)
      ensures old(CleanTail()) ==> CleanTail()
    {
      hide At, Put, V, P, Low26, Shr26;
      var a, b := num, this;
      if cmp > 0 {
        a, b := this, num;
      }
      ghost var w0, wa, wb := words, a.words, b.words;
      var la, lb := a.length, b.length;
      var carry, i := 0, 0;
      while i < lb
        modifies this`words
        invariant i <= lb && -1 <= carry <= 0
        invariant InRange(words, i)
        invariant forall j: nat :: i <= j ==> At(words, j) == At(w0, j)
        invariant forall j: nat :: i <= j ==> At(a.words, j) == At(wa, j) && At(b.words, j) == At(wb, j)
        invariant V(words, i) + carry * P(i) == V(wa, i) + -1 * V(wb, i)
      {
        var r := At(a.words, i) - At(b.words, i) + carry;
        SplitLow(r);
        CombineStep(words, wa, wb, -1, i, carry, Low26(r), Shr26(r));
        carry := Shr26(r);
        words := Put(words, i, Low26(r));
        i := i + 1;
      }
      while carry != 0 && i < la
        modifies this`words
        invariant lb <= i <= la && -1 <= carry <= 0
        invariant InRange(words, i)
        invariant forall j: nat :: i <= j ==> At(words, j) == At(w0, j)
        invariant forall j: nat :: i <= j ==> At(a.words, j) == At(wa, j)
        invariant V(words, i) + carry * P(i) == V(wa, i) + -V(wb, lb)
      {
        var r := At(a.words, i) + carry;
        SplitLow(r);
        PropagateStep(words, wa, -V(wb, lb), i, carry, Low26(r), Shr26(r));
        carry := Shr26(r);
        words := Put(words, i, Low26(r));
        i := i + 1;
      }
      VBound(words, i);
      if carry == 0 && i < la && a != this {
        while i < la
          modifies this`words
          invariant lb <= i <= la
          invariant InRange(words, i)
          invariant forall j: nat :: i <= j ==> At(words, j) == At(w0, j)
          invariant V(words, i) == V(wa, i) + -V(wb, lb)
        {
          PropagateStep(words, wa, -V(wb, lb), i, 0, At(a.words, i), 0);
          words := Put(words, i, At(a.words, i));
          i := i + 1;
        }
      }
      if a == this {
        VCopied(words, wa, i, la);
      }
      length := if length < i then i else length;
    }

    /** What a call that only looks at num, apart from flipping its sign for a while,
        leaves of it. */
    twostate predicate Unchanged()
      reads this
    {
      words == old(words) && length == old(length) && negative == old(negative) &&
      Value() == old(Value()) && Mag() == old(Mag()) && (old(Canon()) ==> Canon())
    }

    /** A sum of numbers without leading zeros has none. */
    static lemma SumTop(ws: seq<int>, n: nat, wa: seq<int>, la: nat)
      requires 1 < n && n <= la && InRange(ws, n) && InRange(wa, la) && At(wa, la - 1) != 0
      requires V(ws, n) >= V(wa, la)
      ensures At(ws, n - 1) != 0
    {
      VTopNonzero(wa, la);
      PMonotone(n - 1, la - 1);
      TopFromValue(ws, n);
    }

    /** this += num. Leading zeros are only an issue when the signs agree: the loops of the
        addition keep them, and everything else strips. */
    method IAdd(num: BN)
      requires (Canon() && num.Canon()) || (WF() && num.WF() && negative == num.negative)
      modifies this, if negative == 0 && num.negative != 0 then {num} else {}
      ensures WF() && Value() == old(Value()) + old(num.Value())
      ensures old(Canon()) && old(num.Canon()) ==> Canon()
      ensures old(negative) == old(num.negative) ==> negative == old(negative)
      ensures old(negative) == old(num.negative) ==>
        var longer := if old(length) > old(num.length) then old(length) else old(num.length);
        length == longer || (length == longer + 1 && At(words, longer) != 0)
      ensures this != num ==> num.Unchanged()
      decreases negative + num.negative
    {
      if negative != 0 && num.negative == 0 {
        negative := 0;
        ISub(num);
        ZeroMag();
        negative := 1 - negative;
        NormSign();
        return;
      }
      if negative == 0 && num.negative != 0 {
        num.negative := 0;
        ISub(num);
        num.negative := 1;
        ZeroMag();
        NormSign();
        return;
      }
      ghost var wa, wb, la, lb := words, num.words, length, num.length;
      VBound(wa, la);
      VBound(wb, lb);
      AddMagnitude(num);
      if old(Canon()) && old(num.Canon()) && 1 < length && (length <= la || length <= lb) {
        if la > lb {
          SumTop(words, length, wa, la);
        } else {
          SumTop(words, length, wb, lb);
        }
      }
      VStepZero(words);
      VStepZero(wa);
      VStepZero(wb);
    }

    /** this -= num. A negative number subtracted from itself is doubled instead, because
        the sign flips and the addition then act on the same object. */
    method ISub(num: BN)
      requires Canon() && num.Canon()
      modifies this, if num.negative != 0 then {num} else {}
      ensures Canon()
      ensures Value() == if this == num && old(negative) != 0 then 2 * old(Value()) else old(Value()) - old(num.Value())
      ensures this != num ==> num.Unchanged()
      decreases negative + num.negative
    {
      ZeroMag();
      num.ZeroMag();
      if num.negative != 0 {
        num.negative := 0;
        IAdd(num);
        ZeroMag();
        num.negative := 1;
        NormSign();
        return;
      }
      if negative != 0 {
        negative := 0;
        IAdd(num);
        negative := 1;
        ZeroMag();
        NormSign();
        return;
      }
      ISubPositive(num);
    }

    /** The rest of isub, once both numbers are positive. */
    method ISubPositive(num: BN)
      requires Canon() && num.Canon() && negative == 0 && num.negative == 0
      modifies this
      ensures Canon() && Value() == old(Value()) - old(num.Value())
      ensures this != num ==> num.Unchanged()
    {
      var cmp := Cmp(num);
      if cmp == 0 {
        negative := 0;
        length := 1;
        words := Put(words, 0, 0);
        VStep(words, 0);
        return;
      }
      LongerIsLarger(num);
      num.LongerIsLarger(this);
      SubMagnitude(num, cmp);
      if cmp < 0 {
        negative := 1;
      }
      Strip();
    }

    lemma LongerIsLarger(num: BN)
      requires WF() && num.WF() && TopNonzero(words, length)
      ensures Mag() <= num.Mag() ==> length <= num.length
    {
      VBound(num.words, num.length);
      if length > num.length {
        VTopNonzero(words, length);
        PMonotone(num.length, length - 1);
      }
    }

    /** A fresh sum; flips signs of the operands for a while. */
    method Add(num: BN) returns (r: BN)
      requires Canon() && num.Canon()
      modifies if negative == 0 && num.negative != 0 then {num}
        else if negative != 0 && num.negative == 0 then {this} else {}
      ensures fresh(r) && r.Canon() && r.Value() == old(Value()) + old(num.Value())
      ensures Unchanged() && num.Unchanged()
    {
      ZeroMag();
      num.ZeroMag();
      if num.negative != 0 && negative == 0 {
        num.negative := 0;
        r := Sub(num);
        num.negative := 1;
        return;
      } else if num.negative == 0 && negative != 0 {
        negative := 0;
        r := num.Sub(this);
        negative := 1;
        return;
      }
      if length > num.length {
        r := Clone();
        r.IAdd(num);
      } else {
        r := num.Clone();
        r.IAdd(this);
      }
    }

    method Sub(num: BN) returns (r: BN)
      requires Canon() && num.Canon()
      modifies if num.negative != 0 then {num} else {}
      ensures fresh(r) && r.Canon() && r.Value() == old(Value()) - old(num.Value())
      ensures num.Unchanged()
    {
      r := Clone();
      r.ISub(num);
    }

    /** Multiplies by a plain number. By zero, the limbs are cleared but not stripped; by a
        negative number, only zero is multiplied right. What the words then add up to is off
        by the limb products that are rounded, and the top word may be negative. */
    method IMuln(num: int)
      requires WF() && -BASE < num < BASE
      modifies this`words, this`length
      ensures Mag() == old(Mag()) * num + old(Roundings(words, length, num))
      ensures WF() && Mag() == old(Mag()) * num <==> num >= 0 || old(Mag()) == 0
      ensures WF() && Value() == old(Value()) * num <==> num >= 0 || old(Mag()) == 0
      ensures num >= 0 ==> WF()
      ensures negative == old(negative)
      ensures old(Canon()) && num > 0 ==> Canon()
      ensures length <= old(length) + 1
    {
      hide At, Put, V, P, Low26, Shr26, UShr26, Hi26, Roundings, Rounding;
      ghost var w0 := words;
      VBound(words, length);
      NoRoundings(w0, length, num);
      var carry, i := 0, 0;
      NoRoundings(w0, 0, num);
      while i < length
        modifies this`words
        invariant i <= length && -BASE < carry < BASE && (num >= 0 ==> 0 <= carry)
        invariant InRange(words, i)
        invariant forall j: nat :: i <= j ==> At(words, j) == At(w0, j)
        invariant V(words, i) + carry * P(i) == num * V(w0, i) + Roundings(w0, i, num)
      {
        MulnLimb(At(words, i), num, carry);
        var w := Exact(At(words, i) * num);
        var lo := Low26(w) + Low26(carry);
        var carry' := Shr26(carry) + Hi26(w) + UShr26(lo);
        RoundedScaleStep(words, w0, num, i, carry, Low26(lo), carry');
        words := Put(words, i, Low26(lo));
        carry := carry';
        i := i + 1;
      }
      MulComm(num, V(w0, old(length)));
      if V(w0, length) == 0 {
        VBound(words, i);
        NothingCarried(V(words, i), carry, P(i));
      }
      if carry != 0 {
        VPut(words, i, carry);
        words := Put(words, i, carry);
        length := length + 1;
      } else if num > 0 {
        ScaledTop(words, w0, num, length);
      }
      if InRange(words, length) {
        VBound(words, length);
      }
      UnchangedSign(V(w0, old(length)), num, old(negative));
    }

    static lemma NothingCarried(v: int, carry: int, p: int)
      requires 0 <= v < p && v + carry * p == 0
      ensures carry == 0
    {
      if carry > 0 {
        MulLe(1, carry, p);
      } else if carry < 0 {
        MulLe(carry, -1, p);
      }
    }

    /** What words of magnitude v * num are worth with the sign left as it was. */
    static lemma UnchangedSign(v: int, num: int, negative: int)
      requires 0 <= v
      ensures num < 0 && v > 0 ==> v * num < 0
      ensures (if negative == 0 then v * num else -(v * num)) == (if negative == 0 then v else -v) * num
    {
      if num < 0 && v > 0 {
        MulLt(num, 0, v);
      }
    }

    /** The bit shift of iushln, by r < 26 bits. */
    method ShiftLeftBits(r: nat)
      requires Canon() && 0 < r < 26
      modifies this`words, this`length
      ensures Canon() && Mag() == PowerOfTwo(r) * old(Mag())
      ensures old(length) <= length <= old(length) + 1
      ensures old(CleanTail()) ==> CleanTail()
    {
      hide At, Put, V, P, Pow;
      ghost var w0, k := words, PowerOfTwo(r);
      var top, scale := PowerOfTwo(26 - r), PowerOfTwo(r);
      PowAdd(2, r, 26 - r);
      PowTwo26();
      VBound(words, length);
      var carry, i := 0, 0;
      while i < length
        modifies this`words
        invariant i <= length && 0 <= carry < scale
        invariant InRange(words, i)
        invariant forall j: nat :: i <= j ==> At(words, j) == At(w0, j)
        invariant V(words, i) + carry * P(i) == k * V(w0, i)
      {
        // newCarry holds the top r bits of the word, the rest moves up
        var w := At(words, i);
        var newCarry := w - w % top;
        var c := (w - newCarry) * scale;
        ShiftedLimb(w, top, scale, carry);
        ScaleStep(words, w0, k, i, carry, c + carry, w / top);
        words := Put(words, i, c + carry);
        carry := newCarry / top;
        i := i + 1;
      }
      if carry != 0 {
        VPut(words, i, carry);
        words := Put(words, i, carry);
        length := length + 1;
      } else {
        ScaledTop(words, w0, k, length);
      }
    }

    static lemma ShiftedLimb(w: int, top: int, scale: int, carry: int)
      requires 0 <= w < BASE && 0 < top && 0 < scale && scale * top == BASE && 0 <= carry < scale
      ensures w - (w - w % top) == w % top && (w - w % top) / top == w / top
      ensures 0 <= w / top < scale
      ensures 0 <= (w % top) * scale + carry < BASE
      ensures (w % top) * scale + carry + BASE * (w / top) == scale * w + carry
    {
      DivMod(w, top);
      DivModUnique(w - w % top, top, w / top, 0);
      DivUpper(w, top, scale);
      DivPositive(w, top);
      MulLe(w % top, top - 1, scale);
      MulLe(0, w % top, scale);
      MulAssoc(scale, top, w / top);
      MulAdd((w / top) * top, w % top, scale);
    }

    /** The first loop of the limb shift: every limb moves up by s places. */
    method MoveLimbsUp(s: nat)
      requires 0 < s
      modifies this`words
      ensures forall j: nat :: s <= j < length + s ==> At(words, j) == At(old(words), j - s)
      ensures forall j: nat :: length + s <= j ==> At(words, j) == At(old(words), j)
    {
      hide At, Put;
      ghost var w0 := words;
      var i: nat := length;
      while i > 0
        modifies this`words
        invariant i <= length
        invariant forall j: nat :: j < i ==> At(words, j) == At(w0, j)
        invariant forall j: nat :: i + s <= j < length + s ==> At(words, j) == At(w0, j - s)
        invariant forall j: nat :: length + s <= j ==> At(words, j) == At(w0, j)
      {
        i := i - 1;
        words := Put(words, i + s, At(words, i));
      }
    }

    /** Its second loop: the low s limbs become zero. */
    method ClearLowLimbs(s: nat)
      modifies this`words
      ensures forall j: nat :: At(words, j) == if j < s then 0 else At(old(words), j)
    {
      hide At, Put;
      ghost var w0 := words;
      for i := 0 to s
        modifies this`words
        invariant forall j: nat :: At(words, j) == if j < i then 0 else At(w0, j)
      {
        words := Put(words, i, 0);
      }
    }

    /** Limbs moved up by s places over zeros are worth P(s) times as much. */
    static lemma MovedUp(ws: seq<int>, w0: seq<int>, s: nat, n: nat)
      requires forall j: nat :: j < s ==> At(ws, j) == 0
      requires forall j: nat :: s <= j < n + s ==> At(ws, j) == At(w0, j - s)
      ensures V(ws, n + s) == P(s) * V(w0, n)
    {
      hide At, P;
      RangeSplit(ws, 0, s, n + s);
      RangeZero(ws, 0, s);
      RangeShift(ws, w0, s, n + s, 0);
    }

    /** The limb shift of iushln. */
    method ShiftLeftWords(s: nat)
      requires Canon() && 0 < s
      modifies this`words, this`length
      ensures WF() && Mag() == P(s) * old(Mag())
      ensures length == old(length) + s
      ensures old(Mag()) != 0 ==> Canon()
      ensures old(CleanTail()) ==> CleanTail()
    {
      hide At, P, V, InRange;
      ghost var w0 := words;
      MoveLimbsUp(s);
      ClearLowLimbs(s);
      MovedUp(words, w0, s, length);
      MoveKeepsRange(words, w0, s, length);
      length := length + s;
    }

    static lemma MoveKeepsRange(ws: seq<int>, w0: seq<int>, s: nat, n: nat)
      requires 0 < n && InRange(w0, n) && TopNonzero(w0, n)
      requires forall j: nat :: j < s ==> At(ws, j) == 0
      requires forall j: nat :: s <= j < n + s ==> At(ws, j) == At(w0, j - s)
      ensures InRange(ws, n + s)
      ensures V(w0, n) != 0 ==> At(ws, n + s - 1) != 0
    {
      hide At, P, V;
      VStepZero(w0);
    }

    /** this <<= bits, on the magnitude */
    method IUShln(bits: nat)
      requires Canon()
      modifies this
      ensures Canon() && Mag() == old(Mag()) * PowerOfTwo(bits)
      ensures Value() == old(Value()) * PowerOfTwo(bits)
      ensures old(negative) == 0 ==> negative == 0
      ensures old(CleanTail()) ==> CleanTail()
    {
      hide V, At, P, Pow, PowerOfTwo;
      var r, s := bits % 26, bits / 26;
      BitsSplit(bits);
      ghost var m, k := Mag(), PowerOfTwo(r);
      if r != 0 {
        ShiftLeftBits(r);
      }
      assert Mag() == k * m;
      if s != 0 {
        ShiftLeftWords(s);
      }
      assert Mag() == P(s) * (k * m);
      MulAssoc(P(s), k, m);
      MulComm(m, PowerOfTwo(bits));
      Strip();
      assert (-m) * PowerOfTwo(bits) == -(m * PowerOfTwo(bits));
    }

    /** The limb shift of iushrn. */
    method ShiftRightWords(s: nat)
      requires Canon() && s < length
      modifies this`words, this`length
      ensures WF() && TopNonzero(words, length) && Mag() == old(Mag()) / P(s)
      ensures length == old(length) - s
    {
      hide At, Put, P, V;
      ghost var w0 := words;
      length := length - s;
      var i := 0;
      while i < length && s != 0
        modifies this`words
        invariant i <= length
        invariant forall j: nat :: j < i ==> At(words, j) == At(w0, j + s)
        invariant forall j: nat :: i <= j ==> At(words, j) == At(w0, j)
      {
        words := Put(words, i, At(words, i + s));
        i := i + 1;
      }
      VDrop(words, w0, s, length);
    }

    /** The bit shift of iushrn, from the top word down. */
    method ShiftRightBits(r: nat)
      requires WF() && r < 26
      modifies this`words
      ensures WF() && Mag() == old(Mag()) / PowerOfTwo(r)
    {
      hide At, Put, P, Pow;
      ghost var w0 := words;
      var unit, up := PowerOfTwo(r), PowerOfTwo(26 - r);
      PowAdd(2, r, 26 - r);
      PowTwo26();
      var carry := 0;
      var i: nat := length;
      assert Range(words, i, length) == 0;
      while i > 0
        modifies this`words
        invariant i <= length && 0 <= carry < unit
        invariant forall j: nat :: j < i ==> At(words, j) == At(w0, j)
        invariant forall j: nat :: i <= j < length ==> 0 <= At(words, j) < BASE
        invariant Range(words, i, length) * unit + carry == Range(w0, i, length)
      {
        i := i - 1;
        var word := At(words, i);
        var limb := carry * up + word / unit;
        ShiftedLimbDown(word, unit, up, carry);
        DivideStep(words, w0, unit, i, length, carry, limb, word % unit);
        words := Put(words, i, limb);
        carry := word % unit;
      }
      DivModUnique(V(w0, length), unit, V(words, length), carry);
    }

    static lemma ShiftedLimbDown(word: int, unit: int, up: int, carry: int)
      requires 0 <= word < BASE && 0 < unit && 0 < up && unit * up == BASE && 0 <= carry < unit
      ensures 0 <= word / unit < up && 0 <= word % unit < unit
      ensures 0 <= carry * up + word / unit < BASE
      ensures (carry * up + word / unit) * unit + word % unit == word + BASE * carry
    {
      DivMod(word, unit);
      MulComm(unit, up);
      DivUpper(word, unit, up);
      DivPositive(word, unit);
      MulLe(0, carry, up);
      MulLe(carry, unit - 1, up);
      MulSub(unit, 1, up);
      MulAdd(carry * up, word / unit, unit);
      MulAssoc(carry, up, unit);
      MulComm(carry, BASE);
    }

    /** this >>= bits, on the magnitude (called without hint and without an `extended`
        number to receive the bits shifted out) */
    method IUShrn(bits: nat)
      requires Canon()
      modifies this
      ensures Canon() && Mag() == old(Mag()) / PowerOfTwo(bits)
      ensures old(negative) == 0 ==> negative == 0
      ensures Mag() > 0 ==> negative == old(negative)
    {
      hide V, At, P, Pow;
      var r, s := bits % 26, bits / 26;
      ZeroMag();
      BitsSplit(bits);
      ghost var m := Mag();
      if s < length {
        ShiftRightWords(s);
        ghost var q := Mag();
        ShiftRightBits(r);
        PowPositive(2, r);
        DivDiv(m, P(s), Pow(2, r));
        DivPositive(m, P(s) * Pow(2, r));
      } else {
        words := Put(words, 0, 0);
        length := 1;
        VStepZero(words);
        ShiftRightBits(r);
        PowPositive(2, r);
        DivModUnique(0, Pow(2, r), 0, 0);
        PMonotone(old(length), s);
        MulLe(1, Pow(2, r), P(s));
        DivModUnique(m, P(s) * Pow(2, r), 0, m);
      }
      Strip();
    }

    static lemma MaskedLimb(ws: seq<int>, s: nat, r: nat, n: nat)
      requires s < n && InRange(ws, n) && r < 26
      ensures var ws' := Put(ws, s, At(ws, s) % PowerOfTwo(r));
        InRange(ws', s + 1) && V(ws', s + 1) == V(ws, n) % (P(s) * PowerOfTwo(r))
    {
      hide V, At, P, Put, PowerOfTwo;
      VMask(ws, s, r, n);
      VPut(ws, s, At(ws, s) % PowerOfTwo(r));
    }

    /** Keeps the low bits. Of no bits, no limb is left at all, which is not a canonical zero. */
    method IMaskn(bits: nat)
      requires Canon() && negative == 0
      modifies this
      ensures negative == 0 && Value() == old(Value()) % PowerOfTwo(bits)
      ensures if bits == 0 then length == 0 else Canon()
    {
      hide V, At, P, Pow, PowerOfTwo;
      var r, s := bits % 26, bits / 26;
      ZeroMag();
      BitsSplit(bits);
      ghost var m := Mag();
      if length <= s {
        PMonotone(length, s);
        MulLe(1, PowerOfTwo(r), P(s));
        ModSmall(m, PowerOfTwo(bits));
        return;
      }
      if r != 0 {
        MaskedLimb(words, s, r, length);
        length := s + 1;
        words := Put(words, s, At(words, s) % PowerOfTwo(r));
      } else {
        VLow(words, s, length);
        length := s;
      }
      if length > 0 {
        Strip();
      }
    }

    method Maskn(bits: nat) returns (r: BN)
      requires Canon() && negative == 0
      ensures fresh(r) && r.negative == 0 && r.Value() == Value() % PowerOfTwo(bits)
      ensures if bits == 0 then r.length == 0 else r.Canon()
    {
      r := Clone();
      r.IMaskn(bits);
    }

    predicate IsOdd()
      reads this
    {
      At(words, 0) % 2 == 1
    }

    lemma Parity()
      requires WF()
      ensures IsOdd() <==> Mag() % 2 == 1
    {
      assert PowerOfTwo(1) == 2;
      VLowBits(words, length, 1);
    }

    /** Adds a plain number to a positive one. */
    method IAddnUnchecked(num: nat)
      requires WF() && num < BASE
      modifies this`words, this`length
      ensures WF() && Mag() == old(Mag()) + num
      ensures old(TopNonzero(words, length)) ==> TopNonzero(words, length)
      ensures length <= old(length) + 1
    {
      hide At, Put, V, P;
      ghost var w0, n0 := words, length;
      AddToLow(words, num, n0);
      words := Put(words, 0, At(words, 0) + num);
      var i := 0;
      while i < length && At(words, i) >= BASE
        modifies this`words
        invariant i <= n0
        invariant forall j: nat :: j < n0 && j != i ==> 0 <= At(words, j) < BASE
        invariant i < n0 ==> (if i == 0 then 0 else 1) <= At(words, i) < 2 * BASE
        invariant i == n0 ==> At(words, i) == 1
        invariant forall j: nat :: i < j ==> At(words, j) == At(w0, j)
        invariant V(words, if i == n0 then n0 + 1 else n0) == V(w0, n0) + num
      {
        if i == length - 1 {
          MoveUnitTop(words, i);
          words := Put(words, i, At(words, i) - BASE);
          words := Put(words, i + 1, 1);
        } else {
          MoveUnitBelow(words, i, 1, n0);
          words := Put(words, i, At(words, i) - BASE);
          words := Put(words, i + 1, At(words, i + 1) + 1);
        }
        i := i + 1;
      }
      length := if length > i + 1 then length else i + 1;
    }

    /** Adds a plain number. Only when a negative number lands exactly on zero does the
        result stay marked negative. */
    method IAddn(num: int)
      requires Canon() && -BASE < num < BASE
      modifies this
      ensures WF() && TopNonzero(words, length) && Value() == old(Value()) + num
      ensures Canon() <==> !(old(negative) != 0 && num > 0 && old(Value()) + num == 0)
      decreases if num < 0 then 1 else 0, negative, 1
    {
      ZeroMag();
      VStepZero(words);
      if num < 0 {
        ISubn(-num);
        return;
      }
      if negative != 0 {
        if length == 1 && At(words, 0) < num {
          words := Put(words, 0, num - At(words, 0));
          VStepZero(words);
          negative := 0;
          return;
        }
        SmallestOfLength();
        negative := 0;
        ISubn(num);
        ZeroMag();
        VStepZero(words);
        negative := 1;
        return;
      }
      IAddnUnchecked(num);
      ZeroMag();
      VStepZero(words);
    }

    lemma SmallestOfLength()
      requires WF() && TopNonzero(words, length)
      ensures length > 1 ==> BASE <= Mag()
    {
      if length > 1 {
        VTopNonzero(words, length);
        PMonotone(1, length - 1);
        PStep(0);
      }
    }

    /** Subtracts a plain number. */
    method ISubn(num: int)
      requires Canon() && -BASE < num < BASE
      modifies this
      ensures WF() && TopNonzero(words, length) && Value() == old(Value()) - num
      ensures Canon() <==> !(old(negative) != 0 && num < 0 && old(Value()) - num == 0)
      ensures old(negative) == 0 && 0 <= num <= old(Value()) ==> negative == 0
      decreases if num < 0 then 1 else 0, negative, 0
    {
      ZeroMag();
      VStepZero(words);
      if num < 0 {
        IAddn(-num);
        return;
      }
      if negative != 0 {
        negative := 0;
        IAddn(num);
        ZeroMag();
        VStepZero(words);
        negative := 1;
        return;
      }
      SmallestOfLength();
      AddToLow(words, -num, length);
      ghost var n := length;
      words := Put(words, 0, At(words, 0) - num);
      VStepZero(words);
      if length == 1 && At(words, 0) < 0 {
        words := Put(words, 0, -At(words, 0));
        VStepZero(words);
        negative := 1;
      } else {
        Borrow();
      }
      Strip();
    }

    /** The borrow loop of isubn: only the lowest limb is out of range. */
    method Borrow()
      requires 1 <= length && (length == 1 ==> 0 <= At(words, 0) < BASE)
      requires -BASE < At(words, 0) < BASE && Mag() >= 0
      requires forall j: nat :: 0 < j < length ==> 0 <= At(words, j) < BASE
      modifies this`words
      ensures InRange(words, length) && Mag() == old(Mag())
    {
      hide At, Put, V, P;
      ghost var n := length;
      var i := 0;
      while i < length && At(words, i) < 0
        modifies this`words
        invariant i < n
        invariant forall j: nat :: j < n && j != i ==> 0 <= At(words, j) < BASE
        invariant -BASE < At(words, i) < BASE
        invariant V(words, n) == V(old(words), n)
      {
        if i + 1 == n {
          VNegativeTop(words, n);
          assert false;
        }
        MoveUnitBelow(words, i, -1, n);
        words := Put(words, i, At(words, i) + BASE);
        words := Put(words, i + 1, At(words, i + 1) - 1);
        i := i + 1;
      }
    }

    method Expand(size: nat)
      requires WF()
      modifies this`words, this`length
      ensures WF() && Mag() == old(Mag())
      ensures length == if old(length) < size then size else old(length)
      ensures forall j: nat :: j < old(length) ==> At(words, j) == At(old(words), j)
      ensures forall j: nat :: old(length) <= j < length ==> At(words, j) == 0
      ensures old(CleanTail()) ==> CleanTail()
    {
      hide At, Put, P;
      while length < size
        invariant WF() && old(length) <= length && (length <= size || length == old(length))
        invariant Mag() == old(Mag())
        invariant forall j: nat :: j < old(length) || length <= j ==> At(words, j) == At(old(words), j)
        invariant forall j: nat :: old(length) <= j < length ==> At(words, j) == 0
        decreases size - length
      {
        VPut(words, length, 0);
        words := Put(words, length, 0);
        length := length + 1;
      }
    }

    /** The limb loops of _ishlnsubmul: subtracts num * mul from the limbs at and above
        `shift`, leaving the final carry. */
    method SubtractProduct(num: BN, mul: nat, shift: nat) returns (carry: int)
      requires WF() && num.WF() && this != num && mul < BASE
      requires num.length + shift <= length
      modifies this`words
      ensures WF()
      ensures Mag() + carry * P(length) == old(Mag()) - (num.Mag() * mul) * P(shift)
      ensures old(CleanTail()) ==> CleanTail()
    {
      hide At, Put, P, Range, Low26, Shr26, Hi26;
      ghost var w0, n := words, num.length;
      carry := 0;
      var i := 0;
      while i < num.length
        modifies this`words
        invariant i <= num.length && -BASE < carry <= 0
        invariant InRange(words, length)
        invariant forall j: nat :: j < shift || i + shift <= j ==> At(words, j) == At(w0, j)
        invariant Range(words, shift, i + shift) + carry * P(i) == Range(w0, shift, i + shift) - mul * V(num.words, i)
      {
        SubmulLimb(At(words, i + shift), At(num.words, i), mul, carry);
        var w := At(words, i + shift) + carry;
        var right := Exact(At(num.words, i) * mul);
        w := w - Low26(right);
        var carry' := Shr26(w) - Hi26(right);
        SubmulStep(words, w0, num.words, mul, shift, i, carry, Low26(w), carry');
        carry := carry';
        words := Put(words, i + shift, Low26(w));
        i := i + 1;
      }
      ghost var product := mul * V(num.words, n);
      while i < length - shift
        modifies this`words
        invariant n <= i <= length - shift && -BASE < carry <= 0
        invariant InRange(words, length)
        invariant forall j: nat :: j < shift || i + shift <= j ==> At(words, j) == At(w0, j)
        invariant Range(words, shift, i + shift) + carry * P(i) == Range(w0, shift, i + shift) - product
      {
        var w := At(words, i + shift) + carry;
        SplitLow(w);
        BorrowStep(words, w0, product, shift, i, carry, Low26(w), Shr26(w));
        carry := Shr26(w);
        words := Put(words, i + shift, Low26(w));
        i := i + 1;
      }
      ShiftedDifference(words, w0, shift, length, carry, product);
      MulComm(mul, V(num.words, n));
    }

    /** The final carry of the subtraction tells its sign: it is 0 or -1, never less. */
    static lemma FinalCarry(m: int, carry: int, r: int, p: int, old_m: int)
      requires 0 <= m < p && m + carry * p == r && -p < r <= old_m < p
      ensures carry == (if r >= 0 then 0 else -1)
      ensures r < 0 ==> m > 0
    {
      if carry >= 1 {
        MulLe(1, carry, p);
      } else if carry <= -2 {
        MulLe(carry, -2, p);
      }
    }

    /** Two's complement negation of all limbs. */
    method NegateLimbs()
      requires WF() && Mag() > 0
      modifies this`words
      ensures WF() && Mag() == P(length) - old(Mag())
      ensures old(CleanTail()) ==> CleanTail()
    {
      hide At, Put, V, P, Low26, Shr26;
      ghost var w0 := words;
      VBound(words, length);
      var carry, i := 0, 0;
      while i < length
        modifies this`words
        invariant i <= length && -1 <= carry <= 0
        invariant InRange(words, length)
        invariant forall j: nat :: i <= j ==> At(words, j) == At(w0, j)
        invariant V(words, i) + carry * P(i) == -1 * V(w0, i)
      {
        var w := -At(words, i) + carry;
        SplitLow(w);
        ScaleStep(words, w0, -1, i, carry, Low26(w), Shr26(w));
        carry := Shr26(w);
        words := Put(words, i, Low26(w));
        i := i + 1;
      }
      VBound(words, length);
    }

    /** this -= num * mul * 2^(26 * shift), for a difference that is not too negative */
    method IShlnSubMul(num: BN, mul: nat, shift: nat)
      requires Canon() && negative == 0 && num.Canon() && num.negative == 0
      requires this != num && mul < BASE
      requires Mag() - (num.Mag() * mul) * P(shift) > -P(num.length + shift)
      modifies this
      ensures Canon() && Value() == old(Mag()) - (old(num.Mag()) * mul) * P(shift)
      ensures old(CleanTail()) ==> CleanTail()
    {
      hide V, At, Put, P;
      ghost var m, d := Mag(), (num.Mag() * mul) * P(shift);
      ZeroMag();
      num.ZeroMag();
      MulLe(0, num.Mag(), mul);
      MulLe(0, num.Mag() * mul, P(shift));
      var len := num.length + shift;
      Expand(len);
      PMonotone(old(length), length);
      PMonotone(len, length);
      var carry := SubtractProduct(num, mul, shift);
      VBound(words, length);
      FinalCarry(Mag(), carry, m - d, P(length), m);
      if carry == 0 {
        Strip();
        return;
      }
      assert carry == -1;
      NegateLimbs();
      negative := 1;
      Strip();
    }

    /** The remainder of the magnitude by a plain number. */
    method Modn(num: nat) returns (acc: nat)
      requires WF() && 0 < num < BASE
      ensures acc == Mag() % num
    {
      hide At, Put, P, Range;
      var p := BASE % num;
      acc := 0;
      var i: nat := length;
      RangeEmpty(words, length);
      ModSmall(0, num);
      while i > 0
        invariant i <= length && acc < num
        invariant acc == Range(words, i, length) % num
      {
        i := i - 1;
        HornerStep(words, i, length, num, acc);
        MulLe(p, num - 1, acc);
        MulLe(acc, num - 1, num - 1);
        MulLe(num - 1, BASE, num - 1);
        MulLe(0, p, acc);
        acc := Exact(p * acc + At(words, i)) % num;
      }
    }

    /** Divides the magnitude by a plain number. */
    method IDivn(num: nat)
      requires WF() && 0 < num < BASE
      modifies this
      ensures Canon() && Mag() == old(Mag()) / num
      ensures old(negative) == 0 ==> negative == 0
      ensures Mag() > 0 ==> negative == old(negative)
    {
      hide At, Put, P, Range;
      ghost var w0 := words;
      var carry := 0;
      var i: nat := length;
      RangeEmpty(words, length);
      RangeEmpty(w0, length);
      while i > 0
        modifies this`words
        invariant i <= length && 0 <= carry < num
        invariant InRange(words, length)
        invariant forall j: nat :: j < i ==> At(words, j) == At(w0, j)
        invariant Range(words, i, length) * num + carry == Range(w0, i, length)
      {
        i := i - 1;
        var w := Exact(At(words, i) + carry * BASE);
        DivMod(w, num);
        DivUpper(w, num, BASE);
        DivPositive(w, num);
        DivideStep(words, w0, num, i, length, carry, w / num, w % num);
        var quotient := TruncateQuotient(w, num);
        words := Put(words, i, quotient);
        carry := w % num;
      }
      DivModUnique(V(w0, length), num, V(words, length), carry);
      Strip();
    }

    method Divn(num: nat) returns (r: BN)
      requires Canon() && 0 < num < BASE
      ensures fresh(r) && r.Canon() && r.Mag() == Mag() / num
      ensures negative == 0 ==> r.negative == 0
      ensures r.Mag() > 0 ==> r.negative == negative
    {
      r := Clone();
      r.IDivn(num);
    }

    /** The number of bits up to the top of the top limb, even if that is zero. */
    method BitLength() returns (r: nat)
      requires WF()
      ensures r == (length - 1) * 26 + CountBits(At(words, length - 1))
      ensures Mag() < PowerOfTwo(r)
      ensures At(words, length - 1) != 0 ==> r > 0 && PowerOfTwo(r - 1) <= Mag()
      ensures IsZero() ==> r == 0
    {
      hide P, PowerOfTwo, At, V;
      var w := At(words, length - 1);
      var hi := CountBits(w);
      r := (length - 1) * 26 + hi;
      TopBits(words, length - 1, w, hi);
    }

    static lemma TopBits(ws: seq<int>, n: nat, w: int, hi: nat)
      requires InRange(ws, n) && 0 <= w == At(ws, n) && hi == CountBits(w)
      ensures V(ws, n + 1) < PowerOfTwo(26 * n + hi)
      ensures w != 0 ==> hi > 0 && PowerOfTwo(26 * n + hi - 1) <= V(ws, n + 1)
    {
      hide P, PowerOfTwo, At, V;
      VStep(ws, n);
      VBound(ws, n);
      BitWeight(n, hi);
      MulLe(w + 1, PowerOfTwo(hi), P(n));
      MulAdd(w, 1, P(n));
      if w > 0 {
        BitWeight(n, hi - 1);
        MulLe(PowerOfTwo(hi - 1), w, P(n));
      }
    }

    /** How far the loops of egcd and _invmp count zero bits: at most one limb's worth. */
    method LowZeroBits() returns (i: nat)
      requires WF() && Mag() > 0
      ensures i <= 26 && Mag() % PowerOfTwo(i) == 0
      ensures i == 0 <==> IsOdd()
      ensures i < 26 ==> (Mag() / PowerOfTwo(i)) % 2 == 1
    {
      hide At, P, V;
      var w := At(words, 0);
      i := 0;
      var im := 1;
      assert PowerOfTwo(0) == 1;
      while i < 26 && (w / im) % 2 == 0
        invariant i <= 26 && im == PowerOfTwo(i)
        invariant w % im == 0
        invariant i > 0 ==> w % 2 == 0
      {
        NextBit(w, im);
        im := im * 2;
        i := i + 1;
      }
      VLowBits(words, length, i);
      if i < 26 {
        VBit(words, 0, i, length);
      }
    }

    static lemma NextBit(w: int, im: int)
      requires 0 < im && w % im == 0 && (w / im) % 2 == 0
      ensures w % (im * 2) == 0
      ensures im == 1 ==> w % 2 == 0
    {
      DivMod(w, im);
      var k := (w / im) / 2;
      assert w / im == k * 2;
      MulAssoc(k, 2, im);
      DivModUnique(w, im * 2, k, 0);
    }

    /** Halving an even number in place is exact, whatever its sign. */
    method Halve()
      requires Canon() && Mag() % 2 == 0
      modifies this
      ensures Canon() && 2 * Value() == old(Value())
    {
      assert PowerOfTwo(1) == 2;
      ZeroMag();
      IUShrn(1);
      ZeroMag();
    }

    lemma SignOfValue()
      requires Canon()
      ensures WF() && negative == (if Value() < 0 then 1 else 0)
      ensures Mag() == (if Value() < 0 then -Value() else Value())
      ensures IsZero() <==> Value() == 0
    {
      ZeroMag();
    }

    lemma LengthAtMost(k: nat)
      requires Canon() && 1 <= k && Mag() < P(k)
      ensures length <= k
    {
      if length > k {
        VTopNonzero(words, length);
        PMonotone(k, length - 1);
      }
    }

    lemma TopOfNonzero()
      requires Canon()
      ensures WF() && (!IsZero() ==> At(words, length - 1) != 0)
    {
    }

    lemma ParityOfValue()
      requires Canon()
      ensures IsOdd() <==> Value() % 2 == 1
      ensures Value() % 2 == Mag() % 2
    {
      Parity();
    }

    /** Compares with a plain number. (The strip() in the source has nothing to do here.) */
    method Cmpn(num: int) returns (res: int)
      requires Canon() && -BASE < num < BASE
      ensures res == if Value() < num then -1 else if Value() == num then 0 else 1
    {
      ZeroMag();
      SmallestOfLength();
      VStepZero(words);
      if negative != 0 && num >= 0 {
        return -1;
      }
      if negative == 0 && num < 0 {
        return 1;
      }
      if length > 1 {
        res := 1;
      } else {
        var magnitude := if num < 0 then -num else num;
        var w := At(words, 0);
        res := if w == magnitude then 0 else if w < magnitude then -1 else 1;
      }
      if negative != 0 {
        res := -res;
      }
    }
  }

  /** 1 * -1: the limb is the low part of -1, rounded down, and the high part -1 / 2^26 is
      rounded to zero. */
  method OneTimesMinusOne() returns (x: BN)
    ensures x.Value() == BASE - 1
  {
    x := new BN.FromSmall(1);
    VStepZero(x.words);
    OneRounding(x.words, -1);
    x.IMuln(-1);
  }

  /** 2^25 * -2: nothing is rounded, but the carry of -1 becomes the top word. */
  method NegativeTopWord() returns (x: BN)
    ensures !x.WF() && x.Mag() == -BASE && x.negative == 0
  {
    x := new BN.FromSmall(0x200_0000);
    VStepZero(x.words);
    OneRounding(x.words, -2);
    x.IMuln(-2);
  }
}
