/** The three multiplication kernels and the dispatch between them. */
module Multiplication {
  import opened Arith
  import opened JsNumber
  import opened Limbs
  import opened BigNum
  import opened SelfProduct

  /** What limb j of b contributes to column k. */
  ghost function Term(a: seq<int>, la: nat, b: seq<int>, k: nat, j: nat): int {
    if j <= k && k - j < la then At(a, k - j) * At(b, j) else 0
  }

  /** Column k, from the first n limbs of b. */
  ghost function Col(a: seq<int>, la: nat, b: seq<int>, k: nat, n: nat): int {
    if n == 0 then 0 else Col(a, la, b, k, n - 1) + Term(a, la, b, k, n - 1)
  }

  /** The first k columns, weighted. */
  ghost function Columns(a: seq<int>, la: nat, b: seq<int>, n: nat, k: nat): int {
    if k == 0 then 0 else Columns(a, la, b, n, k - 1) + Col(a, la, b, k - 1, n) * P(k - 1)
  }

  /** The row of limb j of b, in the first k columns. */
  ghost function Row(a: seq<int>, la: nat, b: seq<int>, j: nat, k: nat): int {
    if k == 0 then 0 else Row(a, la, b, j, k - 1) + Term(a, la, b, k - 1, j) * P(k - 1)
  }

  lemma {:induction false} ColumnsByRows(a: seq<int>, la: nat, b: seq<int>, n: nat, k: nat)
    ensures Columns(a, la, b, n + 1, k) == Columns(a, la, b, n, k) + Row(a, la, b, n, k)
  {
    if k > 0 {
      ColumnsByRows(a, la, b, n, k - 1);
      MulAdd(Col(a, la, b, k - 1, n), Term(a, la, b, k - 1, n), P(k - 1));
    }
  }

  lemma {:induction false} RowValue(a: seq<int>, la: nat, b: seq<int>, j: nat, k: nat)
    ensures Row(a, la, b, j, k) ==
      (At(b, j) * P(j)) * V(a, if k <= j then 0 else if k - j < la then k - j else la)
  {
    if k > 0 {
      RowValue(a, la, b, j, k - 1);
      if j <= k - 1 && k - 1 - j < la {
        var i := k - 1 - j;
        VStep(a, i);
        PAdd(j, i);
        RowTerm(At(a, i), At(b, j), P(j), P(i), V(a, i));
      }
    }
  }

  lemma RowTerm(x: int, y: int, p: int, q: int, v: int)
    ensures (y * p) * v + (x * y) * (p * q) == (y * p) * (v + x * q)
  {
    MulAdd(v, x * q, y * p);
    MulAssoc(y * p, x, q);
    MulAssoc(x * y, p, q);
    assert (y * p) * x == (x * y) * p by {
      MulComm(y * p, x);
      MulAssoc(x, y, p);
    }
  }

  /** All the columns together are the product. */
  lemma {:induction false} ColumnsProduct(a: seq<int>, la: nat, b: seq<int>, n: nat, k: nat)
    requires 0 < la && la + n <= k + 1
    ensures Columns(a, la, b, n, k) == V(a, la) * V(b, n)
  {
    if n == 0 {
      NoColumns(a, la, b, k);
    } else {
      ColumnsProduct(a, la, b, n - 1, k);
      ColumnsByRows(a, la, b, n - 1, k);
      RowValue(a, la, b, n - 1, k);
      VStep(b, n - 1);
      MulAdd(V(b, n - 1), At(b, n - 1) * P(n - 1), V(a, la));
      MulComm(At(b, n - 1) * P(n - 1), V(a, la));
    }
  }

  lemma {:induction false} NoColumns(a: seq<int>, la: nat, b: seq<int>, k: nat)
    ensures Columns(a, la, b, 0, k) == 0
  {
    if k > 0 {
      NoColumns(a, la, b, k - 1);
    }
  }

  /** Terms below j0 and from j1 on are not there, so the inner loops may skip them. */
  lemma {:induction false} ColStart(a: seq<int>, la: nat, b: seq<int>, k: nat, j: nat)
    requires j <= k + 1 && (j > 0 ==> la <= k - (j - 1))
    ensures Col(a, la, b, k, j) == 0
  {
    if j > 0 {
      ColStart(a, la, b, k, j - 1);
    }
  }

  lemma {:induction false} ColEnd(a: seq<int>, la: nat, b: seq<int>, k: nat, n: nat)
    requires k + 1 <= n
    ensures Col(a, la, b, k, n) == Col(a, la, b, k, k + 1)
  {
    if n > k + 1 {
      ColEnd(a, la, b, k, n - 1);
    }
  }

  function Max(x: int, y: int): int {
    if x < y then y else x
  }

  function Min(x: int, y: int): int {
    if x < y then x else y
  }

  // ----- a product written over one of its operands -----

  /** The first k columns, weighted, when they are written to ws, which held b before and is
      read as the second operand: column k finds the columns before it, and one limb of b. */
  ghost function Overwritten(a: seq<int>, la: nat, b: seq<int>, ws: seq<int>, k: nat): int {
    if k == 0 then 0
    else Overwritten(a, la, b, ws, k - 1) + (Col(a, la, ws, k - 1, k - 1) + At(a, 0) * At(b, k - 1)) * P(k - 1)
  }

  /** What the columns add up to, whether or not they overwrite b. */
  ghost function Written(over: bool, a: seq<int>, la: nat, b: seq<int>, lb: nat, ws: seq<int>, k: nat): int {
    if over then Overwritten(a, la, b, ws, k) else Columns(a, la, b, lb, k)
  }

  lemma {:induction false} ColSame(a: seq<int>, la: nat, b: seq<int>, b': seq<int>, k: nat, n: nat)
    requires forall j: nat :: j < n ==> At(b, j) == At(b', j)
    ensures Col(a, la, b, k, n) == Col(a, la, b', k, n)
  {
    if n > 0 {
      ColSame(a, la, b, b', k, n - 1);
    }
  }

  lemma {:induction false} OverwrittenSame(a: seq<int>, la: nat, b: seq<int>, ws: seq<int>, ws': seq<int>, k: nat)
    requires forall j: nat :: j < k ==> At(ws, j) == At(ws', j)
    ensures Overwritten(a, la, b, ws, k) == Overwritten(a, la, b, ws', k)
  {
    if k > 0 {
      OverwrittenSame(a, la, b, ws, ws', k - 1);
      ColSame(a, la, ws, ws', k - 1, k - 1);
    }
  }

  /** One more limb of a in a column. */
  lemma {:induction false} ColWider(a: seq<int>, la: nat, b: seq<int>, k: nat, n: nat)
    ensures Col(a, la + 1, b, k, n) ==
      Col(a, la, b, k, n) + if la <= k && k - la < n then At(a, la) * At(b, k - la) else 0
  {
    if n > 0 {
      ColWider(a, la, b, k, n - 1);
    }
  }

  lemma WiderTerm(c: int, x: int, y: int, p: int, q: int, v: int)
    ensures (y * p) * v + (c + y * x) * (p * q) == c * (p * q) + (y * p) * (v + x * q)
  {
    RowTerm(x, y, p, q, v);
    MulComm(x, y);
    MulAdd(c, y * x, p * q);
  }

  /** ... and in all of them. */
  lemma {:induction false} OverwrittenWider(a: seq<int>, la: nat, b: seq<int>, ws: seq<int>, k: nat)
    requires 0 < la
    ensures Overwritten(a, la + 1, b, ws, k) ==
      Overwritten(a, la, b, ws, k) + At(a, la) * P(la) * V(ws, if k <= la then 0 else k - la)
  {
    hide P, V, At, Col;
    if k > 0 {
      OverwrittenWider(a, la, b, ws, k - 1);
      NextColumnWider(a, la, b, ws, k - 1);
    }
  }

  lemma NextColumnWider(a: seq<int>, la: nat, b: seq<int>, ws: seq<int>, j: nat)
    requires 0 < la
    ensures (Col(a, la + 1, ws, j, j) + At(a, 0) * At(b, j)) * P(j)
      + At(a, la) * P(la) * V(ws, if j <= la then 0 else j - la) ==
      (Col(a, la, ws, j, j) + At(a, 0) * At(b, j)) * P(j)
      + At(a, la) * P(la) * V(ws, if j + 1 <= la then 0 else j + 1 - la)
  {
    hide P, V, At, Col;
    ColWider(a, la, ws, j, j);
    if la <= j {
      var i := j - la;
      VStep(ws, i);
      PAdd(la, i);
      WiderTerm(Col(a, la, ws, j, j) + At(a, 0) * At(b, j), At(ws, i), At(a, la), P(la), P(i), V(ws, i));
    }
  }

  lemma {:induction false} OverwrittenOne(a: seq<int>, b: seq<int>, ws: seq<int>, k: nat)
    ensures Overwritten(a, 1, b, ws, k) == At(a, 0) * V(b, k)
  {
    hide P, V, At;
    if k > 0 {
      OverwrittenOne(a, b, ws, k - 1);
      ColStart(a, 1, ws, k - 1, k - 1);
      VStep(b, k - 1);
      MulAssoc(At(a, 0), At(b, k - 1), P(k - 1));
      MulAdd(V(b, k - 1), At(b, k - 1) * P(k - 1), At(a, 0));
    }
  }

  /** So the first limb of a meets all of b, and the others meet the result. */
  lemma {:induction false} OverwrittenValue(a: seq<int>, n: nat, b: seq<int>, ws: seq<int>, m: nat, r: int)
    requires 1 <= n <= m + 1 && InRange(ws, m) && r % P(m) == V(ws, m)
    ensures Overwritten(a, n, b, ws, m) == At(a, 0) * V(b, m) + Reread(a, n, m, r)
  {
    hide P, V, At, Overwritten;
    if n == 1 {
      OverwrittenOne(a, b, ws, m);
    } else {
      var i := n - 1;
      OverwrittenValue(a, i, b, ws, m, r);
      OverwrittenWider(a, i, b, ws, m);
      var q := LowerRemainder(r, m, m - i);
      VLow(ws, m - i, m);
      ModAddMultiple(r % P(m - i), q, P(m - i));
      ModTwice(r, P(m - i));
    }
  }

  /** The result r of m columns and a carry, written over the operand b. */
  ghost predicate ResultOverwritten(a: seq<int>, n: nat, b: seq<int>, m: nat, r: int)
    requires n <= m + 1
  {
    r == At(a, 0) * V(b, m) + Reread(a, n, m, r)
  }

  lemma ReadBack(a: seq<int>, n: nat, b: seq<int>, ws: seq<int>, m: nat, carry: int)
    requires 1 <= n <= m + 1 && InRange(ws, m) && V(ws, m) + carry * P(m) == Overwritten(a, n, b, ws, m)
    ensures ResultOverwritten(a, n, b, m, V(ws, m) + carry * P(m))
  {
    hide P, V, At, Overwritten;
    VBound(ws, m);
    DivModUnique(V(ws, m) + carry * P(m), P(m), carry, V(ws, m));
    OverwrittenValue(a, n, b, ws, m, V(ws, m) + carry * P(m));
  }

  /** A single limb is read before anything is written. */
  lemma OneLimb(a: seq<int>, b: seq<int>, r: int)
    requires ResultOverwritten(a, 1, b, 1, r)
    ensures r == V(a, 1) * V(b, 1)
  {
    hide P, V, At;
    VStepZero(a);
  }

  lemma NothingWritten(over: bool, a: seq<int>, la: nat, b: seq<int>, lb: nat, ws: seq<int>)
    ensures Written(over, a, la, b, lb, ws, 0) == 0
  {
  }

  /** The last carry of a product fits the last limb. */
  lemma LastCarry(a: seq<int>, la: nat, b: seq<int>, lb: nat, ws: seq<int>, carry: int)
    requires 0 < la && 0 < lb && InRange(a, la) && InRange(b, lb) && InRange(ws, la + lb - 1)
    requires V(ws, la + lb - 1) + carry * P(la + lb - 1) == Columns(a, la, b, lb, la + lb - 1)
    ensures V(ws, la + lb - 1) + carry * P(la + lb - 1) == V(a, la) * V(b, lb)
    ensures 0 <= carry < BASE
  {
    var n, p := la + lb - 1, P(la + lb - 1);
    ColumnsProduct(a, la, b, lb, n);
    VBound(a, la);
    VBound(b, lb);
    VBound(ws, n);
    MulLe(0, V(a, la), V(b, lb));
    MulLe(V(a, la), P(la), V(b, lb));
    MulLt(V(b, lb), P(lb), P(la));
    PAdd(la, lb);
    PStep(n);
    if carry < 0 {
      MulLe(carry, -1, p);
    } else if carry >= BASE {
      MulLe(BASE, carry, p);
    }
  }

  /** smallMulTo's inner step: the accumulator (rword, ncarry) takes one more term. */
  lemma AccumulateTerm(x: int, y: int, rword: int, ncarry: int)
    requires 0 <= x < BASE && 0 <= y < BASE && 0 <= rword < BASE
    ensures 0 <= x * y + rword <= MAX_EXACT && 0 <= Hi26(x * y + rword) < BASE
    ensures Low26(x * y + rword) + BASE * (ncarry + Hi26(x * y + rword)) == rword + BASE * ncarry + x * y
  {
    MulLe(x, BASE - 1, y);
    MulLe(y, BASE - 1, BASE - 1);
    MulLe(0, x, y);
    SplitLow(x * y + rword);
  }

  /** A finished column d appends its low limb to the product. An operand that is overwritten
      has the length of the product by then. */
  lemma ColumnStep(over: bool, ws: seq<int>, a: seq<int>, la: nat, b: seq<int>, lb: nat, k: nat, carry: int, limb: int,
      carry': int, d: int)
    requires V(ws, k) + carry * P(k) == Written(over, a, la, b, lb, ws, k)
    requires limb + BASE * carry' == carry + d && k < la + lb && 0 < la
    requires d == if over then Col(a, la, ws, k, la + lb) else Col(a, la, b, k, lb)
    requires over ==> forall j: nat :: k <= j ==> At(ws, j) == At(b, j)
    ensures V(Put(ws, k, limb), k + 1) + carry' * P(k + 1) == Written(over, a, la, b, lb, Put(ws, k, limb), k + 1)
    ensures over ==> forall j: nat :: k < j ==> At(Put(ws, k, limb), j) == At(b, j)
  {
    hide P, At, Put;
    CarryStep(ws, 0, k, carry, d, limb, carry');
    var ws' := Put(ws, k, limb);
    if over {
      OverwrittenSame(a, la, b, ws, ws', k);
      ColSame(a, la, ws, ws', k, k);
      ColEnd(a, la, ws, k, la + lb);
      TermInside(a, la, ws, k, k);
    }
  }

  lemma FirstColumn(a: seq<int>, la: nat, b: seq<int>, lb: nat)
    requires 0 < la && 0 < lb
    ensures Col(a, la, b, 0, lb) == At(a, 0) * At(b, 0)
    ensures Columns(a, la, b, lb, 0) == 0
  {
    ColEnd(a, la, b, 0, lb);
    assert Col(a, la, b, 0, 1) == Col(a, la, b, 0, 0) + Term(a, la, b, 0, 0);
  }

  lemma TermInside(a: seq<int>, la: nat, b: seq<int>, k: nat, j: nat)
    requires j <= k && k - j < la
    ensures Col(a, la, b, k, j + 1) == Col(a, la, b, k, j) + At(a, k - j) * At(b, j)
  {
  }

  /** The column loops run over exactly the limbs that meet in column k. */
  lemma ColumnEnds(a: seq<int>, la: nat, b: seq<int>, lb: nat, k: nat)
    requires 0 < la && 0 < lb && k < la + lb - 1
    ensures Col(a, la, b, k, Max(0, k - la + 1)) == 0
    ensures Col(a, la, b, k, Min(k, lb - 1) + 1) == Col(a, la, b, k, lb)
  {
    ColStart(a, la, b, k, Max(0, k - la + 1));
    if k < lb {
      ColEnd(a, la, b, k, lb);
    }
  }

  /** One term of a column, accumulated in two words. */
  method SmallTerm(a: nat, b: nat, rword: nat, ncarry: nat) returns (rword': nat, ncarry': nat)
    requires a < BASE && b < BASE && rword < BASE
    ensures rword' < BASE && ncarry' < ncarry + BASE
    ensures rword' + BASE * ncarry' == rword + BASE * ncarry + a * b
  {
    hide Low26, Hi26;
    AccumulateTerm(a, b, rword, ncarry);
    var r := Exact(a * b + rword);
    ncarry' := ncarry + Hi26(r);
    rword' := Low26(r);
  }

  /** smallMulTo's column loop. */
  method SmallColumn(self: BN, num: BN, k: nat, carry: nat) returns (rword: nat, ncarry: nat)
    requires self.WF() && num.WF() && Min(self.length, num.length) <= 31
    requires k < self.length + num.length - 1 && carry <= 31 * BASE
    ensures rword < BASE && ncarry <= 31 * BASE
    ensures rword + BASE * ncarry == carry + Col(self.words, self.length, num.words, k, num.length)
  {
    hide At, Low26, Hi26, UShr26, Col;
    var j := Max(0, k - self.length + 1);
    var maxJ := Min(k, num.length - 1);
    ColumnEnds(self.words, self.length, num.words, num.length, k);
    ncarry, rword := UShr26(carry), Low26(carry);
    SplitLow(carry);
    while j <= maxJ
      invariant Max(0, k - self.length + 1) <= j <= maxJ + 1
      invariant 0 <= rword < BASE
      invariant 0 <= ncarry <= 31 + (j - Max(0, k - self.length + 1)) * (BASE - 1)
      invariant rword + BASE * ncarry == carry + Col(self.words, self.length, num.words, k, j)
    {
      var a, b := At(self.words, k - j), At(num.words, j);
      TermInside(self.words, self.length, num.words, k, j);
      rword, ncarry := SmallTerm(a, b, rword, ncarry);
      j := j + 1;
    }
  }

  lemma SignedMul(x: int, y: int)
    ensures (-x) * y == -(x * y) && x * (-y) == -(x * y) && (-x) * (-y) == x * y
  {
  }

  /** The end of smallMulTo and bigMulTo: the last carry becomes the last limb. */
  method FinishProduct(out: BN, carry: int)
    requires 1 < out.length && InRange(out.words, out.length - 1) && 0 <= carry
    requires out.negative == 0 || out.negative == 1
    modifies out
    ensures out.Mag() == old(V(out.words, out.length - 1)) + carry * old(P(out.length - 1))
    ensures out.Value() == if old(out.negative) == 0 then out.Mag() else -out.Mag()
    ensures old(out.negative) == 0 ==> out.negative == 0
    ensures carry < BASE ==> out.Canon()
  {
    hide At, Put, V, P;
    if carry != 0 {
      VPut(out.words, out.length - 1, carry);
      out.words := Put(out.words, out.length - 1, carry);
    } else {
      out.length := out.length - 1;
    }
    out.Strip();
  }

  /** Column by column with a double-width accumulator. Below 63 limbs a column has at most
      31 terms, which keeps ncarry below 2^31. The second operand may be the output. */
  method SmallMulTo(self: BN, num: BN, out: BN)
    requires self.WF() && num.WF() && out != self
    requires self.length + num.length < 63 && (num == out ==> self.length == num.length)
    requires num == out && self.length + num.length > 2 ==> InRange(num.words, self.length + num.length)
    modifies out
    ensures num != out || old(self.length + num.length) == 2 ==>
      out.Canon() && out.Value() == self.Value() * old(num.Value())
    ensures num != out && self.negative == num.negative ==> out.negative == 0
    ensures num == out ==>
      ResultOverwritten(self.words, self.length, old(num.words), old(self.length + num.length) - 1, out.Mag())
  {
    hide At, Put, V, P, Low26, UShr26, Hi26, Col, Columns, Overwritten, Reread;
    var la, lb := self.length, num.length;
    ghost var over, va, vb := num == out, self.Mag(), num.Mag();
    ghost var wa, wb := self.words, num.words;
    ghost var negative := num.negative != self.negative;
    var limb := At(num.words, 0);
    out.negative := if num.negative == self.negative then 0 else 1;
    out.length := la + lb;
    AccumulateTerm(At(wa, 0), limb, 0, 0);
    var r := Exact(At(self.words, 0) * limb);
    FirstColumn(wa, la, wb, if over then la + lb else lb);
    NothingWritten(over, wa, la, wb, lb, out.words);
    ColumnStep(over, out.words, wa, la, wb, lb, 0, 0, Low26(r), Hi26(r), r);
    var carry := Hi26(r);
    out.words := Put(out.words, 0, Low26(r));
    var k := 1;
    while k < la + lb - 1
      modifies out`words
      invariant 1 <= k <= la + lb - 1
      invariant 0 <= carry <= 31 * BASE && InRange(out.words, k) && (k == 1 ==> carry < BASE)
      invariant V(out.words, k) + carry * P(k) == Written(over, wa, la, wb, lb, out.words, k)
      invariant over ==> forall j: nat :: k <= j ==> At(out.words, j) == At(wb, j)
    {
      var rword, ncarry := SmallColumn(self, num, k, carry);
      ColumnStep(over, out.words, wa, la, wb, lb, k, carry, rword, ncarry, rword + BASE * ncarry - carry);
      out.words := Put(out.words, k, rword);
      carry := ncarry;
      k := k + 1;
    }
    if over {
      ReadBack(wa, la, wb, out.words, k, carry);
      if k == 1 {
        OneLimb(wa, wb, V(out.words, k) + carry * P(k));
      }
    } else {
      LastCarry(wa, la, wb, lb, out.words, carry);
    }
    SignedMul(va, vb);
    FinishProduct(out, carry);
  }

  /** bigMulTo's inner step: three 26-bit words of accumulator take a limb product r. */
  lemma AccumulateWide(r: int, rword: int, ncarry: int, hncarry: int)
    requires 0 <= r <= (BASE - 1) * (BASE - 1) && 0 <= rword < BASE && 0 <= ncarry < BASE
    ensures 0 <= Hi26(r) < BASE
    ensures var lo := Low26(r) + rword;
      var n := ncarry + Hi26(r) + UShr26(lo);
      n < 2 * BASE && 0 <= UShr26(n) <= 1 && 0 <= n &&
      Low26(lo) + BASE * Low26(n) + BASE * BASE * (hncarry + UShr26(n))
        == rword + BASE * ncarry + BASE * BASE * hncarry + r
  {
    SplitLow(r);
    var lo := Low26(r) + rword;
    SplitLow(lo);
    SplitLow(ncarry + Hi26(r) + UShr26(lo));
  }

  /** One term of a column, accumulated in three words. */
  method BigTerm(a: nat, b: nat, rword: nat, ncarry: nat, hncarry: nat)
    returns (rword': nat, ncarry': nat, hncarry': nat)
    requires a < BASE && b < BASE && rword < BASE && ncarry < BASE
    ensures rword' < BASE && ncarry' < BASE && hncarry <= hncarry' <= hncarry + 1
    ensures rword' + BASE * ncarry' + BASE * BASE * hncarry' == rword + BASE * ncarry + BASE * BASE * hncarry + a * b
  {
    hide Low26, Hi26, UShr26, ToInt32;
    LimbProduct(a, b);
    var r := Exact(a * b);
    AccumulateWide(r, rword, ncarry, hncarry);
    var lo := Low26(r);
    ncarry' := ToInt32(ncarry + Hi26(r));
    lo := ToInt32(lo + rword);
    rword' := Low26(lo);
    ncarry' := ToInt32(ncarry' + UShr26(lo));
    hncarry' := hncarry + UShr26(ncarry');
    ncarry' := Low26(ncarry');
  }

  /** bigMulTo's column loop. `hncarry` comes in from the column before and goes out to the
      next one. */
  method BigColumn(self: BN, num: BN, k: nat, carry: nat, hn: nat) returns (rword: nat, ncarry: nat, hncarry: nat)
    requires self.WF() && num.WF() && Min(self.length, num.length) <= 1024
    requires k < self.length + num.length - 1 && carry < BASE && hn <= 1024
    ensures rword < BASE && ncarry < BASE && hncarry <= 1024
    ensures rword + BASE * (ncarry + BASE * hncarry)
      == carry + BASE * hn + Col(self.words, self.length, num.words, k, num.length)
  {
    hide At, Low26, Hi26, UShr26, Col;
    ncarry, hncarry := hn, 0;
    rword := Low26(carry);
    SplitLow(carry);
    var j := Max(0, k - self.length + 1);
    var maxJ := Min(k, num.length - 1);
    ColumnEnds(self.words, self.length, num.words, num.length, k);
    while j <= maxJ
      invariant Max(0, k - self.length + 1) <= j <= maxJ + 1
      invariant 0 <= rword < BASE && 0 <= ncarry < BASE
      invariant 0 <= hncarry <= j - Max(0, k - self.length + 1)
      invariant rword + BASE * ncarry + BASE * BASE * hncarry
        == carry + BASE * hn + Col(self.words, self.length, num.words, k, j)
    {
      var a, b := At(self.words, k - j), At(num.words, j);
      TermInside(self.words, self.length, num.words, k, j);
      rword, ncarry, hncarry := BigTerm(a, b, rword, ncarry, hncarry);
      j := j + 1;
    }
  }

  /** The same with a carry split in two words. The upper one ends as zero, unless the second
      operand is the output; then it is lost. */
  method BigMulTo(self: BN, num: BN, out: BN)
    requires self.WF() && num.WF() && out != self
    requires self.length + num.length < 1024
    requires num == out ==> self.length == num.length && InRange(num.words, self.length + num.length)
    modifies out
    ensures out.Canon()
    ensures num != out ==> out.Value() == self.Value() * num.Value()
    ensures num != out && self.negative == num.negative ==> out.negative == 0
    ensures num == out ==>
      ResultTruncated(self.words, self.length, old(num.words), old(self.length + num.length) - 1, out.Mag())
  {
    hide At, Put, V, P, Col, Columns, Overwritten, Reread;
    var la, lb := self.length, num.length;
    ghost var over, va, vb := num == out, self.Mag(), num.Mag();
    ghost var wa, wb := self.words, num.words;
    out.negative := if num.negative == self.negative then 0 else 1;
    out.length := la + lb;
    NothingWritten(over, wa, la, wb, lb, out.words);
    var carry, hncarry := 0, 0;
    var k := 0;
    while k < out.length - 1
      modifies out`words
      invariant k <= la + lb - 1
      invariant 0 <= carry < BASE && 0 <= hncarry <= 1024 && InRange(out.words, k)
      invariant V(out.words, k) + (carry + BASE * hncarry) * P(k) == Written(over, wa, la, wb, lb, out.words, k)
      invariant over ==> forall j: nat :: k <= j ==> At(out.words, j) == At(wb, j)
    {
      var rword, ncarry, hn := BigColumn(self, num, k, carry, hncarry);
      ColumnStep(over, out.words, wa, la, wb, lb, k, carry + BASE * hncarry, rword, ncarry + BASE * hn,
        rword + BASE * (ncarry + BASE * hn) - (carry + BASE * hncarry));
      out.words := Put(out.words, k, rword);
      carry, hncarry := ncarry, hn;
      k := k + 1;
    }
    if over {
      ReadBack(wa, la, wb, out.words, k, carry + BASE * hncarry);
      VBound(out.words, k);
      CarryLost(wa, la, wb, k, V(out.words, k), carry, hncarry);
    } else {
      LastCarry(wa, la, wb, lb, out.words, carry + BASE * hncarry);
      assert hncarry == 0;
    }
    SignedMul(va, vb);
    FinishProduct(out, carry);
  }

  /** What is written over the operand b when a carry out of the last limb is lost. */
  ghost predicate ResultTruncated(a: seq<int>, n: nat, b: seq<int>, m: nat, r: int)
    requires n <= m + 1
  {
    (At(a, 0) * V(b, m) + Reread(a, n, m, r) - r) % P(m + 1) == 0
  }

  lemma CarryLost(a: seq<int>, n: nat, b: seq<int>, m: nat, v: int, carry: int, high: int)
    requires 1 <= n <= m + 1 && 0 <= v < P(m)
    requires ResultOverwritten(a, n, b, m, v + (carry + BASE * high) * P(m))
    ensures ResultTruncated(a, n, b, m, v + carry * P(m))
  {
    hide P, V, At, Reread, ResultOverwritten, ResultTruncated;
    var r, r' := v + (carry + BASE * high) * P(m), v + carry * P(m);
    DivModUnique(r, P(m), carry + BASE * high, v);
    DivModUnique(r', P(m), carry, v);
    RereadSame(a, a, n, m, r, r');
    LostMultiple(carry, high, m);
    TruncatedFrom(a, n, b, m, r, r', high);
  }

  lemma LostMultiple(carry: int, high: int, m: nat)
    ensures (carry + BASE * high) * P(m) - carry * P(m) == high * P(m + 1)
  {
    hide P;
    PStep(m);
    MulAdd(carry, BASE * high, P(m));
    MulComm(BASE, high);
    MulAssoc(high, BASE, P(m));
  }

  lemma TruncatedFrom(a: seq<int>, n: nat, b: seq<int>, m: nat, r: int, r': int, q: int)
    requires n <= m + 1 && ResultOverwritten(a, n, b, m, r)
    requires Reread(a, n, m, r) == Reread(a, n, m, r') && r - r' == q * P(m + 1)
    ensures ResultTruncated(a, n, b, m, r')
  {
    hide P, V, At, Reread;
    DivExact(q, P(m + 1));
  }

  /** Half-limb products: a limb is ah * 2^13 + al. */
  lemma HalfLimbs(x: int, y: int)
    requires 0 <= x < BASE && 0 <= y < BASE
    ensures x * y == (x % 8192) * (y % 8192)
      + 8192 * ((x % 8192) * (y / 8192) + (x / 8192) * (y % 8192))
      + BASE * ((x / 8192) * (y / 8192))
    ensures 0 <= (x % 8192) * (y % 8192) < BASE && 0 <= (x / 8192) * (y / 8192) < BASE
    ensures 0 <= (x % 8192) * (y / 8192) < BASE && 0 <= (x / 8192) * (y % 8192) < BASE
  {
    var al, ah, bl, bh := x % 8192, x / 8192, y % 8192, y / 8192;
    HalfProduct(al, bl);
    HalfProduct(al, bh);
    HalfProduct(ah, bl);
    HalfProduct(ah, bh);
    assert x == al + 8192 * ah && y == bl + 8192 * bh;
    MulAdd(al, 8192 * ah, y);
    MulAdd(bl, 8192 * bh, al);
    MulAdd(bl, 8192 * bh, ah);
    MulAssoc(8192, ah, y);
  }

  lemma HalfProduct(x: int, y: int)
    requires 0 <= x < 8192 && 0 <= y < 8192
    ensures 0 <= x * y < BASE
  {
    MulLe(x, 8191, y);
    MulLe(0, x, y);
  }

  /** One column of the generated comb: three int32 sums of half-limb products. The column
      has at most ten terms, so none of them wraps. `imul` and `| 0` are both ToInt32 here. */
  method CombColumn(wa: seq<int>, wb: seq<int>, k: nat) returns (lo: int, mid: int, hi: int)
    requires InRange(wa, 10) && InRange(wb, 10) && k < 19
    ensures 0 <= lo <= 10 * BASE && 0 <= mid <= 20 * BASE && 0 <= hi <= 10 * BASE
    ensures lo + 8192 * mid + BASE * hi == Col(wa, 10, wb, k, 10)
  {
    hide At, ToInt32, Col;
    var minJ, maxJ := Max(0, k - 9), Min(k, 9);
    ColumnEnds(wa, 10, wb, 10, k);
    lo, mid, hi := 0, 0, 0;
    var j := minJ;
    while j <= maxJ
      invariant minJ <= j <= maxJ + 1
      invariant 0 <= lo <= (j - minJ) * BASE && 0 <= hi <= (j - minJ) * BASE
      invariant 0 <= mid <= 2 * (j - minJ) * BASE
      invariant lo + 8192 * mid + BASE * hi == Col(wa, 10, wb, k, j)
    {
      var a, b := At(wa, k - j), At(wb, j);
      HalfLimbs(a, b);
      TermInside(wa, 10, wb, k, j);
      var al, ah, bl, bh := a % 8192, a / 8192, b % 8192, b / 8192;
      lo := ToInt32(lo + ToInt32(al * bl));
      mid := ToInt32(mid + ToInt32(al * bh));
      mid := ToInt32(mid + ToInt32(ah * bl));
      hi := ToInt32(hi + ToInt32(ah * bh));
      j := j + 1;
    }
  }

  /** The limb and carry of a comb column. */
  lemma CombLimb(c: int, lo: int, mid: int, hi: int)
    requires 0 <= lo <= 10 * BASE && 0 <= mid <= 20 * BASE && 0 <= hi <= 10 * BASE && 0 <= c <= 11 * BASE
    ensures var w := ToInt32(ToInt32(c + lo) + ToInt32((mid % 8192) * 8192));
      var c' := ToInt32(ToInt32(hi + mid / 8192) + UShr26(w));
      0 <= c' <= 11 * BASE && Low26(w) + BASE * c' == c + (lo + 8192 * mid + BASE * hi)
  {
    var w := c + lo + (mid % 8192) * 8192;
    SplitLow(w);
  }

  /** The unrolled kernel for two numbers of ten limbs, as the loop that generates it. All
      limbs and both signs are read before anything is written, so the output may be an
      operand. It does not strip, and for canonical operands it need not. */
  method Comb10MulTo(self: BN, num: BN, out: BN)
    requires self.Canon() && num.Canon()
    requires self.length == 10 && num.length == 10
    modifies out
    ensures out.Canon() && out.Value() == old(self.Value()) * old(num.Value())
    ensures old(self.negative) == old(num.negative) ==> out.negative == 0
  {
    hide At, Put, V, P, Low26, ToInt32, UShr26, Col, Columns;
    var wa, wb := self.words, num.words;
    ghost var va, vb := self.Mag(), num.Mag();
    SignedMul(va, vb);
    FirstColumn(wa, 10, wb, 10);
    NothingWritten(false, wa, 10, wb, 10, out.words);
    out.negative := if num.negative == self.negative then 0 else 1;
    out.length := 19;
    var ws := out.words;
    var c, k := 0, 0;
    while k < 19
      modifies {}
      invariant k <= 19 && 0 <= c <= 11 * BASE && InRange(ws, k)
      invariant V(ws, k) + c * P(k) == Written(false, wa, 10, wb, 10, ws, k)
    {
      var lo, mid, hi := CombColumn(wa, wb, k);
      CombLimb(c, lo, mid, hi);
      var w := ToInt32(ToInt32(c + lo) + ToInt32((mid % 8192) * 8192));
      var c' := ToInt32(ToInt32(hi + mid / 8192) + UShr26(w));
      ColumnStep(false, ws, wa, 10, wb, 10, k, c, Low26(w), c', lo + 8192 * mid + BASE * hi);
      ws := Put(ws, k, Low26(w));
      c := c';
      k := k + 1;
    }
    LastCarry(wa, 10, wb, 10, ws, c);
    CombTop(wa, wb, ws, c);
    if c != 0 {
      VPut(ws, 19, c);
      ws := Put(ws, 19, c);
      out.length := out.length + 1;
    }
    out.words := ws;
  }

  lemma CombTop(wa: seq<int>, wb: seq<int>, ws: seq<int>, c: int)
    requires InRange(wa, 10) && InRange(wb, 10) && At(wa, 9) != 0 && At(wb, 9) != 0
    requires InRange(ws, 19) && V(ws, 19) + c * P(19) == V(wa, 10) * V(wb, 10)
    ensures c == 0 ==> At(ws, 18) != 0
  {
    VTopNonzero(wa, 10);
    VTopNonzero(wb, 10);
    MulLe(P(9), V(wa, 10), P(9));
    MulLe(P(9), V(wb, 10), V(wa, 10));
    PAdd(9, 9);
    if c == 0 {
      TopFromValue(ws, 19);
    }
  }

  /** Whether a product may be written over its second operand: the kernel for ten limbs reads
      everything first, and a single limb leaves nothing to be read twice. */
  predicate MayOverwrite(la: nat, lb: nat) {
    la + lb == 2 || (la == 10 && lb == 10)
  }

  /** Picks a kernel by size. From 1024 limbs on the source turns to a floating-point
      transform that is not part of this model. */
  method MulTo(self: BN, num: BN, out: BN)
    requires self.Canon() && num.Canon() && out != self
    requires self.length + num.length < 1024 && (num == out ==> self.length == num.length)
    requires num == out && !MayOverwrite(self.length, num.length) ==> InRange(num.words, self.length + num.length)
    modifies out
    ensures num != out || old(MayOverwrite(self.length, num.length)) ==>
      out.Canon() && out.Value() == self.Value() * old(num.Value())
    ensures num != out && self.negative == num.negative ==> out.negative == 0
    ensures num == out && !old(MayOverwrite(self.length, num.length)) ==>
      ResultTruncated(self.words, self.length, old(num.words), old(self.length + num.length) - 1, out.Mag())
    ensures num == out && !old(MayOverwrite(self.length, num.length)) && old(self.length + num.length) < 63 ==>
      ResultOverwritten(self.words, self.length, old(num.words), old(self.length + num.length) - 1, out.Mag())
  {
    hide BN.Value, BN.Mag, ResultTruncated, ResultOverwritten, InRange, TopNonzero, At;
    var len := self.length + num.length;
    if self.length == 10 && num.length == 10 {
      Comb10MulTo(self, num, out);
    } else if len < 63 {
      ghost var wb, m := num.words, len - 1;
      SmallMulTo(self, num, out);
      if num == out {
        NothingLost(self.words, self.length, wb, m, out.Mag());
      }
    } else {
      BigMulTo(self, num, out);
    }
  }

  lemma NothingLost(a: seq<int>, n: nat, b: seq<int>, m: nat, r: int)
    requires n <= m + 1 && ResultOverwritten(a, n, b, m, r)
    ensures ResultTruncated(a, n, b, m, r)
  {
    ModSmall(0, P(m + 1));
  }

  /** A fresh product. */
  method Mul(self: BN, num: BN) returns (out: BN)
    requires self.Canon() && num.Canon() && self.length + num.length < 1024
    ensures fresh(out) && out.Canon() && out.Value() == self.Value() * num.Value()
    ensures self.negative == num.negative ==> out.negative == 0
  {
    out := new BN.Zeroed(self.length + num.length);
    MulTo(self, num, out);
  }

  /** The product in place. A number may be multiplied by itself if it has one limb or ten.
      Otherwise its words are read while they are overwritten, those beyond its length
      included (they are limbs that were once in use, or none), and the result is not the
      square. */
  method IMul(self: BN, num: BN)
    requires self.Canon() && num.Canon() && self.length + num.length < 1024
    requires self == num && !MayOverwrite(self.length, num.length) ==> InRange(self.words, 2 * self.length)
    modifies self
    ensures self != num || old(MayOverwrite(self.length, num.length)) ==>
      self.Canon() && self.Value() == old(self.Value()) * old(num.Value())
    ensures self != num && old(self.negative) == num.negative ==> self.negative == 0
    ensures self == num && old(self.CleanTail()) ==>
      (self.Mag() == old(self.Mag()) * old(self.Mag()) <==> old(self.length) == 1 || old(self.length) == 10)
    ensures self == num && 1 < old(self.length) < 32 && old(self.length) != 10 ==>
      ResultOverwritten(old(self.words), old(self.length), old(self.words), 2 * old(self.length) - 1, self.Mag())
  {
    hide BN.CleanTail, P, V, At, ResultTruncated, ResultOverwritten;
    ghost var w0, n, m := self.words, self.length, self.Mag();
    ghost var clean := self.CleanTail();
    if clean && n > 1 {
      SelfProductWrong(self);
    }
    var copy := self.Clone();
    MulTo(copy, num, self);
    if self == num {
      SelfResult(copy.words, w0, n, self.Mag());
      if MayOverwrite(n, n) {
        SignedMul(m, m);
        SquareSign(m);
        self.SignOfValue();
      }
    }
  }

  /** Only the limbs below the length of the copy matter. */
  lemma SelfResult(a: seq<int>, b: seq<int>, n: nat, r: int)
    requires 0 < n && forall i: nat :: i < n ==> At(a, i) == At(b, i)
    ensures ResultTruncated(a, n, b, 2 * n - 1, r) == ResultTruncated(b, n, b, 2 * n - 1, r)
    ensures ResultOverwritten(a, n, b, 2 * n - 1, r) == ResultOverwritten(b, n, b, 2 * n - 1, r)
  {
    RereadSame(a, b, n, 2 * n - 1, r, r);
  }

  lemma SquareSign(x: int)
    ensures 0 <= x * x
  {
  }

  lemma SelfProductWrong(x: BN)
    requires x.Canon() && x.CleanTail() && 1 < x.length
    ensures !ResultTruncated(x.words, x.length, x.words, 2 * x.length - 1, x.Mag() * x.Mag())
  {
    hide P, V, At, Reread;
    var w, n := x.words, x.length;
    VTop(w, n, 2 * n - 1);
    if ResultTruncated(w, n, w, 2 * n - 1, V(w, n) * V(w, n)) {
      NeverSquare(w, n, V(w, n) * V(w, n));
    }
  }

  /** x.imul(x) for x == 2^26 + 1 gives 2 * 2^52 + 2 * 2^26 + 1. */
  method SquareOfTwoLimbs() returns (x: BN)
    ensures x.Mag() == 2 * BASE * BASE + 2 * BASE + 1 != (BASE + 1) * (BASE + 1)
  {
    hide BN.CleanTail, P, V, At, Reread;
    x := new BN.FromWords([1, 1], 2, 0);
    TwoOnesLimbs();
    IMul(x, x);
    TwoOnes(x.Mag());
  }

  lemma TwoOnesLimbs()
    ensures InRange([1, 1], 4) && TopNonzero([1, 1], 2) && V([1, 1], 3) == V([1, 1], 2)
  {
    hide P;
    VStep([1, 1], 2);
  }
}
