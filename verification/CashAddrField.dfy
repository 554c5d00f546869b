/** The checksum as the CashAddr specification, section "Checksum", has it: a cyclic code over
    the field of 32 elements, whose generator polynomial is
    x^8 + 19 x^7 + 3 x^6 + 25 x^5 + 11 x^4 + 25 x^3 + 3 x^2 + 19 x + 1. */
module CashAddrField {
  import opened CashAddr

  // ----- the field -----

  /** Times x, modulo x^5 + x^3 + 1. */
  function Double(d: Symbol): Symbol {
    AddSymbol(AddSymbol(DoubledLow(d), Carry(d)), ThreeUp(Carry(d)))
  }

  function DoubledLow(d: Symbol): Symbol {
    OneUp(LowFour(d))
  }

  function LowFour(d: Symbol): Symbol {
    d & 15
  }

  function OneUp(d: Symbol): Symbol {
    d << 1
  }

  function Carry(d: Symbol): Symbol {
    d >> 4
  }

  function ThreeUp(d: Symbol): Symbol {
    d << 3
  }

  /** Times x^n. */
  function DoubleTimes(d: Symbol, n: nat): Symbol {
    if n == 0 then d else Double(DoubleTimes(d, n - 1))
  }

  /** The product of d and the lowest n bits of a. */
  function Times(a: Symbol, d: Symbol, n: nat): Symbol {
    if n == 0 then 0
    else AddSymbol(Times(a, d, n - 1), if Bit(a, n - 1) then DoubleTimes(d, n - 1) else 0)
  }

  /** The product in the field. */
  function Multiply(a: Symbol, d: Symbol): Symbol {
    Times(a, d, 5)
  }

  function MultiplyAll(a: Symbol, s: seq<Symbol>): (r: seq<Symbol>)
    ensures |r| == |s|
  {
    seq(|s|, i requires 0 <= i < |s| => Multiply(a, s[i]))
  }

  // ----- eight elements at once -----

  /** Times x, for the eight elements in a state. */
  function DoubleState(c: bv40): bv40 {
    Add(Add(Doubled(c), Carries(c)), AllThreeUp(Carries(c)))
  }

  function AllThreeUp(c: bv40): bv40 {
    c << 3
  }

  /** The low four bits of each, one place up. */
  function Doubled(c: bv40): bv40 {
    AllOneUp(LowFours(c))
  }

  function LowFours(c: bv40): bv40 {
    c & 0x7b_def7_bdef
  }

  function AllOneUp(c: bv40): bv40 {
    c << 1
  }

  /** The top bit of each. */
  function Carries(c: bv40): bv40 {
    (c >> 4) & 0x08_4210_8421
  }

  function DoubleStateTimes(c: bv40, n: nat): bv40 {
    if n == 0 then c else DoubleState(DoubleStateTimes(c, n - 1))
  }

  function ScaleTimes(a: Symbol, c: bv40, n: nat): bv40 {
    if n == 0 then 0
    else Add(ScaleTimes(a, c, n - 1), if Bit(a, n - 1) then DoubleStateTimes(c, n - 1) else 0)
  }

  /** Each of the eight elements times a. */
  function Scale(a: Symbol, c: bv40): bv40 {
    ScaleTimes(a, c, 5)
  }

  lemma DoubledAppend(c: bv40, d: Symbol)
    requires c < 0x8_0000_0000
    ensures Doubled(c) < 0x8_0000_0000 && Doubled(Append(c, d)) == Append(Doubled(c), DoubledLow(d))
  {
    hide Append, AllOneUp, OneUp, LowFours, LowFour;
    LowFoursAppend(c, d);
    LowFourBelow(d);
    OneUpAppend(LowFours(c), LowFour(d));
    OneUpBelow(LowFours(c));
  }

  lemma LowFoursAppend(c: bv40, d: Symbol)
    requires c < 0x8_0000_0000
    ensures LowFours(Append(c, d)) == Append(LowFours(c), LowFour(d))
    ensures LowFours(c) < 0x4_0000_0000
  {
  }

  lemma OneUpBelow(c: bv40)
    requires c < 0x4_0000_0000
    ensures AllOneUp(c) < 0x8_0000_0000
  {
  }

  lemma LowFourBelow(d: Symbol)
    ensures LowFour(d) < 16
  {
  }

  lemma AppendIs(c: bv40, d: Symbol)
    ensures Append(c, d) == (c << 5) | (d as bv40)
  {
  }

  lemma AllOneUpIs(c: bv40)
    ensures AllOneUp(c) == c << 1
  {
  }

  lemma OneUpIs(d: Symbol)
    ensures OneUp(d) == d << 1
  {
  }

  lemma ShiftsCommute(c: bv40, d: Symbol)
    requires d < 16
    ensures ((c << 5) | (d as bv40)) << 1 == ((c << 1) << 5) | ((d << 1) as bv40)
  {
  }

  lemma AppendedUp(c: bv40, d: Symbol)
    ensures AllOneUp(Append(c, d)) == ((c << 5) | (d as bv40)) << 1
  {
    hide AllOneUp, Append;
    AppendIs(c, d);
    AllOneUpIs((c << 5) | (d as bv40));
  }

  lemma UpAppended(c: bv40, d: Symbol)
    ensures Append(AllOneUp(c), OneUp(d)) == ((c << 1) << 5) | ((d << 1) as bv40)
  {
    hide AllOneUp, Append, OneUp;
    AllOneUpIs(c);
    OneUpIs(d);
    AppendIs(c << 1, d << 1);
  }

  lemma OneUpAppend(c: bv40, d: Symbol)
    requires d < 16
    ensures AllOneUp(Append(c, d)) == Append(AllOneUp(c), OneUp(d))
  {
    hide AllOneUp, Append, OneUp;
    AppendedUp(c, d);
    UpAppended(c, d);
    ShiftsCommute(c, d);
  }

  lemma CarriesAppend(c: bv40, d: Symbol)
    requires c < 0x8_0000_0000
    ensures Carries(c) < 0x8_0000_0000 && Carries(Append(c, d)) == Append(Carries(c), Carry(d))
  {
  }

  lemma CarriesUp(c: bv40, d: Symbol)
    requires c < 0x8_0000_0000
    ensures AllThreeUp(Carries(c)) < 0x8_0000_0000
    ensures AllThreeUp(Append(Carries(c), Carry(d))) == Append(AllThreeUp(Carries(c)), ThreeUp(Carry(d)))
  {
  }

  lemma AppendLinear(a: bv40, b: bv40, d: Symbol, e: Symbol)
    requires a < 0x8_0000_0000 && b < 0x8_0000_0000
    ensures Add(a, b) < 0x8_0000_0000 && Add(Append(a, d), Append(b, e)) == Append(Add(a, b), AddSymbol(d, e))
  {
  }

  lemma DoubleStateAppend(c: bv40, d: Symbol)
    requires c < 0x8_0000_0000
    ensures DoubleState(c) < 0x8_0000_0000
    ensures DoubleState(Append(c, d)) == Append(DoubleState(c), Double(d))
  {
    hide Add, AddSymbol, Append, Doubled, Carries, AllThreeUp, DoubledLow, Carry, ThreeUp;
    DoubledAppend(c, d);
    CarriesAppend(c, d);
    CarriesUp(c, d);
    AppendLinear(Doubled(c), Carries(c), DoubledLow(d), Carry(d));
    AppendLinear(Add(Doubled(c), Carries(c)), AllThreeUp(Carries(c)), AddSymbol(DoubledLow(d), Carry(d)),
      ThreeUp(Carry(d)));
  }

  lemma DoubledLinear(a: bv40, b: bv40)
    ensures Doubled(Add(a, b)) == Add(Doubled(a), Doubled(b))
  {
  }

  lemma CarriesLinear(a: bv40, b: bv40)
    ensures Carries(Add(a, b)) == Add(Carries(a), Carries(b))
  {
  }

  lemma ThreeUpLinear(a: bv40, b: bv40)
    ensures AllThreeUp(Add(a, b)) == Add(AllThreeUp(a), AllThreeUp(b))
  {
  }

  lemma DoubleStateLinear(a: bv40, b: bv40)
    ensures DoubleState(Add(a, b)) == Add(DoubleState(a), DoubleState(b))
  {
    hide Add, Doubled, Carries, AllThreeUp;
    DoubledLinear(a, b);
    CarriesLinear(a, b);
    ThreeUpLinear(Carries(a), Carries(b));
    AddSwap(Doubled(a), Doubled(b), Carries(a), Carries(b));
    AddSwap(Add(Doubled(a), Carries(a)), Add(Doubled(b), Carries(b)), AllThreeUp(Carries(a)), AllThreeUp(Carries(b)));
  }

  lemma DoubleShifted(c: bv40, d: Symbol)
    ensures DoubleState(Shifted(c, d)) == Shifted(DoubleState(c), Double(d))
    ensures Top(DoubleState(c)) == Double(Top(c))
  {
  }

  lemma DoubleBits(top: bv5)
    ensures Bit(Double(top), 0) == Bit(top, 4) && Bit(Double(top), 1) == Bit(top, 0)
    ensures Bit(Double(top), 2) == Bit(top, 1) && Bit(Double(top), 3) == (Bit(top, 2) != Bit(top, 4))
    ensures Bit(Double(top), 4) == Bit(top, 3)
  {
  }

  /** The generators are the multiples by x^i of the first; x^5 is x^3 + 1. */
  lemma GeneratorPowers()
    ensures DoubleState(Generator(0)) == Generator(1) && DoubleState(Generator(1)) == Generator(2)
    ensures DoubleState(Generator(2)) == Generator(3) && DoubleState(Generator(3)) == Generator(4)
    ensures DoubleState(Generator(4)) == Add(Generator(3), Generator(0)) && DoubleState(0) == 0
  {
  }

  lemma DoubleTap(bit: bool, i: nat)
    requires i < 5
    ensures DoubleState(Tap(bit, i)) == if i < 4 then Tap(bit, i + 1) else Add(Tap(bit, 3), Tap(bit, 0))
  {
    hide DoubleState, Generator, Add;
    GeneratorPowers();
    AddSelf(0);
    assert i == 0 || i == 1 || i == 2 || i == 3 || i == 4;
  }

  lemma Regroup(a: bv40, b: bv40, c: bv40, d: bv40, e: bv40, f: bv40)
    ensures Add(Add(Add(Add(a, b), c), d), Add(e, f)) == Add(Add(Add(Add(f, a), b), Add(c, e)), d)
  {
    hide Add;
    var x := Add(a, b);
    AddSwap(Add(x, c), d, e, f);
    AddAssoc(x, c, e);
    AddComm(d, f);
    AddAssoc(Add(x, Add(c, e)), f, d);
    AddSwap(x, Add(c, e), f, 0);
    AddSelf(f);
    AddSelf(Add(c, e));
    AddComm(x, f);
    AddAssoc(f, a, b);
  }

  lemma DoubleFeedback(top: bv5)
    ensures DoubleState(Feedback(top, 5)) == Feedback(Double(top), 5)
  {
    hide Add, Tap, Bit, Double, DoubleState, Feedback;
    FeedbackUnrolled(top);
    FeedbackUnrolled(Double(top));
    DoubleBits(top);
    var t0, t1, t2 := Tap(Bit(top, 0), 0), Tap(Bit(top, 1), 1), Tap(Bit(top, 2), 2);
    var t3, t4 := Tap(Bit(top, 3), 3), Tap(Bit(top, 4), 4);
    AddSelf(t0);
    DoubleStateLinear(t0, t1);
    DoubleStateLinear(Add(t0, t1), t2);
    DoubleStateLinear(Add(Add(t0, t1), t2), t3);
    DoubleStateLinear(Add(Add(Add(t0, t1), t2), t3), t4);
    DoubleTap(Bit(top, 0), 0);
    DoubleTap(Bit(top, 1), 1);
    DoubleTap(Bit(top, 2), 2);
    DoubleTap(Bit(top, 3), 3);
    DoubleTap(Bit(top, 4), 4);
    TapLinear(Bit(top, 2), Bit(top, 4), 3);
    AddSelf(Tap(Bit(top, 4), 0));
    Regroup(Tap(Bit(top, 0), 1), Tap(Bit(top, 1), 2), Tap(Bit(top, 2), 3), Tap(Bit(top, 3), 4),
      Tap(Bit(top, 4), 3), Tap(Bit(top, 4), 0));
  }

  /** Scaling a state scales the elements in it. */
  lemma {:induction false} DoubleTimesAppend(c: bv40, d: Symbol, n: nat)
    requires c < 0x8_0000_0000
    ensures DoubleStateTimes(c, n) < 0x8_0000_0000
    ensures DoubleStateTimes(Append(c, d), n) == Append(DoubleStateTimes(c, n), DoubleTimes(d, n))
  {
    hide Append, DoubleState, Double;
    if n != 0 {
      DoubleTimesAppend(c, d, n - 1);
      DoubleStateAppend(DoubleStateTimes(c, n - 1), DoubleTimes(d, n - 1));
    }
  }

  lemma AppendZero()
    ensures Append(0, 0) == 0
  {
  }

  lemma {:induction false} ScaleTimesAppend(a: Symbol, c: bv40, d: Symbol, n: nat)
    requires c < 0x8_0000_0000
    ensures ScaleTimes(a, c, n) < 0x8_0000_0000
    ensures ScaleTimes(a, Append(c, d), n) == Append(ScaleTimes(a, c, n), Times(a, d, n))
  {
    hide Append, Add, AddSymbol, Bit, DoubleStateTimes, DoubleTimes;
    AppendZero();
    if n != 0 {
      ScaleTimesAppend(a, c, d, n - 1);
      DoubleTimesAppend(c, d, n - 1);
      var bit := Bit(a, n - 1);
      var x, y := if bit then DoubleStateTimes(c, n - 1) else 0, if bit then DoubleTimes(d, n - 1) else 0;
      AppendLinear(ScaleTimes(a, c, n - 1), x, Times(a, d, n - 1), y);
    }
  }

  lemma {:induction false} DoubleZero(n: nat)
    ensures DoubleStateTimes(0, n) == 0
  {
    hide DoubleState;
    if n != 0 {
      DoubleZero(n - 1);
      GeneratorPowers();
    }
  }

  lemma {:induction false} ScaleZero(a: Symbol, n: nat)
    ensures ScaleTimes(a, 0, n) == 0
  {
    hide Add, Bit, DoubleStateTimes;
    AddSelf(0);
    if n != 0 {
      ScaleZero(a, n - 1);
      DoubleZero(n - 1);
    }
  }

  lemma {:induction false} ScalePacked(a: Symbol, s: seq<Symbol>)
    requires |s| <= 8
    ensures Scale(a, Pack(s)) == Pack(MultiplyAll(a, s))
  {
    hide Append, PackedBelow, ScaleTimes, Times;
    if s == [] {
      ScaleZero(a, 5);
    } else {
      var n := |s| - 1;
      ScalePacked(a, s[..n]);
      RunPacks(s[..n]);
      AppendBelow(Pack(s[..n]), s[n], n);
      ScaleTimesAppend(a, Pack(s[..n]), s[n], 5);
      assert MultiplyAll(a, s)[..n] == MultiplyAll(a, s[..n]);
    }
  }

  // ----- the code is linear over the field -----

  lemma StepDoubles(c: bv40, d: Symbol)
    ensures Step(DoubleState(c), Double(d)) == DoubleState(Step(c, d))
  {
    hide Shifted, Feedback, Top, Add, DoubleState, Double;
    DoubleShifted(c, d);
    DoubleFeedback(Top(c));
    DoubleStateLinear(Shifted(c, d), Feedback(Top(c), 5));
  }

  lemma {:induction false} StepDoublesTimes(c: bv40, d: Symbol, n: nat)
    ensures Step(DoubleStateTimes(c, n), DoubleTimes(d, n)) == DoubleStateTimes(Step(c, d), n)
  {
    hide Step, DoubleState, Double;
    if n != 0 {
      StepDoublesTimes(c, d, n - 1);
      StepDoubles(DoubleStateTimes(c, n - 1), DoubleTimes(d, n - 1));
    }
  }

  lemma StepNothing()
    ensures Step(0, 0) == 0
  {
    StepLow(0, 0);
    AppendZero();
  }

  lemma {:induction false} StepScales(a: Symbol, c: bv40, d: Symbol, n: nat)
    ensures Step(ScaleTimes(a, c, n), Times(a, d, n)) == ScaleTimes(a, Step(c, d), n)
  {
    hide Step, Add, AddSymbol, Bit, DoubleStateTimes, DoubleTimes;
    StepNothing();
    if n != 0 {
      StepScales(a, c, d, n - 1);
      StepDoublesTimes(c, d, n - 1);
      var bit := Bit(a, n - 1);
      var x, y := if bit then DoubleStateTimes(c, n - 1) else 0, if bit then DoubleTimes(d, n - 1) else 0;
      StepLinear(ScaleTimes(a, c, n - 1), x, Times(a, d, n - 1), y);
    }
  }

  /** Multiplying start and data by an element of the field multiplies the checksum. */
  lemma {:induction false} RunScales(a: Symbol, c: bv40, data: seq<Symbol>)
    ensures Run(Scale(a, c), MultiplyAll(a, data)) == Scale(a, Run(c, data))
  {
    hide Step, ScaleTimes, Times;
    if data != [] {
      var n := |data| - 1;
      RunScales(a, c, data[..n]);
      assert MultiplyAll(a, data)[..n] == MultiplyAll(a, data[..n]);
      StepScales(a, Run(c, data[..n]), data[n], 5);
    }
  }

  // ----- the generator polynomial -----

  /** Below x^8, highest first. */
  const COEFFICIENTS: seq<Symbol> := [19, 3, 25, 11, 25, 3, 19, 1]

  lemma PackedCoefficients()
    ensures |COEFFICIENTS| == 8 && Pack(COEFFICIENTS) == Generator(0)
  {
    var s := COEFFICIENTS;
    assert s[..8] == s;
    PackNext(s, 0, 0, 0x13);
    PackNext(s, 1, 0x13, 0x263);
    PackNext(s, 2, 0x263, 0x4c79);
    PackNext(s, 3, 0x4c79, 0x9_8f2b);
    PackNext(s, 4, 0x9_8f2b, 0x131_e579);
    PackNext(s, 5, 0x131_e579, 0x263c_af23);
    PackNext(s, 6, 0x263c_af23, 0x4_c795_e473);
    PackNext(s, 7, 0x4_c795_e473, 0x98_f2bc_8e61);
  }

  lemma PackNext(s: seq<Symbol>, k: nat, c: bv40, c': bv40)
    requires k < |s| && Pack(s[..k]) == c && Append(c, s[k]) == c'
    ensures Pack(s[..k + 1]) == c'
  {
    assert s[..k + 1][..k] == s[..k];
  }

  /** What is put back for the element shifted out is its multiple of the generator
      polynomial, so that a step is a step of the division by it. */
  lemma StepDivides(c: bv40, d: Symbol)
    ensures Step(c, d) == Add(Shifted(c, d), Scale(Top(c), Pack(COEFFICIENTS)))
  {
    hide Shifted, Top, Add, Pack, Generator, Feedback, ScaleTimes, DoubleState, COEFFICIENTS;
    PackedCoefficients();
    FeedbackIsMultiple(Top(c), 5);
  }

  lemma {:induction false} FeedbackIsMultiple(top: bv5, n: nat)
    requires n <= 5
    ensures Feedback(top, n) == ScaleTimes(top, Generator(0), n)
  {
    hide Add, Bit, Generator, DoubleStateTimes;
    if n != 0 {
      FeedbackIsMultiple(top, n - 1);
      GeneratorIsPower(n - 1);
    }
  }

  lemma {:induction false} GeneratorIsPower(n: nat)
    requires n < 5
    ensures DoubleStateTimes(Generator(0), n) == Generator(n)
  {
    hide DoubleState;
    GeneratorPowers();
    if n != 0 {
      GeneratorIsPower(n - 1);
    }
  }

  /** x^8 leaves the rest of the generator polynomial. */
  lemma GeneratorRest()
    ensures Run(0, [1] + Zeros(8)) == Pack(COEFFICIENTS)
  {
    var data: seq<Symbol> := [1] + Zeros(8);
    assert data[..9] == data;
    RunNext(0, data, 0, 0, 1);
    RunNext(0, data, 1, 1, 0x20);
    RunNext(0, data, 2, 0x20, 0x400);
    RunNext(0, data, 3, 0x400, 0x8000);
    RunNext(0, data, 4, 0x8000, 0x10_0000);
    RunNext(0, data, 5, 0x10_0000, 0x200_0000);
    RunNext(0, data, 6, 0x200_0000, 0x4000_0000);
    RunNext(0, data, 7, 0x4000_0000, 0x8_0000_0000);
    RunNext(0, data, 8, 0x8_0000_0000, 0x98_f2bc_8e61);
    PackedCoefficients();
  }

  lemma RunNext(start: bv40, data: seq<Symbol>, k: nat, c: bv40, c': bv40)
    requires k < |data| && Run(start, data[..k]) == c && Step(c, data[k]) == c'
    ensures Run(start, data[..k + 1]) == c'
  {
    hide Step;
    assert data[..k + 1][..k] == data[..k];
  }

  // ----- a published address -----

  /** bitcoincash:qpm2qsznhks23z7629mms6s4cwef74vcwvy22gdx6a, what follows the prefix */
  const FIRST_SYMBOLS: seq<Symbol> := [0, 1, 27, 10, 0, 16, 2, 19, 23, 22, 16, 10, 17, 2]
  const MIDDLE_SYMBOLS: seq<Symbol> := [30, 26, 10, 5, 27, 27, 16, 26, 16, 21, 24, 14, 25, 9]
  const LAST_SYMBOLS: seq<Symbol> := [30, 21, 12, 24, 14, 12, 4, 10, 10, 8, 13, 6, 26, 29]

  /** A step, written out. */
  function PlainStep(c: bv40, d: Symbol): bv40 {
    var two := Add(Add(0, Tap(c & 0x8_0000_0000 != 0, 0)), Tap(c & 0x10_0000_0000 != 0, 1));
    var four := Add(Add(two, Tap(c & 0x20_0000_0000 != 0, 2)), Tap(c & 0x40_0000_0000 != 0, 3));
    Add(Shifted(c, d), Add(four, Tap(c & 0x80_0000_0000 != 0, 4)))
  }

  lemma TopBits(c: bv40)
    ensures Bit(Top(c), 0) == (c & 0x8_0000_0000 != 0) && Bit(Top(c), 1) == (c & 0x10_0000_0000 != 0)
    ensures Bit(Top(c), 2) == (c & 0x20_0000_0000 != 0) && Bit(Top(c), 3) == (c & 0x40_0000_0000 != 0)
    ensures Bit(Top(c), 4) == (c & 0x80_0000_0000 != 0)
  {
  }

  lemma PlainStepIsStep(c: bv40, d: Symbol)
    ensures PlainStep(c, d) == Step(c, d)
  {
    hide Add, Tap, Bit, Top, Shifted, Feedback;
    TopBits(c);
    FeedbackUnrolled(Top(c));
  }

  lemma RunPlain(start: bv40, data: seq<Symbol>, k: nat, c: bv40, c': bv40)
    requires k < |data| && Run(start, data[..k]) == c && PlainStep(c, data[k]) == c'
    ensures Run(start, data[..k + 1]) == c'
  {
    hide Step, PlainStep;
    PlainStepIsStep(c, data[k]);
    RunNext(start, data, k, c, c');
  }

  lemma RunNothing(start: bv40, data: seq<Symbol>)
    ensures Run(start, data[..0]) == start
  {
    assert data[..0] == [];
  }

  /** bitcoincash and the separator */
  const PREFIX_SYMBOLS: seq<Symbol> := [2, 9, 20, 3, 15, 9, 14, 3, 1, 19, 8, 0]

  lemma PrefixText()
    ensures PrefixData("bitcoincash") == PREFIX_SYMBOLS
  {
    var text := "bitcoincash";
    PrefixSymbol(text, 0, 2);
    PrefixSymbol(text, 1, 9);
    PrefixSymbol(text, 2, 20);
    PrefixSymbol(text, 3, 3);
    PrefixSymbol(text, 4, 15);
    PrefixSymbol(text, 5, 9);
    PrefixSymbol(text, 6, 14);
    PrefixSymbol(text, 7, 3);
    PrefixSymbol(text, 8, 1);
    PrefixSymbol(text, 9, 19);
    PrefixSymbol(text, 10, 8);
    assert PrefixData(text) == PREFIX_SYMBOLS;
  }

  lemma PrefixSymbol(text: string, k: nat, d: Symbol)
    requires k < |text| && (text[k] as int) % 32 == SymbolNumber(d)
    ensures PrefixData(text)[k] == d
  {
    hide SymbolOf, SymbolNumber;
    SymbolOfNumber(d);
  }

  lemma PrefixPart()
    ensures Run(1, PREFIX_SYMBOLS) == 0xf6_69cd_6d15
  {
    hide Run, Step;
    var data := PREFIX_SYMBOLS;
    assert data[..12] == data;
    RunNothing(1, data);
    RunPlain(1, data, 0, 0x1, 0x22);
    RunPlain(1, data, 1, 0x22, 0x449);
    RunPlain(1, data, 2, 0x449, 0x8934);
    RunPlain(1, data, 3, 0x8934, 0x11_2683);
    RunPlain(1, data, 4, 0x11_2683, 0x224_d06f);
    RunPlain(1, data, 5, 0x224_d06f, 0x449a_0de9);
    RunPlain(1, data, 6, 0x449a_0de9, 0x8_9341_bd2e);
    RunPlain(1, data, 7, 0x8_9341_bd2e, 0x8a_9a8b_2ba2);
    RunPlain(1, data, 8, 0x8a_9a8b_2ba2, 0xd5_ec9a_1e50);
    RunPlain(1, data, 9, 0xd5_ec9a_1e50, 0x74_45c6_5529);
    RunPlain(1, data, 10, 0x74_45c6_5529, 0xac_1f53_6da6);
    RunPlain(1, data, 11, 0xac_1f53_6da6, 0xf6_69cd_6d15);
  }

  lemma FirstPart()
    ensures Run(0xf6_69cd_6d15, FIRST_SYMBOLS) == 0x43_e32a_9e98
  {
    hide Run, Step;
    var data := FIRST_SYMBOLS;
    assert data[..14] == data;
    RunNothing(0xf6_69cd_6d15, data);
    RunPlain(0xf6_69cd_6d15, data, 0, 0xf6_69cd_6d15, 0xf7_d177_8e5e);
    RunPlain(0xf6_69cd_6d15, data, 1, 0xf7_d177_8e5e, 0xc0_c62b_e73f);
    RunPlain(0xf6_69cd_6d15, data, 2, 0xc0_c62b_e73f, 0xa8_a494_e123);
    RunPlain(0xf6_69cd_6d15, data, 3, 0xa8_a494_e123, 0x61_113c_fdbf);
    RunPlain(0xf6_69cd_6d15, data, 4, 0x61_113c_fdbf, 0x7f_376b_e68c);
    RunPlain(0xf6_69cd_6d15, data, 5, 0x7f_376b_e68c, 0x5a_b859_977f);
    RunPlain(0xf6_69cd_6d15, data, 6, 0x5a_b859_977f, 0x18_6048_1ac9);
    RunPlain(0xf6_69cd_6d15, data, 7, 0x18_6048_1ac9, 0xed_4cd2_4eb0);
    RunPlain(0xf6_69cd_6d15, data, 8, 0xed_4cd2_4eb0, 0x72_3742_ed6a);
    RunPlain(0xf6_69cd_6d15, data, 9, 0x72_3742_ed6a, 0x62_4fc4_65d8);
    RunPlain(0xf6_69cd_6d15, data, 10, 0x62_4fc4_65d8, 0x14_e878_ea7c);
    RunPlain(0xf6_69cd_6d15, data, 11, 0x14_e878_ea7c, 0xe4_b870_d668);
    RunPlain(0xf6_69cd_6d15, data, 12, 0xe4_b870_d668, 0xd4_51ad_780d);
    RunPlain(0xf6_69cd_6d15, data, 13, 0xd4_51ad_780d, 0x43_e32a_9e98);
  }

  lemma MiddlePart()
    ensures Run(0x43_e32a_9e98, MIDDLE_SYMBOLS) == 0x53_2a42_2ef8
  {
    hide Run, Step;
    var data := MIDDLE_SYMBOLS;
    assert data[..14] == data;
    RunNothing(0x43_e32a_9e98, data);
    RunPlain(0x43_e32a_9e98, data, 0, 0x43_e32a_9e98, 0xd2_4bf8_31b6);
    RunPlain(0x43_e32a_9e98, data, 1, 0xd2_4bf8_31b6, 0x80_a983_a9e0);
    RunPlain(0x43_e32a_9e98, data, 2, 0x80_a983_a9e0, 0xb_7f36_d87a);
    RunPlain(0x43_e32a_9e98, data, 3, 0xb_7f36_d87a, 0xf7_1467_8124);
    RunPlain(0x43_e32a_9e98, data, 4, 0xf7_1467_8124, 0xd8_642a_0865);
    RunPlain(0x43_e32a_9e98, data, 5, 0xd8_642a_0865, 0x5d_a178_1de0);
    RunPlain(0x43_e32a_9e98, data, 6, 0x5d_a178_1de0, 0xfb_4479_493b);
    RunPlain(0x43_e32a_9e98, data, 7, 0xfb_4479_493b, 0xca_954f_85e5);
    RunPlain(0x43_e32a_9e98, data, 8, 0xca_954f_85e5, 0x7a_3aa4_3409);
    RunPlain(0x43_e32a_9e98, data, 9, 0x7a_3aa4_3409, 0xfb_01a3_c7da);
    RunPlain(0x43_e32a_9e98, data, 10, 0xfb_01a3_c7da, 0xc2_2e1e_59c7);
    RunPlain(0x43_e32a_9e98, data, 11, 0xc2_2e1e_59c7, 0xf5_a223_3e36);
    RunPlain(0x43_e32a_9e98, data, 12, 0xf5_a223_3e36, 0x8e_acbd_ea27);
    RunPlain(0x43_e32a_9e98, data, 13, 0x8e_acbd_ea27, 0x53_2a42_2ef8);
  }

  lemma LastPart()
    ensures Run(0x53_2a42_2ef8, LAST_SYMBOLS) == 0x1
  {
    hide Run, Step;
    var data := LAST_SYMBOLS;
    assert data[..14] == data;
    RunNothing(0x53_2a42_2ef8, data);
    RunPlain(0x53_2a42_2ef8, data, 0, 0x53_2a42_2ef8, 0xb2_d183_a454);
    RunPlain(0x53_2a42_2ef8, data, 1, 0xb2_d183_a454, 0xce_f605_44c3);
    RunPlain(0x53_2a42_2ef8, data, 2, 0xce_f605_44c3, 0xf6_53fc_10d5);
    RunPlain(0x53_2a42_2ef8, data, 3, 0xf6_53fc_10d5, 0xf0_9758_3646);
    RunPlain(0x53_2a42_2ef8, data, 4, 0xf0_9758_3646, 0x28_03dc_e430);
    RunPlain(0x53_2a42_2ef8, data, 5, 0x28_03dc_e430, 0x6b_b77f_bba9);
    RunPlain(0x53_2a42_2ef8, data, 6, 0x6b_b77f_bba9, 0xb3_0dbf_aa29);
    RunPlain(0x53_2a42_2ef8, data, 7, 0xb3_0dbf_aa29, 0xf5_7184_8b7c);
    RunPlain(0x53_2a42_2ef8, data, 8, 0xf5_7184_8b7c, 0x94_d84b_4374);
    RunPlain(0x53_2a42_2ef8, data, 9, 0x94_d84b_4374, 0xfc_f146_131a);
    RunPlain(0x53_2a42_2ef8, data, 10, 0xfc_f146_131a, 0x3c_32a4_c1d2);
    RunPlain(0x53_2a42_2ef8, data, 11, 0x3c_32a4_c1d2, 0x94_2f16_9e01);
    RunPlain(0x53_2a42_2ef8, data, 12, 0x94_2f16_9e01, 0xe2_1afd_bda8);
    RunPlain(0x53_2a42_2ef8, data, 13, 0xe2_1afd_bda8, 0x1);
  }

  /** Its checksum: what the code starts with, what it ends in, the separator and the bits of
      the prefix are those of the specification. */
  lemma PublishedAddressAccepted()
    ensures Accepts("bitcoincash", FIRST_SYMBOLS + MIDDLE_SYMBOLS + LAST_SYMBOLS)
  {
    hide Run, PrefixData, PREFIX_SYMBOLS, FIRST_SYMBOLS, MIDDLE_SYMBOLS, LAST_SYMBOLS;
    PrefixText();
    PrefixPart();
    FirstPart();
    MiddlePart();
    LastPart();
    var prefix := PrefixData("bitcoincash");
    RunConcat(1, prefix, FIRST_SYMBOLS + MIDDLE_SYMBOLS + LAST_SYMBOLS);
    RunConcat(0xf6_69cd_6d15, FIRST_SYMBOLS + MIDDLE_SYMBOLS, LAST_SYMBOLS);
    RunConcat(0xf6_69cd_6d15, FIRST_SYMBOLS, MIDDLE_SYMBOLS);
    AddSelf(1);
  }
}
