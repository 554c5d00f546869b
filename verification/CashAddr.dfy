/** The CashAddr checksum: the 40-bit code of the CashAddr specification, section
    "Checksum", computed with a word of 8 and a word of 32 bits. */
module CashAddr {
  import opened JsNumber

  /** Five bits of address data. */
  type Symbol = bv5

  // ----- the 40-bit code -----

  /** The generator xored in for bit i of the five bits shifted out. */
  function Generator(i: nat): bv40 {
    match i
    case 0 => 0x98f2bc8e61
    case 1 => 0x79b76d99e2
    case 2 => 0xf33e5fb3c4
    case 3 => 0xae2eabe2a8
    case _ => 0x1e4f43e470
  }

  /** What one of the five bits shifted out puts back. */
  function Tap(bit: bool, i: nat): bv40 {
    if bit then Generator(i) else 0
  }

  /** Addition of polynomials over GF(2). */
  function Add(a: bv40, b: bv40): bv40 {
    a ^ b
  }

  function AddSymbol(d: Symbol, e: Symbol): Symbol {
    d ^ e
  }

  predicate Bit(top: bv5, i: nat) {
    match i
    case 0 => top & 1 != 0
    case 1 => top & 2 != 0
    case 2 => top & 4 != 0
    case 3 => top & 8 != 0
    case _ => top & 16 != 0
  }

  /** The generators put back for the lowest n of the bits shifted out. */
  function Feedback(top: bv5, n: nat): bv40 {
    if n == 0 then 0 else Add(Feedback(top, n - 1), Tap(Bit(top, n - 1), n - 1))
  }

  function Shifted(c: bv40, d: Symbol): bv40 {
    ((c & 0x7_ffff_ffff) << 5) ^ (d as bv40)
  }

  function Top(c: bv40): bv5 {
    (c >> 35) as bv5
  }

  function Step(c: bv40, d: Symbol): bv40 {
    Add(Shifted(c, d), Feedback(Top(c), 5))
  }

  function Run(c: bv40, data: seq<Symbol>): bv40 {
    if data == [] then c else Step(Run(c, data[..|data| - 1]), data[|data| - 1])
  }

  function PolyMod(data: seq<Symbol>): bv40 {
    Add(Run(1, data), 1)
  }

  // ----- linearity -----

  lemma AddAssoc(a: bv40, b: bv40, c: bv40)
    ensures Add(Add(a, b), c) == Add(a, Add(b, c))
  {
  }

  lemma AddComm(a: bv40, b: bv40)
    ensures Add(a, b) == Add(b, a)
  {
  }

  lemma AddSwap(a: bv40, b: bv40, c: bv40, d: bv40)
    ensures Add(Add(a, b), Add(c, d)) == Add(Add(a, c), Add(b, d))
  {
    hide Add;
    AddAssoc(a, b, Add(c, d));
    AddAssoc(b, c, d);
    AddComm(b, c);
    AddAssoc(c, b, d);
    AddAssoc(a, c, Add(b, d));
  }

  lemma TapLinear(p: bool, q: bool, i: nat)
    ensures Tap(p != q, i) == Add(Tap(p, i), Tap(q, i))
  {
    hide Generator, Add;
    AddSelf(Generator(i));
    AddSelf(0);
  }

  lemma {:induction false} FeedbackLinear(a: bv5, b: bv5, n: nat)
    ensures Feedback(AddSymbol(a, b), n) == Add(Feedback(a, n), Feedback(b, n))
  {
    hide Tap, Bit, Add, AddSymbol;
    if n == 0 {
      AddSelf(0);
    } else {
      FeedbackLinear(a, b, n - 1);
      BitOfSum(a, b, n - 1);
      var p, q := Bit(a, n - 1), Bit(b, n - 1);
      TapLinear(p, q, n - 1);
      AddSwap(Feedback(a, n - 1), Feedback(b, n - 1), Tap(p, n - 1), Tap(q, n - 1));
    }
  }

  lemma BitOfSum(a: bv5, b: bv5, i: nat)
    ensures Bit(AddSymbol(a, b), i) == (Bit(a, i) != Bit(b, i))
  {
  }

  lemma ShiftedLinear(a: bv40, b: bv40, d: Symbol, e: Symbol)
    ensures Shifted(Add(a, b), AddSymbol(d, e)) == Add(Shifted(a, d), Shifted(b, e))
    ensures Top(Add(a, b)) == AddSymbol(Top(a), Top(b))
  {
  }

  lemma StepLinear(a: bv40, b: bv40, d: Symbol, e: Symbol)
    ensures Step(Add(a, b), AddSymbol(d, e)) == Add(Step(a, d), Step(b, e))
  {
    hide Shifted, Feedback, Top, Add, AddSymbol;
    ShiftedLinear(a, b, d, e);
    FeedbackLinear(Top(a), Top(b), 5);
    AddSwap(Shifted(a, d), Shifted(b, e), Feedback(Top(a), 5), Feedback(Top(b), 5));
  }

  lemma ZeroStepInjective(c: bv40)
    ensures Step(c, 0) == 0 ==> c == 0
  {
    FeedbackUnrolled(Top(c));
  }

  lemma FeedbackUnrolled(top: bv5)
    ensures var two := Add(Add(0, Tap(Bit(top, 0), 0)), Tap(Bit(top, 1), 1));
      Feedback(top, 5) == Add(Add(Add(two, Tap(Bit(top, 2), 2)), Tap(Bit(top, 3), 3)), Tap(Bit(top, 4), 4))
  {
    hide Add, Tap, Bit;
    assert Feedback(top, 1) == Add(0, Tap(Bit(top, 0), 0));
    assert Feedback(top, 2) == Add(Add(0, Tap(Bit(top, 0), 0)), Tap(Bit(top, 1), 1));
    assert Feedback(top, 4) == Add(Add(Feedback(top, 2), Tap(Bit(top, 2), 2)), Tap(Bit(top, 3), 3));
  }

  function Sum(x: seq<Symbol>, y: seq<Symbol>): (r: seq<Symbol>)
    requires |x| == |y|
    ensures |r| == |x|
  {
    seq(|x|, i requires 0 <= i < |x| => AddSymbol(x[i], y[i]))
  }

  lemma {:induction false} RunLinear(a: bv40, b: bv40, x: seq<Symbol>, y: seq<Symbol>)
    requires |x| == |y|
    ensures Run(Add(a, b), Sum(x, y)) == Add(Run(a, x), Run(b, y))
  {
    hide Step, Add, AddSymbol;
    if x != [] {
      var n := |x| - 1;
      assert Sum(x, y)[..n] == Sum(x[..n], y[..n]);
      RunLinear(a, b, x[..n], y[..n]);
      StepLinear(Run(a, x[..n]), Run(b, y[..n]), x[n], y[n]);
    }
  }

  lemma {:induction false} RunConcat(c: bv40, x: seq<Symbol>, y: seq<Symbol>)
    ensures Run(c, x + y) == Run(Run(c, x), y)
  {
    if y == [] {
      assert x + y == x;
    } else {
      var n := |y| - 1;
      assert (x + y)[..|x + y| - 1] == x + y[..n];
      RunConcat(c, x, y[..n]);
    }
  }

  function Zeros(n: nat): (r: seq<Symbol>)
    ensures |r| == n
  {
    seq(n, _ => 0)
  }

  lemma {:induction false} RunZeros(c: bv40, n: nat)
    ensures Run(c, Zeros(n)) == 0 <==> c == 0
  {
    if n != 0 {
      assert Zeros(n)[..n - 1] == Zeros(n - 1);
      RunZeros(c, n - 1);
      ZeroStepInjective(Run(c, Zeros(n - 1)));
    }
  }

  // ----- eight symbols fill the 40 bits -----

  function Append(c: bv40, d: Symbol): bv40 {
    (c << 5) | (d as bv40)
  }

  /** As long as nothing is shifted out, symbols are just appended. */
  lemma StepLow(c: bv40, d: Symbol)
    requires c < 0x8_0000_0000
    ensures Step(c, d) == Append(c, d)
  {
    hide Feedback;
    NoFeedback(5);
    assert Top(c) == 0;
  }

  lemma {:induction false} NoFeedback(n: nat)
    ensures Feedback(0, n) == 0
  {
    if n != 0 {
      NoFeedback(n - 1);
    }
  }

  function Pack(s: seq<Symbol>): bv40 {
    if s == [] then 0 else Append(Pack(s[..|s| - 1]), s[|s| - 1])
  }

  /** From a clear state, up to eight symbols are just packed. */
  lemma {:induction false} RunPacks(s: seq<Symbol>)
    requires |s| <= 8
    ensures Run(0, s) == Pack(s) && PackedBelow(Pack(s), |s|)
  {
    if s != [] {
      var s' := s[..|s| - 1];
      RunPacks(s');
      AppendBelow(Pack(s'), s[|s| - 1], |s'|);
      StepLow(Pack(s'), s[|s| - 1]);
    }
  }

  /** c < 2^(5n) */
  predicate PackedBelow(c: bv40, n: nat) {
    match n
    case 0 => c == 0
    case 1 => c < 0x20
    case 2 => c < 0x400
    case 3 => c < 0x8000
    case 4 => c < 0x10_0000
    case 5 => c < 0x200_0000
    case 6 => c < 0x4000_0000
    case 7 => c < 0x8_0000_0000
    case _ => true
  }

  lemma AppendBelow(c: bv40, d: Symbol, n: nat)
    requires PackedBelow(c, n) && n < 8
    ensures c < 0x8_0000_0000 && PackedBelow(Append(c, d), n + 1)
    ensures Append(c, d) == 0 ==> c == 0 && d == 0
  {
  }

  // ----- the number and its base-32 digits -----

  /** The number a bit pattern stands for. (Hidden in proofs that also reason about bits.) */
  function Number(c: bv40): nat {
    c as int
  }

  function SymbolNumber(d: Symbol): (r: nat)
    ensures r < 32
  {
    d as int
  }

  lemma ConcatNumber(hi: bv35, d: Symbol)
    ensures Number(((hi as bv40) << 5) | (d as bv40)) == 32 * Number(hi as bv40) + SymbolNumber(d)
  {
  }

  lemma NarrowAndWiden(c: bv40)
    requires c < 0x8_0000_0000
    ensures (c as bv35) as bv40 == c
  {
  }

  lemma AppendNumber(c: bv40, d: Symbol)
    requires c < 0x8_0000_0000
    ensures Number(Append(c, d)) == 32 * Number(c) + SymbolNumber(d)
  {
    hide Number, SymbolNumber, Append;
    NarrowAndWiden(c);
    AppendConcat(c as bv35, d);
  }

  lemma AppendConcat(hi: bv35, d: Symbol)
    ensures Number(Append(hi as bv40, d)) == 32 * Number(hi as bv40) + SymbolNumber(d)
  {
    hide Number, SymbolNumber;
    ConcatNumber(hi, d);
  }

  lemma DropSymbol(c: bv40, n: nat)
    requires PackedBelow(c, n) && 0 < n <= 8
    ensures PackedBelow(High(c), n - 1)
  {
  }

  function High(c: bv40): bv40 {
    c >> 5
  }

  function Low(c: bv40): Symbol {
    (c & 31) as bv5
  }

  lemma SplitParts(c: bv40)
    ensures High(c) < 0x8_0000_0000 && c == Append(High(c), Low(c))
  {
  }

  lemma SplitSymbol(c: bv40)
    ensures c == Append(High(c), Low(c))
    ensures Number(High(c)) == Number(c) / 32 && SymbolNumber(Low(c)) == Number(c) % 32
  {
    hide High, Low, Append, Number, SymbolNumber;
    SplitParts(c);
    AppendNumber(High(c), Low(c));
  }

  function SymbolOf(d: nat): Symbol
    requires d < 32
  {
    d as bv5
  }

  lemma SymbolOfNumber(d: Symbol)
    ensures SymbolOf(SymbolNumber(d)) == d
  {
  }

  /** The n lowest base-32 digits, highest first. */
  function Base32(x: nat, n: nat): (r: seq<Symbol>)
    ensures |r| == n
  {
    if n == 0 then [] else Base32(x / 32, n - 1) + [SymbolOf(x % 32)]
  }

  lemma {:induction false} PackBase32(c: bv40, n: nat)
    requires PackedBelow(c, n) && n <= 8
    ensures Pack(Base32(Number(c), n)) == c
    decreases n
  {
    hide High, Low, Append, PackedBelow, Number, SymbolNumber, SymbolOf;
    if n == 0 {
      NothingBelow(c);
    } else {
      SplitSymbol(c);
      DropSymbol(c, n);
      PackBase32(High(c), n - 1);
      SymbolOfNumber(Low(c));
      var s := Base32(Number(c), n);
      assert s[..n - 1] == Base32(Number(c) / 32, n - 1);
    }
  }

  lemma NothingBelow(c: bv40)
    requires PackedBelow(c, 0)
    ensures c == 0
  {
  }

  // ----- what the checksum guarantees -----

  lemma AddSelf(a: bv40)
    ensures Add(a, a) == 0 && Add(0, a) == a && Add(a, 0) == a
  {
  }

  lemma AddZero(a: bv40, b: bv40)
    ensures Add(a, b) == 0 <==> a == b
  {
    hide Add;
    AddSelf(b);
    AddSelf(a);
    AddAssoc(a, b, b);
  }

  lemma ZeroSum(d: Symbol)
    ensures AddSymbol(d, 0) == d && AddSymbol(d, d) == 0 && AddSymbol(0, d) == d
  {
  }

  /** Two states that differ stay different over the same data. */
  lemma RunInjective(a: bv40, b: bv40, data: seq<Symbol>)
    ensures Run(a, data) == Run(b, data) <==> a == b
  {
    hide Add, AddSymbol, Step;
    RunLinear(a, b, data, data);
    forall i | 0 <= i < |data|
      ensures Sum(data, data)[i] == 0
    {
      ZeroSum(data[i]);
    }
    assert Sum(data, data) == Zeros(|data|);
    RunZeros(Add(a, b), |data|);
    AddZero(Run(a, data), Run(b, data));
    AddZero(a, b);
  }

  /** A valid string stays valid when its last eight symbols get the sum of themselves and
      the packed state added: the computed checksum is accepted, for every data. */
  lemma ChecksumAccepted(data: seq<Symbol>)
    ensures PolyMod(data + Base32(Number(PolyMod(data + Zeros(8))), 8)) == 0
  {
    hide Add, AddSymbol, Step, Pack, Number;
    var c := PolyMod(data + Zeros(8));
    var tail := Base32(Number(c), 8);
    PackBase32(c, 8);
    RunPacks(tail);
    RunConcat(1, data, Zeros(8));
    RunConcat(1, data, tail);
    var a := Run(1, data);
    RunLinear(a, 0, Zeros(8), tail);
    AddSelf(a);
    forall i | 0 <= i < 8
      ensures Sum(Zeros(8), tail)[i] == tail[i]
    {
      ZeroSum(tail[i]);
    }
    assert Sum(Zeros(8), tail) == tail;
    // Run(1, data + tail) == Run(1, data + zeros) + c == 1
    var z := Run(a, Zeros(8));
    AddAssoc(z, z, 1);
    AddSelf(z);
    AddSelf(1);
  }

  lemma {:induction false} PackZero(s: seq<Symbol>)
    requires |s| <= 8 && Pack(s) == 0
    ensures s == Zeros(|s|)
  {
    hide Append, PackedBelow;
    if s != [] {
      var s' := s[..|s| - 1];
      RunPacks(s');
      AppendBelow(Pack(s'), s[|s| - 1], |s'|);
      PackZero(s');
    }
  }

  /** Any change confined to eight consecutive symbols changes the checksum, whatever the
      length of the string: a valid string becomes invalid. */
  lemma BurstDetected(x: seq<Symbol>, y: seq<Symbol>, p: nat, k: nat)
    requires |x| == |y| && k <= 8 && p + k <= |x|
    requires x[..p] == y[..p] && x[p + k..] == y[p + k..]
    ensures PolyMod(x) == PolyMod(y) <==> x == y
  {
    hide Add, AddSymbol, Step, Pack, PackedBelow;
    assert x == x[..p] + x[p..p + k] + x[p + k..];
    assert y == x[..p] + y[p..p + k] + x[p + k..];
    var a, u, v, rest := Run(1, x[..p]), x[p..p + k], y[p..p + k], x[p + k..];
    RunConcat(1, x[..p] + u, rest);
    RunConcat(1, x[..p], u);
    RunConcat(1, x[..p] + v, rest);
    RunConcat(1, x[..p], v);
    RunInjective(Run(a, u), Run(a, v), rest);
    AddOne(Run(1, x), Run(1, y));
    WindowInjective(a, u, v);
  }

  lemma AddOne(a: bv40, b: bv40)
    ensures Add(a, 1) == Add(b, 1) <==> a == b
  {
    hide Add;
    AddAssoc(a, 1, 1);
    AddAssoc(b, 1, 1);
    AddSelf(1);
    AddSelf(a);
    AddSelf(b);
  }

  /** Different windows of up to eight symbols lead to different states. */
  lemma WindowInjective(a: bv40, u: seq<Symbol>, v: seq<Symbol>)
    requires |u| == |v| <= 8
    ensures Run(a, u) == Run(a, v) <==> u == v
  {
    hide Add, AddSymbol, Step, Pack, PackedBelow;
    RunLinear(a, a, u, v);
    AddZero(a, a);
    AddZero(Run(a, u), Run(a, v));
    RunPacks(Sum(u, v));
    if Run(a, u) == Run(a, v) {
      PackZero(Sum(u, v));
      forall i | 0 <= i < |u|
        ensures u[i] == v[i]
      {
        assert Sum(u, v)[i] == 0;
        EqualSymbols(u[i], v[i]);
      }
    }
  }

  lemma EqualSymbols(d: Symbol, e: Symbol)
    requires AddSymbol(d, e) == 0
    ensures d == e
  {
  }

  // ----- the two-word computation -----

  const GENERATOR1: seq<bv32> := [0x98, 0x79, 0xf3, 0xae, 0x1e]
  const GENERATOR2: seq<bv32> := [0xf2bc8e61, 0xb76d99e2, 0x3e5fb3c4, 0x2eabe2a8, 0x4f43e470]

  function HighWord(c0: bv32): bv40
    requires c0 < 0x100
  {
    (c0 as bv40) << 32
  }

  function LowWord(c1: bv32): bv40 {
    c1 as bv40
  }

  /** Eight high bits and 32 low bits as one pattern. The words are JavaScript's 32-bit
      patterns; only the last lines of polymod look at the sign. */
  function Join(c0: bv32, c1: bv32): bv40
    requires c0 < 0x100
  {
    Add(HighWord(c0), LowWord(c1))
  }

  lemma ShiftWords(c0: bv32, c1: bv32, d: Symbol)
    requires c0 < 0x100
    ensures ((c0 & 0x07) << 5) | (c1 >> 27) < 0x100
    ensures Join(((c0 & 0x07) << 5) | (c1 >> 27), ((c1 & 0x07ff_ffff) << 5) ^ (d as bv32)) == Shifted(Join(c0, c1), d)
    ensures c0 >> 3 == Top(Join(c0, c1)) as bv32
  {
  }

  function Xor(a: bv32, b: bv32): bv32 {
    a ^ b
  }

  lemma AddHighWords(c: bv32, g: bv32)
    requires c < 0x100 && g < 0x100
    ensures Xor(c, g) < 0x100 && HighWord(Xor(c, g)) == Add(HighWord(c), HighWord(g))
  {
  }

  lemma AddLowWords(c: bv32, g: bv32)
    ensures LowWord(Xor(c, g)) == Add(LowWord(c), LowWord(g))
  {
  }

  lemma AddWords(c0: bv32, c1: bv32, g0: bv32, g1: bv32)
    requires c0 < 0x100 && g0 < 0x100
    ensures Xor(c0, g0) < 0x100
    ensures Join(Xor(c0, g0), Xor(c1, g1)) == Add(Join(c0, c1), Join(g0, g1))
  {
    hide Xor, Add, HighWord, LowWord;
    AddHighWords(c0, g0);
    AddLowWords(c1, g1);
    AddSwap(HighWord(c0), HighWord(g0), LowWord(c1), LowWord(g1));
  }

  lemma TapValue(i: nat)
    ensures Tap(true, i) == Generator(i) && Tap(false, i) == 0
  {
  }

  lemma GeneratorWords(i: nat)
    requires i < 5
    ensures |GENERATOR1| == |GENERATOR2| == 5
    ensures GENERATOR1[i] < 0x100 && Join(GENERATOR1[i], GENERATOR2[i]) == Generator(i)
  {
  }

  lemma TestBit(top: bv5, i: nat)
    requires i < 5
    ensures (top as bv32) & (1 << i) != 0 <==> Bit(top, i)
  {
  }

  // ----- reading the words as numbers -----

  function WordNumber(c: bv32): nat {
    c as int
  }

  function WithSignBit(lo: bv31): bv32 {
    0x8000_0000 | (lo as bv32)
  }

  function FlipSignBit(c: bv32): bv32 {
    c ^ 0x8000_0000
  }

  lemma SetSignBit(lo: bv31)
    ensures WordNumber(WithSignBit(lo)) == 0x8000_0000 + WordNumber(lo as bv32)
  {
  }

  lemma FlippedIsSmall(c: bv32)
    requires c >= 0x8000_0000
    ensures FlipSignBit(c) < 0x8000_0000 && (FlipSignBit(c) as bv31) as bv32 == FlipSignBit(c)
  {
  }

  lemma FlipAndSet(c: bv32)
    requires c >= 0x8000_0000 && FlipSignBit(c) < 0x8000_0000
    ensures WithSignBit(FlipSignBit(c) as bv31) == c
  {
  }

  /** Clearing the sign bit and adding 2^31 gives the unsigned number. */
  lemma SignBit(c: bv32)
    requires c >= 0x8000_0000
    ensures WordNumber(FlipSignBit(c)) + 0x8000_0000 == WordNumber(c)
  {
    hide WordNumber, WithSignBit, FlipSignBit;
    FlippedIsSmall(c);
    FlipAndSet(c);
    SetSignBit(FlipSignBit(c) as bv31);
  }

  function JoinByte(hi: bv8, lo: bv32): bv40 {
    ((hi as bv40) << 32) | (lo as bv40)
  }

  lemma ConcatByte(hi: bv8, lo: bv32)
    ensures Number(((hi as bv40) << 32) | (lo as bv40)) == WordNumber(hi as bv32) * 0x1_0000_0000 + WordNumber(lo)
  {
  }

  lemma JoinByteNumber(hi: bv8, lo: bv32)
    ensures Number(JoinByte(hi, lo)) == WordNumber(hi as bv32) * 0x1_0000_0000 + WordNumber(lo)
  {
    hide Number, WordNumber;
    ConcatByte(hi, lo);
  }

  lemma JoinPattern(c0: bv32, c1: bv32)
    requires c0 < 0x100
    ensures (c0 as bv8) as bv32 == c0 && Join(c0, c1) == JoinByte(c0 as bv8, c1)
  {
  }

  lemma JoinNumber(c0: bv32, c1: bv32)
    requires c0 < 0x100
    ensures Number(Join(c0, c1)) == WordNumber(c0) * 0x1_0000_0000 + WordNumber(c1)
  {
    hide Number, WordNumber, Join, JoinByte;
    JoinPattern(c0, c1);
    JoinByteNumber(c0 as bv8, c1);
  }

  lemma FlipLowBit(c0: bv32, c1: bv32)
    requires c0 < 0x100
    ensures Join(c0, Xor(c1, 1)) == Add(Join(c0, c1), 1)
  {
    hide Xor, Add, HighWord;
    AddLowWords(c1, 1);
    AddAssoc(HighWord(c0), LowWord(c1), 1);
  }

  /** The generators of one symbol, put back one after the other. */
  method AddGenerators(high: bv32, c0: bv32, c1: bv32, ghost top: bv5) returns (r0: bv32, r1: bv32)
    requires c0 < 0x100 && high == top as bv32
    ensures r0 < 0x100 && Join(r0, r1) == Add(Join(c0, c1), Feedback(top, 5))
  {
    hide Join, Add, Bit, Tap, Generator, GENERATOR1, GENERATOR2, Xor;
    r0, r1 := c0, c1;
    AddSelf(Join(c0, c1));
    var i := 0;
    while i < 5
      invariant 0 <= i <= 5 && r0 < 0x100
      invariant Join(r0, r1) == Add(Join(c0, c1), Feedback(top, i))
    {
      TestBit(top, i);
      TapValue(i);
      AddAssoc(Join(c0, c1), Feedback(top, i), Tap(Bit(top, i), i));
      if high & (1 << i) != 0 {
        GeneratorWords(i);
        AddWords(r0, r1, GENERATOR1[i], GENERATOR2[i]);
        r0 := Xor(r0, GENERATOR1[i]);
        r1 := Xor(r1, GENERATOR2[i]);
      } else {
        AddSelf(Join(r0, r1));
      }
      i := i + 1;
    }
  }

  /** polymod: the 8-bit and the 32-bit word together run the 40-bit code. */
  method Polymod(data: seq<Symbol>) returns (checksum: nat)
    ensures checksum == Number(PolyMod(data))
  {
    hide Join, Add, Step, Shifted, Top, Feedback, Xor;
    var c0: bv32, c1: bv32 := 0, 1;
    StartWords();
    var j := 0;
    while j < |data|
      invariant 0 <= j <= |data| && c0 < 0x100
      invariant Join(c0, c1) == Run(1, data[..j])
    {
      c0, c1 := OneSymbol(c0, c1, data[j]);
      assert data[..j + 1][..j] == data[..j];
      j := j + 1;
    }
    assert data[..j] == data;
    FlipLowBit(c0, c1);
    c1 := Xor(c1, 1);
    checksum := JoinedNumber(c0, c1);
  }

  lemma StartWords()
    ensures Join(0, 1) == 1
  {
  }

  method OneSymbol(c0: bv32, c1: bv32, d: Symbol) returns (r0: bv32, r1: bv32)
    requires c0 < 0x100
    ensures r0 < 0x100 && Join(r0, r1) == Step(Join(c0, c1), d)
  {
    hide Join, Add, Shifted, Top, Feedback;
    ShiftWords(c0, c1, d);
    var high := c0 >> 3;
    r0 := c0 & 0x07;
    r0 := r0 << 5;
    r0 := r0 | (c1 >> 27);
    r1 := c1 & 0x07ff_ffff;
    r1 := r1 << 5;
    r1 := r1 ^ (d as bv32);
    r0, r1 := AddGenerators(high, r0, r1, Top(Join(c0, c1)));
  }

  /** The words as one JavaScript number; a negative low word is made positive first. */
  method JoinedNumber(c0: bv32, c1: bv32) returns (n: nat)
    requires c0 < 0x100
    ensures n == Number(Join(c0, c1))
  {
    hide Join, Number, WordNumber, FlipSignBit;
    JoinNumber(c0, c1);
    var low := 0;
    if c1 >= 0x8000_0000 {
      SignBit(c1);
      low := WordNumber(FlipSignBit(c1)) + 0x4000_0000 * 2;
    } else {
      low := WordNumber(c1);
    }
    n := WordNumber(c0) * 0x4000_0000 * 4 + low;
  }

  /** The checksum as eight symbols. The number is divided by 32 without rounding down;
      `&` drops the fraction. */
  method ChecksumToArray(checksum: nat) returns (result: seq<Symbol>)
    requires checksum < 0x100_0000_0000
    ensures result == Base32(checksum, 8)
  {
    var x := checksum as real;
    var low: seq<Symbol> := [];
    var i := 0;
    ghost var rest := checksum;
    while i < 8
      invariant 0 <= i <= 8 && x.Floor == rest
      invariant Base32(checksum, 8) == Base32(rest, 8 - i) + Reversed(low)
    {
      var d := ToInt32(x.Floor) % 32;
      LowFive(rest);
      FloorOfQuotient(x, rest);
      PeelDigit(checksum, rest, 8 - i, low);
      low := low + [SymbolOf(d)];
      x := x / 32.0;
      rest := rest / 32;
      i := i + 1;
    }
    result := Reversed(low);
  }

  function Reversed(s: seq<Symbol>): seq<Symbol> {
    if s == [] then [] else [s[|s| - 1]] + Reversed(s[..|s| - 1])
  }

  lemma PeelDigit(x: nat, rest: nat, n: nat, low: seq<Symbol>)
    requires 0 < n
    ensures Base32(rest, n) + Reversed(low) == Base32(rest / 32, n - 1) + Reversed(low + [SymbolOf(rest % 32)])
  {
    assert (low + [SymbolOf(rest % 32)])[..|low|] == low;
  }

  lemma LowFive(x: nat)
    ensures ToInt32(x) % 32 == x % 32
  {
  }

  lemma FloorOfQuotient(x: real, n: nat)
    requires x.Floor == n
    ensures (x / 32.0).Floor == n / 32
  {
  }

  // ----- addresses -----

  function PrefixData(prefix: string): (r: seq<Symbol>)
    ensures |r| == |prefix| + 1
  {
    seq(|prefix|, i requires 0 <= i < |prefix| => SymbolOf((prefix[i] as int) % 32)) + [0]
  }

  predicate Accepts(prefix: string, payload: seq<Symbol>) {
    PolyMod(PrefixData(prefix) + payload) == 0
  }

  /** The five low bits of each character of the prefix. */
  method PrefixToArray(prefix: string) returns (result: seq<Symbol>)
    ensures result + [0] == PrefixData(prefix)
  {
    result := [];
    var i := 0;
    while i < |prefix|
      invariant 0 <= i <= |prefix| && |result| == i
      invariant forall j :: 0 <= j < i ==> result[j] == PrefixData(prefix)[j]
    {
      result := result + [SymbolOf((prefix[i] as int) % 32)];
      i := i + 1;
    }
  }

  /** The checksum half of toCashAddress: what it appends is accepted by the decoder, and
      nothing else would be. */
  method EncodePayload(prefix: string, payloadData: seq<Symbol>) returns (payload: seq<Symbol>)
    ensures |payload| == |payloadData| + 8 && payload[..|payloadData|] == payloadData
    ensures Accepts(prefix, payload)
    ensures forall tail: seq<Symbol> :: |tail| == 8 && Accepts(prefix, payloadData + tail) ==>
      payloadData + tail == payload
  {
    var eight0: seq<Symbol> := [0, 0, 0, 0, 0, 0, 0, 0];
    assert eight0 == Zeros(8);
    var prefixArray := PrefixToArray(prefix);
    var prefixData := prefixArray + [0];
    var checksumData := prefixData + payloadData + eight0;
    var checksum := Polymod(checksumData);
    NumberBound(PolyMod(checksumData));
    var tail := ChecksumToArray(checksum);
    payload := payloadData + tail;
    ChecksumAccepted(prefixData + payloadData);
    assert prefixData + payload == prefixData + payloadData + tail;
    forall other: seq<Symbol> | |other| == 8 && Accepts(prefix, payloadData + other)
      ensures payloadData + other == payload
    {
      ChecksumUnique(prefixData, payloadData, tail, other);
    }
  }

  lemma NumberBound(c: bv40)
    ensures Number(c) < 0x100_0000_0000
  {
  }

  lemma ChecksumUnique(front: seq<Symbol>, data: seq<Symbol>, t: seq<Symbol>, u: seq<Symbol>)
    requires |t| == |u| == 8
    requires PolyMod(front + (data + t)) == 0 && PolyMod(front + (data + u)) == 0
    ensures t == u
  {
    hide PolyMod;
    var x, y, n := front + (data + t), front + (data + u), |front| + |data|;
    assert x[..n] == front + data && y[..n] == front + data;
    assert x[n..] == t && y[n..] == u;
    BurstDetected(x, y, n, 8);
  }

  method ValidChecksum(prefix: string, payload: seq<Symbol>) returns (ok: bool)
    ensures ok <==> Accepts(prefix, payload)
  {
    var prefixArray := PrefixToArray(prefix);
    var checksum := Polymod(prefixArray + [0] + payload);
    NumberZero(PolyMod(PrefixData(prefix) + payload));
    ok := checksum == 0;
  }

  lemma NumberZero(c: bv40)
    ensures Number(c) == 0 <==> c == 0
  {
  }

  /** The state after a short prefix is that of eight symbols: zeros, the one the code starts
      with, and the prefix. */
  function Window(data: seq<Symbol>): (r: seq<Symbol>)
    requires |data| <= 7
    ensures |r| == 8
  {
    Zeros(7 - |data|) + [1] + data
  }

  lemma WindowState(data: seq<Symbol>)
    requires |data| <= 7
    ensures Run(1, data) == Run(0, Window(data))
  {
    hide Step;
    var zeros, one: seq<Symbol> := Zeros(7 - |data|), [1];
    RunConcat(0, zeros + one, data);
    RunConcat(0, zeros, one);
    RunZeros(0, |zeros|);
    FirstStep();
    assert one[..0] == [];
    assert Run(0, one) == Step(Run(0, one[..0]), 1);
  }

  lemma FirstStep()
    ensures Step(0, 1) == 1
  {
    StepLow(0, 1);
  }

  lemma WindowsDiffer(d: seq<Symbol>, e: seq<Symbol>)
    requires |d| <= |e| <= 7 && d != e
    ensures Window(d) != Window(e)
  {
    var u, v, k := Window(d), Window(e), 7 - |e|;
    if |d| < |e| {
      assert u[k] == 0 && v[k] == 1;
    } else {
      assert u[k + 1..] == d && v[k + 1..] == e;
    }
  }

  /** Two different prefixes of up to six characters leave different states, so no payload is
      accepted for both. */
  lemma OnePrefix(p: string, q: string, payload: seq<Symbol>)
    requires |p| <= |q| <= 6 && PrefixData(p) != PrefixData(q)
    ensures !(Accepts(p, payload) && Accepts(q, payload))
  {
    hide Add, Step, PrefixData, Run, Window;
    var a, b := PrefixData(p), PrefixData(q);
    WindowState(a);
    WindowState(b);
    WindowsDiffer(a, b);
    WindowInjective(0, Window(a), Window(b));
    RunConcat(1, a, payload);
    RunConcat(1, b, payload);
    RunInjective(Run(1, a), Run(1, b), payload);
    AddOne(Run(Run(1, a), payload), Run(Run(1, b), payload));
  }

  lemma NetworkPrefixes()
    ensures PrefixData("ecash") != PrefixData("ectest") && PrefixData("ecash") != PrefixData("bchreg")
    ensures PrefixData("ectest") != PrefixData("bchreg")
  {
    assert PrefixData("ectest")[0] == 5;
    assert PrefixData("bchreg")[0] == 2;
  }

  /** No payload is accepted for two of the networks. */
  lemma OneNetwork(payload: seq<Symbol>)
    ensures !(Accepts("ecash", payload) && Accepts("ectest", payload))
    ensures !(Accepts("ecash", payload) && Accepts("bchreg", payload))
    ensures !(Accepts("ectest", payload) && Accepts("bchreg", payload))
  {
    hide PrefixData, Accepts;
    NetworkPrefixes();
    OnePrefix("ecash", "ectest", payload);
    OnePrefix("ecash", "bchreg", payload);
    OnePrefix("ectest", "bchreg", payload);
  }

  /** An address without prefix: the networks are tried in turn. Whatever the order, only one
      can accept. */
  method FindPrefix(payload: seq<Symbol>) returns (prefix: string)
    ensures forall p :: p in ["ecash", "ectest", "bchreg"] ==> (Accepts(p, payload) <==> p == prefix)
    ensures prefix == "" || prefix in ["ecash", "ectest", "bchreg"]
  {
    hide Accepts;
    OneNetwork(payload);
    var netNames := ["ecash", "ectest", "bchreg"];
    prefix := "";
    var i := 0;
    while prefix == "" && i < |netNames|
      invariant 0 <= i <= 3
      invariant prefix == "" ==> forall j :: 0 <= j < i ==> !Accepts(netNames[j], payload)
      invariant prefix != "" ==> prefix in netNames && Accepts(prefix, payload)
    {
      var ok := ValidChecksum(netNames[i], payload);
      if ok {
        prefix := netNames[i];
      }
      i := i + 1;
    }
  }
}
