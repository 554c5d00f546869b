/** Printing and parsing in any base from 2 to 36 other than 16, which has its own
    routines. Both sides work in groups of digits, with group sizes found separately. */
module Radix {
  import opened Arith
  import opened JsNumber
  import opened Limbs
  import opened BigNum

  const GROUP_SIZES: seq<nat> := [
    0, 0,
    25, 16, 12, 11, 10, 9, 8,
    8, 7, 7, 7, 7, 6, 6,
    6, 6, 6, 6, 6, 5, 5,
    5, 5, 5, 5, 5, 5, 5,
    5, 5, 5, 5, 5, 5, 5
  ]

  const GROUP_BASES: seq<nat> := [
    0, 0,
    33554432, 43046721, 16777216, 48828125, 60466176, 40353607, 16777216,
    43046721, 10000000, 19487171, 35831808, 62748517, 7529536, 11390625,
    16777216, 24137569, 34012224, 47045881, 64000000, 4084101, 5153632,
    6436343, 7962624, 9765625, 11881376, 14348907, 17210368, 20511149,
    24300000, 28629151, 33554432, 39135393, 45435424, 52521875, 60466176
  ]

  predicate IsRadix(base: nat) {
    2 <= base <= 36 && base != 16
  }

  /** The digit of a number below 36, as Number.toString writes it. */
  function DigitChar(d: nat): (ch: char)
    requires d < 36
    ensures DigitValue(ch) == d
  {
    if d < 10 then '0' + d as char else 'a' + (d - 10) as char
  }

  /** The digit parseBase reads: no check that it is one. */
  function DigitValue(ch: char): int {
    var c := ch as int - 48;
    if c >= 49 then c - 49 + 0xa else if c >= 17 then c - 17 + 0xa else c
  }

  /** The numeral of n without leading zeros: Number.toString(base), and for big numbers
      what printing is meant to give. */
  function Numeral(n: nat, base: nat): (s: string)
    requires 2 <= base <= 36
    ensures |s| >= 1
    decreases n
  {
    if n < base then [DigitChar(n)] else
      DivShrinks(n, base);
      Numeral(n / base, base) + [DigitChar(n % base)]
  }

  lemma DivShrinks(n: nat, base: nat)
    requires 2 <= base <= n
    ensures 0 < n / base < n && n % base < base
  {
    DivLower(n, base, 1);
    MulLe(2, base, n);
    DivUpper(n, base, n);
  }

  function Zeros(n: nat): (s: string)
    ensures |s| == n
  {
    seq(n, _ => '0')
  }

  /** The number a string of digits denotes. */
  function TextValue(s: string, base: nat): int {
    if s == [] then 0 else TextValue(s[..|s| - 1], base) * base + DigitValue(s[|s| - 1])
  }

  predicate AllDigits(s: string, base: nat) {
    forall i :: 0 <= i < |s| ==> 0 <= DigitValue(s[i]) < base
  }

  predicate HasMinus(s: string) {
    0 < |s| && s[0] == '-'
  }

  function Unsigned(s: string): string {
    if HasMinus(s) then s[1..] else s
  }

  /** A sign, if any, and digits. */
  function SignedTextValue(s: string, base: nat): int {
    if HasMinus(s) then -TextValue(Unsigned(s), base) else TextValue(Unsigned(s), base)
  }

  // ----- the digit groups of the two sides -----

  lemma TablesTo4(base: nat)
    requires 2 <= base <= 4
    ensures Pow(base, GROUP_SIZES[base]) == GROUP_BASES[base] && 0 < GROUP_SIZES[base] <= 25 && GROUP_BASES[base] < BASE
  {
    PowAdd(2, 12, 13);
    PowAdd(3, 8, 8);
    assert Pow(2, 25) == 33554432;
    assert Pow(3, 16) == 43046721;
    assert Pow(4, 12) == 16777216;
  }

  lemma TablesTo8(base: nat)
    requires 5 <= base <= 8
    ensures Pow(base, GROUP_SIZES[base]) == GROUP_BASES[base] && 0 < GROUP_SIZES[base] <= 25 && GROUP_BASES[base] < BASE
  {
    assert Pow(5, 11) == 48828125;
    assert Pow(6, 10) == 60466176;
    assert Pow(7, 9) == 40353607;
    assert Pow(8, 8) == 16777216;
  }

  lemma TablesTo14(base: nat)
    requires 9 <= base <= 14
    ensures Pow(base, GROUP_SIZES[base]) == GROUP_BASES[base] && 0 < GROUP_SIZES[base] <= 25 && GROUP_BASES[base] < BASE
  {
    assert Pow(9, 8) == 43046721;
    assert Pow(10, 7) == 10000000;
    assert Pow(11, 7) == 19487171;
    assert Pow(12, 7) == 35831808;
    assert Pow(13, 7) == 62748517;
    assert Pow(14, 6) == 7529536;
  }

  lemma TablesTo20(base: nat)
    requires 15 <= base <= 20
    ensures Pow(base, GROUP_SIZES[base]) == GROUP_BASES[base] && 0 < GROUP_SIZES[base] <= 25 && GROUP_BASES[base] < BASE
  {
    assert Pow(15, 6) == 11390625;
    assert Pow(16, 6) == 16777216;
    assert Pow(17, 6) == 24137569;
    assert Pow(18, 6) == 34012224;
    assert Pow(19, 6) == 47045881;
    assert Pow(20, 6) == 64000000;
  }

  lemma TablesTo28(base: nat)
    requires 21 <= base <= 28
    ensures Pow(base, GROUP_SIZES[base]) == GROUP_BASES[base] && 0 < GROUP_SIZES[base] <= 25 && GROUP_BASES[base] < BASE
  {
    assert Pow(21, 5) == 4084101;
    assert Pow(22, 5) == 5153632;
    assert Pow(23, 5) == 6436343;
    assert Pow(24, 5) == 7962624;
    assert Pow(25, 5) == 9765625;
    assert Pow(26, 5) == 11881376;
    assert Pow(27, 5) == 14348907;
    assert Pow(28, 5) == 17210368;
  }

  lemma TablesTo36(base: nat)
    requires 29 <= base <= 36
    ensures Pow(base, GROUP_SIZES[base]) == GROUP_BASES[base] && 0 < GROUP_SIZES[base] <= 25 && GROUP_BASES[base] < BASE
  {
    assert Pow(29, 5) == 20511149;
    assert Pow(30, 5) == 24300000;
    assert Pow(31, 5) == 28629151;
    assert Pow(32, 5) == 33554432;
    assert Pow(33, 5) == 39135393;
    assert Pow(34, 5) == 45435424;
    assert Pow(35, 5) == 52521875;
    assert Pow(36, 5) == 60466176;
  }

  function GroupSize(base: nat): nat
    requires 2 <= base <= 36
  {
    GROUP_SIZES[base]
  }

  function GroupBase(base: nat): nat
    requires 2 <= base <= 36
  {
    GROUP_BASES[base]
  }

  /** The two tables agree: every group base is the base to the power of its group size,
      and fits a limb. */
  lemma TablesAgree(base: nat)
    requires 2 <= base <= 36
    ensures Pow(base, GroupSize(base)) == GroupBase(base)
    ensures 0 < GroupSize(base) <= 25 && base <= GroupBase(base) < BASE
  {
    if base <= 4 {
      TablesTo4(base);
    } else if base <= 8 {
      TablesTo8(base);
    } else if base <= 14 {
      TablesTo14(base);
    } else if base <= 20 {
      TablesTo20(base);
    } else if base <= 28 {
      TablesTo28(base);
    } else {
      TablesTo36(base);
    }
    PowMonotone(base, 1, GROUP_SIZES[base]);
  }

  // ----- numerals -----

  /** Zeros in front up to k digits. */
  function Padded(s: string, k: nat): string {
    if |s| < k then Zeros(k - |s|) + s else s
  }

  /** A number below base^k has at most k digits. */
  lemma {:induction false} NumeralLength(n: nat, k: nat, base: nat)
    requires 2 <= base <= 36 && 0 < k && n < Pow(base, k)
    ensures |Numeral(n, base)| <= k
    decreases n
  {
    if n >= base {
      DivShrinks(n, base);
      assert Pow(base, 1) == base;
      MulComm(base, Pow(base, k - 1));
      DivUpper(n, base, Pow(base, k - 1));
      NumeralLength(n / base, k - 1, base);
    }
  }

  /** Writing q base^k + r digit group by digit group: the lower group is padded. */
  lemma {:induction false} NumeralSplit(q: nat, r: nat, k: nat, base: nat)
    requires 2 <= base <= 36 && 0 < q && 0 < k && r < Pow(base, k)
    ensures q * Pow(base, k) + r >= 0
    ensures Numeral(q * Pow(base, k) + r, base) == Numeral(q, base) + Padded(Numeral(r, base), k)
    decreases k
  {
    MulLe(1, q, Pow(base, k));
    var n := q * Pow(base, k) + r;
    var h, d := r / base, r % base;
    DivMod(r, base);
    DivPositive(r, base);
    if k == 1 {
      assert Pow(base, 1) == base;
      NumeralStep(q, r, n, base);
    } else {
      MulComm(base, Pow(base, k - 1));
      DivUpper(r, base, Pow(base, k - 1));
      NumeralSplit(q, h, k - 1, base);
      var n' := q * Pow(base, k - 1) + h;
      MulAssoc(q, Pow(base, k - 1), base);
      MulAdd(q * Pow(base, k - 1), h, base);
      MulLe(1, q, Pow(base, k - 1));
      PowPositive(base, k - 1);
      NumeralStep(n', d, n, base);
      PaddedStep(r, k, base);
    }
  }

  lemma NumeralStep(q: nat, d: nat, n: int, base: nat)
    requires 2 <= base <= 36 && 0 < q && d < base && n == q * base + d
    ensures n >= 0 && Numeral(n, base) == Numeral(q, base) + [DigitChar(d)]
    ensures Padded(Numeral(d, base), 1) == [DigitChar(d)]
  {
    MulLe(1, q, base);
    DivModUnique(n, base, q, d);
  }

  lemma PaddedStep(r: nat, k: nat, base: nat)
    requires 2 <= base <= 36 && 1 < k && 0 <= r / base && 0 <= r % base < base
    ensures Padded(Numeral(r, base), k) == Padded(Numeral(r / base, base), k - 1) + [DigitChar(r % base)]
  {
    if r < base {
      ModSmall(r, base);
      assert Numeral(r, base) == [DigitChar(r)] && Numeral(0, base) == "0";
    } else {
      assert Numeral(r, base) == Numeral(r / base, base) + [DigitChar(r % base)];
    }
  }

  lemma {:induction false} TextConcat(s: string, t: string, base: nat)
    ensures TextValue(s + t, base) == TextValue(s, base) * Pow(base, |t|) + TextValue(t, base)
    decreases |t|
  {
    if t == [] {
      assert s + t == s;
    } else {
      var t' := t[..|t| - 1];
      assert (s + t)[..|s + t| - 1] == s + t';
      TextConcat(s, t', base);
      var v, p := TextValue(s, base), Pow(base, |t| - 1);
      MulAdd(v * p, TextValue(t', base), base);
      MulAssoc(v, p, base);
      MulComm(p, base);
    }
  }

  lemma {:induction false} NumeralDigits(n: nat, base: nat)
    requires 2 <= base <= 36
    ensures TextValue(Numeral(n, base), base) == n && AllDigits(Numeral(n, base), base)
    decreases n
  {
    if n < base {
      assert TextValue([DigitChar(n)][..0], base) == 0;
    } else {
      DivShrinks(n, base);
      NumeralDigits(n / base, base);
      DivMod(n, base);
      var s := Numeral(n / base, base);
      assert (s + [DigitChar(n % base)])[..|s|] == s;
    }
  }

  lemma {:induction false} ZerosDigits(k: nat, base: nat)
    requires 2 <= base <= 36
    ensures TextValue(Zeros(k), base) == 0 && AllDigits(Zeros(k), base)
  {
    if k > 0 {
      ZerosDigits(k - 1, base);
      assert Zeros(k)[..k - 1] == Zeros(k - 1);
    }
  }

  /** The text that printing v is to give: sign, zeros up to a multiple of the padding, and
      the numeral of the magnitude. */
  function Printed(v: int, base: nat, padding: nat): string
    requires 2 <= base <= 36 && 0 < padding
  {
    var digits := Numeral(if v < 0 then -v else v, base);
    (if v < 0 then "-" else "") + Zeros(Missing(|digits|, padding)) + digits
  }

  /** How many zeros bring a length to the next multiple. */
  function Missing(n: nat, padding: nat): (k: nat)
    requires 0 < padding
    ensures k < padding && (n + k) % padding == 0
  {
    var rest := n % padding;
    DivMod(n, padding);
    assert rest != 0 ==> (n + (padding - rest)) % padding == 0 by {
      if rest != 0 {
        DivModUnique(n + (padding - rest), padding, n / padding + 1, 0);
      }
    }
    if rest == 0 then 0 else padding - rest
  }

  lemma MissingUnique(n: nat, padding: nat, k: nat)
    requires 0 < padding && k <= Missing(n, padding) && (n + k) % padding == 0
    ensures k == Missing(n, padding)
  {
    hide Missing;
    var d := ModDiff(n + Missing(n, padding), n + k, padding);
    if d > 0 {
      MulLe(1, d, padding);
    } else if d < 0 {
      MulLe(d, -1, padding);
    }
  }

  lemma ZerosBefore(k: nat, digits: string, base: nat)
    requires 2 <= base <= 36 && AllDigits(digits, base)
    ensures TextValue(Zeros(k) + digits, base) == TextValue(digits, base) && AllDigits(Zeros(k) + digits, base)
  {
    hide TextValue, Zeros, DigitValue, Pow;
    ZerosDigits(k, base);
    TextConcat(Zeros(k), digits, base);
  }

  /** No digit is a minus sign. */
  lemma SignedDigits(s: string, base: nat)
    requires s != [] && AllDigits(s, base)
    ensures !HasMinus(s) && Unsigned(s) == s
    ensures HasMinus("-" + s) && Unsigned("-" + s) == s
  {
    assert 0 <= DigitValue(s[0]);
    assert ("-" + s)[1..] == s;
  }

  lemma UnsignedPrinted(v: int, base: nat, padding: nat)
    requires IsRadix(base) && 0 < padding
    ensures var digits := Numeral(if v < 0 then -v else v, base);
      Unsigned(Printed(v, base, padding)) == Zeros(Missing(|digits|, padding)) + digits
    ensures HasMinus(Printed(v, base, padding)) <==> v < 0
  {
    hide Missing, Numeral, TextValue, Zeros, AllDigits, HasMinus, Unsigned;
    var n := if v < 0 then -v else v;
    var digits := Numeral(n, base);
    var k := Missing(|digits|, padding);
    NumeralDigits(n, base);
    ZerosBefore(k, digits, base);
    SignedDigits(Zeros(k) + digits, base);
    assert Printed(v, base, padding) == if v < 0 then "-" + (Zeros(k) + digits) else Zeros(k) + digits;
  }

  /** Reading what printing gives returns the number. */
  lemma PrintedValue(v: int, base: nat, padding: nat)
    requires IsRadix(base) && 0 < padding
    ensures SignedTextValue(Printed(v, base, padding), base) == v
    ensures AllDigits(Unsigned(Printed(v, base, padding)), base)
    ensures HasMinus(Printed(v, base, padding)) <==> v < 0
  {
    hide TextValue, Zeros, AllDigits, HasMinus, Unsigned, Numeral, Missing, Printed;
    var n := if v < 0 then -v else v;
    var digits := Numeral(n, base);
    NumeralDigits(n, base);
    ZerosBefore(Missing(|digits|, padding), digits, base);
    UnsignedPrinted(v, base, padding);
  }

  /** The digits and the small letters. */
  const ALPHABET := "0123456789abcdefghijklmnopqrstuvwxyz"

  ghost predicate InAlphabet(s: string, base: nat)
    requires base <= 36
  {
    forall i :: 0 <= i < |s| ==> s[i] in ALPHABET[..base]
  }

  lemma DigitInAlphabet(d: nat, base: nat)
    requires d < base <= 36
    ensures DigitChar(d) == ALPHABET[d] && DigitChar(d) in ALPHABET[..base]
  {
    assert ALPHABET[..base][d] == ALPHABET[d];
  }

  lemma {:induction false} NumeralAlphabet(n: nat, base: nat)
    requires 2 <= base <= 36
    ensures InAlphabet(Numeral(n, base), base)
    decreases n
  {
    hide DigitChar, ALPHABET;
    if n < base {
      DigitInAlphabet(n, base);
    } else {
      DivShrinks(n, base);
      NumeralAlphabet(n / base, base);
      DigitInAlphabet(n % base, base);
    }
  }

  lemma ZerosAlphabet(k: nat, digits: string, base: nat)
    requires 2 <= base <= 36 && InAlphabet(digits, base)
    ensures InAlphabet(Zeros(k) + digits, base)
  {
    hide ALPHABET;
    DigitInAlphabet(0, base);
  }

  /** A numeral starts with a zero only if it is that of zero. */
  lemma {:induction false} NumeralHead(n: nat, base: nat)
    requires 2 <= base <= 36
    ensures if n == 0 then Numeral(n, base) == "0" else Numeral(n, base)[0] != '0'
    decreases n
  {
    if n >= base {
      DivShrinks(n, base);
      NumeralHead(n / base, base);
    }
  }

  /** Behind the sign the printed text has k zeros, as few as bring its length to a multiple of
      the padding, and then a numeral that has none in front. */
  lemma PrintedShape(v: int, base: nat, padding: nat) returns (k: nat)
    requires IsRadix(base) && 0 < padding
    ensures var s := Unsigned(Printed(v, base, padding));
      k < padding && k < |s| && |s| % padding == 0 && InAlphabet(s, base) &&
      (forall i :: 0 <= i < k ==> s[i] == '0') &&
      if v == 0 then s[k..] == "0" else s[k] != '0'
  {
    hide Missing, Numeral, InAlphabet, Printed, Unsigned, DigitValue;
    var n := if v < 0 then -v else v;
    var digits := Numeral(n, base);
    k := Missing(|digits|, padding);
    NumeralAlphabet(n, base);
    NumeralHead(n, base);
    ZerosAlphabet(k, digits, base);
    UnsignedPrinted(v, base, padding);
    assert (Zeros(k) + digits)[k..] == digits;
  }

  // ----- printing -----

  /** What is still to be printed, in front of the groups printed so far. */
  function Pending(m: nat, base: nat): string
    requires 2 <= base <= 36
  {
    if m == 0 then "" else Numeral(m, base)
  }

  lemma GroupStep(m: nat, base: nat, size: nat, group: int)
    requires 2 <= base <= 36 && 0 < size && group == Pow(base, size) && 0 < m
    ensures 0 < group && 0 <= m % group < group && 0 <= m / group
    ensures |Numeral(m % group, base)| <= size
    ensures Pending(m, base) ==
      Pending(m / group, base) +
      (if m / group != 0 then Padded(Numeral(m % group, base), size) else Numeral(m % group, base))
  {
    PowPositive(base, size);
    DivMod(m, group);
    DivPositive(m, group);
    NumeralLength(m % group, size, base);
    if m / group > 0 {
      NumeralSplit(m / group, m % group, size, base);
    }
  }

  /** Takes the lowest group of digits off a positive number. */
  method TakeGroup(c: BN, base: nat, groupSize: nat, groupBase: nat) returns (r: string)
    requires c.Canon() && c.Value() > 0 && IsRadix(base)
    requires 0 < groupSize && groupBase == Pow(base, groupSize) && base <= groupBase < BASE
    modifies c
    ensures c.Canon() && 0 <= c.Value() < old(c.Value()) && |r| <= groupSize
    ensures Pending(old(c.Value()), base) ==
      Pending(c.Value(), base) + (if c.Value() != 0 then Padded(r, groupSize) else r)
  {
    hide BN.Canon, BN.Mag, BN.WF, BN.CleanTail, BN.IsZero, Numeral, Pending, Padded, Pow;
    c.SignOfValue();
    ghost var m := c.Value();
    GroupStep(m, base, groupSize, groupBase);
    MulLe(2, groupBase, m);
    DivUpper(m, groupBase, m);
    var low := c.Modn(groupBase);
    r := Numeral(low, base);
    c.IDivn(groupBase);
    c.SignOfValue();
  }

  lemma PaddedConcat(front: string, r: string, size: nat, rest: string)
    requires |r| <= size
    ensures (front + Padded(r, size)) + rest == front + (Zeros(size - |r|) + r + rest)
  {
  }

  /** The loop of toString: one group of digits at a time. */
  method PrintGroups(self: BN, base: nat) returns (out: string)
    requires self.Canon() && IsRadix(base)
    ensures 0 <= self.Mag() && out == Pending(self.Mag(), base)
  {
    hide BN.Canon, BN.Value, BN.Mag, BN.WF, BN.CleanTail, BN.IsZero, Numeral, Pow, GroupSize, GroupBase, Padded, Zeros;
    var groupSize, groupBase := GroupSize(base), GroupBase(base);
    TablesAgree(base);
    out := "";
    var c := Positive(self);
    c.SignOfValue();
    while !c.IsZero()
      invariant c.Canon() && c.Value() >= 0 && (c.IsZero() <==> c.Value() == 0) && fresh(c)
      invariant Pending(self.Mag(), base) == Pending(c.Value(), base) + out
      decreases c.Value()
    {
      ghost var rest := out;
      var r := TakeGroup(c, base, groupSize, groupBase);
      c.SignOfValue();
      if !c.IsZero() {
        out := Zeros(groupSize - |r|) + r + out;
        PaddedConcat(Pending(c.Value(), base), r, groupSize, rest);
      } else {
        out := r + out;
        assert Pending(c.Value(), base) == "";
      }
    }
  }

  /** Zeros in front, to a multiple of the padding. */
  method PadToMultiple(digits: string, padding: nat) returns (out: string)
    requires 0 < padding
    ensures out == Zeros(Missing(|digits|, padding)) + digits
  {
    out := digits;
    ghost var k := 0;
    while |out| % padding != 0
      invariant k <= Missing(|digits|, padding) && out == Zeros(k) + digits
      decreases Missing(|digits|, padding) - k
    {
      out := "0" + out;
      k := k + 1;
    }
    MissingUnique(|digits|, padding, k);
  }

  method ToString(self: BN, base: nat, padding: nat) returns (out: string)
    requires self.Canon() && IsRadix(base) && 0 < padding
    ensures out == Printed(self.Value(), base, padding)
  {
    hide BN.Canon, BN.Value, BN.Mag, BN.WF, BN.CleanTail, BN.IsZero, Missing;
    self.SignOfValue();
    out := PrintGroups(self, base);
    if self.IsZero() {
      out := "0" + out;
    }
    assert out == Numeral(self.Mag(), base);
    out := PadToMultiple(out, padding);
    if self.negative != 0 {
      out := "-" + out;
    }
  }

  /** A copy without the sign. */
  method Positive(self: BN) returns (c: BN)
    requires self.Canon()
    ensures fresh(c) && c.Canon() && c.Value() == self.Mag() >= 0
  {
    c := self.Clone();
    c.negative := 0;
    c.ZeroMag();
  }

  // ----- parsing -----

  lemma {:induction false} TextBound(s: string, base: nat)
    requires 2 <= base <= 36 && AllDigits(s, base)
    ensures 0 <= TextValue(s, base) < Pow(base, |s|)
  {
    if s != [] {
      var s' := s[..|s| - 1];
      TextBound(s', base);
      var v, p := TextValue(s', base), Pow(base, |s'|);
      assert Pow(base, |s|) == base * p;
      MulLe(v + 1, p, base);
      MulAdd(v, 1, base);
      MulLe(0, v, base);
    }
  }

  /** The number in str[start..end], stopping at the end of the text. */
  method ParseChunk(str: string, start: nat, end: nat, mul: nat) returns (r: int)
    requires start <= |str| && start <= end && 2 <= mul <= 36
    requires AllDigits(str[start..if |str| < end then |str| else end], mul)
    requires Pow(mul, end - start) <= BASE
    ensures r == TextValue(str[start..if |str| < end then |str| else end], mul)
    ensures 0 <= r < Pow(mul, end - start)
  {
    r := 0;
    var len := if |str| < end then |str| else end;
    var i := start;
    while i < len
      invariant start <= i <= len
      invariant r == TextValue(str[start..i], mul)
    {
      ChunkBound(str, start, i, len, mul, end - start);
      var c := str[i] as int - 48;
      r := Exact(r * mul);
      if c >= 49 {
        r := r + (c - 49 + 0xa);
      } else if c >= 17 {
        r := r + (c - 17 + 0xa);
      } else {
        r := r + c;
      }
      assert str[start..i + 1][..i - start] == str[start..i];
      i := i + 1;
    }
    ChunkBound(str, start, len, len, mul, end - start);
  }

  lemma ChunkBound(str: string, start: nat, i: nat, len: nat, mul: nat, k: nat)
    requires start <= i <= len <= |str| && 2 <= mul <= 36 && len - start <= k
    requires AllDigits(str[start..len], mul) && Pow(mul, k) <= BASE
    ensures 0 <= TextValue(str[start..i], mul) < Pow(mul, k)
    ensures 0 <= TextValue(str[start..i], mul) * mul <= MAX_EXACT
  {
    hide TextValue, Pow, DigitValue;
    forall j | 0 <= j < |str[start..i]|
      ensures 0 <= DigitValue(str[start..i][j]) < mul
    {
      assert str[start..i][j] == str[start..len][j];
    }
    var v := TextValue(str[start..i], mul);
    TextBound(str[start..i], mul);
    PowMonotone(mul, i - start, k);
    MulLe(v, BASE, mul);
    MulLe(0, v, mul);
  }

  /** How many digits always fit a limb, and base to that power. */
  method LimbDigits(base: nat) returns (limbLen: nat, limbPow: nat)
    requires 2 <= base <= 36
    ensures 0 < limbLen && limbPow == Pow(base, limbLen) < BASE
    ensures BASE <= Pow(base, limbLen + 1)
  {
    limbLen, limbPow := 0, 1;
    while limbPow <= 0x3ff_ffff
      invariant limbPow == Pow(base, limbLen) && 1 <= limbPow <= 36 * BASE
      invariant limbLen == 0 || Pow(base, limbLen - 1) <= 0x3ff_ffff
      decreases 36 * BASE - limbPow
    {
      MulLe(2, base, limbPow);
      MulLe(base, 36, limbPow);
      limbPow := Exact(base * limbPow);
      limbLen := limbLen + 1;
    }
    limbLen := limbLen - 1;
    MulComm(base, Pow(base, limbLen));
    DivExact(Pow(base, limbLen), base);
    limbPow := TruncateQuotient(limbPow, base);
  }

  /** self = self * scale + word */
  method Append(self: BN, scale: nat, word: nat)
    requires self.WF() && scale < BASE && word < BASE
    modifies self`words, self`length
    ensures self.WF() && self.Mag() == old(self.Mag()) * scale + word
  {
    hide At, Put, V;
    self.IMuln(scale);
    if At(self.words, 0) + word < 0x400_0000 {
      AddToLow(self.words, word, self.length);
      self.words := Put(self.words, 0, At(self.words, 0) + word);
    } else {
      self.IAddnUnchecked(word);
    }
  }

  lemma NextChunk(number: string, start: nat, i: nat, end: nat, base: nat)
    requires start <= i <= end <= |number|
    ensures TextValue(number[start..end], base)
         == TextValue(number[start..i], base) * Pow(base, end - i) + TextValue(number[i..end], base)
  {
    assert number[start..end] == number[start..i] + number[i..end];
    TextConcat(number[start..i], number[i..end], base);
  }

  lemma DigitsInside(number: string, start: nat, i: nat, end: nat, base: nat)
    requires start <= i <= end <= |number| && AllDigits(number[start..], base)
    ensures AllDigits(number[i..end], base)
  {
    forall j | 0 <= j < end - i
      ensures 0 <= DigitValue(number[i..end][j]) < base
    {
      assert number[i..end][j] == number[start..][i - start + j];
    }
  }

  lemma ChunksLeft(n: int, len: int)
    requires 0 < n && 0 < len && n % len == 0
    ensures len <= n && (n - len) % len == 0
  {
    if n < len {
      ModSmall(n, len);
    }
    ModAddMultiple(n, -1, len);
  }

  /** The digits that make up whole limbs. */
  method ParseWhole(self: BN, number: string, base: nat, start: nat, end: nat, limbLen: nat, limbPow: nat)
    requires IsRadix(base) && start <= end <= |number| && AllDigits(number[start..], base)
    requires 0 < limbLen && limbPow == Pow(base, limbLen) < BASE && (end - start) % limbLen == 0
    requires self.WF() && self.Mag() == 0
    modifies self`words, self`length
    ensures self.WF() && self.Mag() == TextValue(number[start..end], base)
  {
    hide BN.WF, BN.Mag, Pow, AllDigits, TextValue;
    var i := start;
    EmptyText(number, start, base);
    while i < end
      invariant start <= i <= end && (end - i) % limbLen == 0
      invariant self.WF() && self.Mag() == TextValue(number[start..i], base)
      decreases end - i
    {
      ChunksLeft(end - i, limbLen);
      DigitsInside(number, start, i, i + limbLen, base);
      var word := ParseChunk(number, i, i + limbLen, base);
      NextChunk(number, start, i, i + limbLen, base);
      Append(self, limbPow, word);
      i := i + limbLen;
    }
  }

  lemma EmptyText(number: string, i: nat, base: nat)
    requires i <= |number|
    ensures TextValue(number[i..i], base) == 0
  {
  }

  /** The digits left over. */
  method ParseRest(self: BN, number: string, base: nat, ghost start: nat, i: nat, mod: nat)
    requires IsRadix(base) && start <= i <= |number| && AllDigits(number[start..], base)
    requires mod == |number| - i && Pow(base, mod) < BASE
    requires self.WF() && self.Mag() == TextValue(number[start..i], base)
    modifies self`words, self`length
    ensures self.WF() && self.Mag() == TextValue(number[start..], base)
  {
    hide BN.WF, BN.Mag, AllDigits, TextValue;
    assert number[start..|number|] == number[start..];
    assert number[i..|number|] == number[i..];
    DigitsInside(number, start, i, |number|, base);
    var word := ParseChunk(number, i, |number|, base);
    NextChunk(number, start, i, |number|, base);
    var pow, k := 1, 0;
    while k < mod
      invariant 0 <= k <= mod && pow == Pow(base, k)
    {
      pow := pow * base;
      k := k + 1;
    }
    Append(self, pow, word);
  }

  lemma WholeLimbs(total: nat, limbLen: nat)
    requires 0 < limbLen
    ensures 0 <= total % limbLen <= total && total % limbLen < limbLen
    ensures (total - total % limbLen) % limbLen == 0
  {
    DivMod(total, limbLen);
    DivPositive(total, limbLen);
    MulLe(0, total / limbLen, limbLen);
    DivExact(total / limbLen, limbLen);
  }

  method ParseBase(self: BN, number: string, base: nat, start: nat)
    requires IsRadix(base) && start <= |number| && AllDigits(number[start..], base)
    requires self.negative == 0
    modifies self`words, self`length
    ensures self.WF() && self.Mag() == TextValue(number[start..], base)
  {
    hide BN.Mag, AllDigits, TextValue, Pow;
    self.words := [0];
    self.length := 1;
    VStepZero(self.words);
    ZeroNumber(self);
    var limbLen, limbPow := LimbDigits(base);
    var total := |number| - start;
    var mod := total % limbLen;
    var end := total - mod + start;
    WholeLimbs(total, limbLen);
    ParseWhole(self, number, base, start, end, limbLen, limbPow);
    if mod != 0 {
      PowMonotone(base, mod, limbLen);
      ParseRest(self, number, base, start, end, mod);
    } else {
      assert number[start..end] == number[start..];
    }
  }

  lemma ZeroNumber(self: BN)
    requires self.words == [0] && self.length == 1
    ensures self.Mag() == 0
  {
    VStepZero(self.words);
  }

  /** A character that `\s` matches. */
  predicate IsSpace(ch: char) {
    var c := ch as int;
    9 <= c <= 13 || c == 0x20 || c == 0xa0 || c == 0x1680 || 0x2000 <= c <= 0x200a ||
    c == 0x2028 || c == 0x2029 || c == 0x202f || c == 0x205f || c == 0x3000 || c == 0xfeff
  }

  function WithoutSpaces(text: string): string {
    if text == [] then []
    else
      var last := text[|text| - 1];
      WithoutSpaces(text[..|text| - 1]) + (if IsSpace(last) then [] else [last])
  }

  /** text.replace(/\s+/g, '') */
  method RemoveSpaces(text: string) returns (number: string)
    ensures number == WithoutSpaces(text)
  {
    number := [];
    var i := 0;
    while i < |text|
      invariant 0 <= i <= |text| && number == WithoutSpaces(text[..i])
    {
      assert text[..i + 1][..i] == text[..i];
      if !IsSpace(text[i]) {
        number := number + [text[i]];
      }
      i := i + 1;
    }
    assert text[..i] == text;
  }

  lemma {:induction false} NoSpaces(text: string)
    requires forall i :: 0 <= i < |text| ==> !IsSpace(text[i])
    ensures WithoutSpaces(text) == text
  {
    if text != [] {
      NoSpaces(text[..|text| - 1]);
    }
  }

  /** `new BN(text, base)` for a text of digits with an optional minus sign and whitespace
      anywhere. Minus zero comes out as zero. */
  method Parse(text: string, base: nat) returns (r: BN)
    requires IsRadix(base)
    requires AllDigits(Unsigned(WithoutSpaces(text)), base)
    ensures r.Canon() && r.Value() == SignedTextValue(WithoutSpaces(text), base)
  {
    hide AllDigits, TextValue, Pow, At, WithoutSpaces;
    var number := RemoveSpaces(text);
    r := new BN.FromWords([0], 1, 0);
    var start := 0;
    if HasMinus(number) {
      start := start + 1;
    }
    assert number[start..] == Unsigned(number);
    ParseBase(r, number, base, start);
    if HasMinus(number) {
      r.negative := 1;
    }
    r.Strip();
  }

  lemma DigitsAreNoSpaces(text: string, base: nat)
    requires base <= 36 && AllDigits(Unsigned(text), base)
    ensures WithoutSpaces(text) == text
  {
    forall i | 0 <= i < |text|
      ensures !IsSpace(text[i])
    {
      if HasMinus(text) {
        assert i > 0 ==> Unsigned(text)[i - 1] == text[i];
      }
    }
    NoSpaces(text);
  }

  /** Parsing undoes printing: for every integer, base and padding. */
  method PrintAndParse(x: BN, base: nat, padding: nat) returns (y: BN)
    requires x.Canon() && IsRadix(base) && 0 < padding
    ensures y.Canon() && y.Value() == x.Value()
  {
    hide BN.Canon, BN.Value, BN.WF, AllDigits, TextValue, SignedTextValue, Unsigned, Printed;
    var text := ToString(x, base, padding);
    PrintedValue(x.Value(), base, padding);
    DigitsAreNoSpaces(text, base);
    y := Parse(text, base);
  }
}
