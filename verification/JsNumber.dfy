/** JavaScript numbers as bn.js uses them: integers held in doubles, and the
    bitwise operators that first wrap to 32 bits. */
module JsNumber {
  import opened Arith

  const BASE := 0x400_0000
  const INT32_RANGE := 0x1_0000_0000
  const MAX_EXACT := 0x20_0000_0000_0000

  /** An integer computed in double arithmetic; the precondition is the obligation
      that the double holds it exactly. */
  function Exact(x: int): (r: int)
    requires -MAX_EXACT <= x <= MAX_EXACT
  {
    x
  }

  predicate IsInt32(x: int) {
    -0x8000_0000 <= x < 0x8000_0000
  }

  /** `x | 0` */
  function ToInt32(x: int): (r: int)
    ensures IsInt32(r) && (IsInt32(x) ==> r == x)
  {
    var u := x % INT32_RANGE;
    if u < 0x8000_0000 then u else u - INT32_RANGE
  }

  /** `x & 0x3ffffff`; exact for negative x too, since 2^26 divides 2^32. */
  function Low26(x: int): (r: int)
    ensures 0 <= r < BASE
  {
    x % BASE
  }

  /** `x >> 26` */
  function Shr26(x: int): (r: int)
    ensures IsInt32(x) ==> r == x / BASE
  {
    ToInt32(x) / BASE
  }

  /** `x >>> 26` */
  function UShr26(x: int): (r: int)
    ensures 0 <= x < INT32_RANGE ==> r == x / BASE
  {
    (x % INT32_RANGE) / BASE
  }

  /** `(x / 0x4000000) | 0`; the quotient is exact and loses its fraction towards zero. */
  function Hi26(x: int): (r: int)
    requires -MAX_EXACT <= x <= MAX_EXACT
    ensures 0 <= x < BASE * 0x8000_0000 ==> r == x / BASE
    ensures -BASE * 0x8000_0000 < x < 0 ==> r == -(-x / BASE)
  {
    ToInt32(if x < 0 then -(-x / BASE) else x / BASE)
  }

  /** Splitting a limb-sized digit off a number loses nothing. */
  lemma SplitLow(x: int)
    ensures x == Low26(x) + BASE * (x / BASE)
  {
  }

  /** What is used of double division: a rounded quotient y of two integers is never below
      the true floor (which is itself a double, and rounding is monotone) and exceeds the
      quotient by at most one part in 2^53. */
  predicate IsRounded(y: real, a: int, d: int)
    requires 0 < d
  {
    (a / d) as real <= y && (y * d as real - a as real) * MAX_EXACT as real <= a as real
  }

  /** `a / d`, rounded in some such way. */
  method DivideDoubles(a: nat, d: nat) returns (y: real)
    requires 0 < d
    ensures IsRounded(y, a, d)
  {
    DivMod(a, d);
    y := a as real / d as real;
    assert y * d as real == a as real;
    RealQuotient(a, d, y);
  }

  lemma RealQuotient(a: nat, d: nat, y: real)
    requires 0 < d && y * d as real == a as real
    ensures (a / d) as real <= y
  {
    var q := a / d;
    DivMod(a, d);
    assert (q * d) as real == q as real * d as real;
    if y < q as real {
      RealMulLt(y, q as real, d as real);
      assert false;
    }
  }

  lemma RealMulLt(x: real, y: real, z: real)
    requires x < y && 0.0 < z
    ensures x * z < y * z
  {
  }

  /** `(a / d) | 0`, through a rounded quotient */
  method TruncateQuotient(a: nat, d: nat) returns (q: int)
    requires a < MAX_EXACT && 0 < d
    ensures a / d < 0x8000_0000 ==> q == a / d
  {
    var y := DivideDoubles(a, d);
    TruncatedRoundedQuotient(a, d, y);
    DivPositive(a, d);
    q := ToInt32(y.Floor);
  }

  /** Truncating a rounded quotient gives the integer quotient. */
  lemma TruncatedRoundedQuotient(a: int, d: int, y: real)
    requires 0 <= a < MAX_EXACT && 0 < d && IsRounded(y, a, d)
    ensures y.Floor == a / d
  {
    var q := a / d;
    DivMod(a, d);
    assert a + 1 <= q * d + d;
    assert (y * d as real - a as real) < 1.0;
    assert y * d as real < (q * d + d) as real;
    assert (q * d + d) as real == (q + 1) as real * d as real;
    if y >= (q + 1) as real {
      RealMulLe((q + 1) as real, y, d as real);
      assert false;
    }
  }

  lemma RealMulLe(x: real, y: real, z: real)
    requires x <= y && 0.0 <= z
    ensures x * z <= y * z
  {
  }
}
