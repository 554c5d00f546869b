/** Facts about products, quotients and powers that the solver does not find on its own. */
module Arith {

  function Pow(b: int, n: nat): int {
    if n == 0 then 1 else b * Pow(b, n - 1)
  }

  lemma {:induction false} PowPositive(b: int, n: nat)
    requires 1 <= b
    ensures 1 <= Pow(b, n)
  {
    if n != 0 {
      PowPositive(b, n - 1);
    }
  }

  function PowerOfTwo(n: nat): (r: nat)
    ensures r == Pow(2, n) && 1 <= r
  {
    PowPositive(2, n);
    Pow(2, n)
  }

  lemma {:induction false} PowAdd(b: int, m: nat, n: nat)
    ensures Pow(b, m + n) == Pow(b, m) * Pow(b, n)
  {
    if m != 0 {
      PowAdd(b, m - 1, n);
      MulAssoc(b, Pow(b, m - 1), Pow(b, n));
    }
  }

  lemma {:induction false} PowMul(b: int, m: nat, n: nat)
    ensures m * n >= 0 && Pow(b, m * n) == Pow(Pow(b, m), n)
  {
    if n == 0 {
      assert m * n == 0;
    } else {
      PowMul(b, m, n - 1);
      assert m * n == m + m * (n - 1);
      PowAdd(b, m, m * (n - 1));
    }
  }

  lemma {:induction false} PowMonotone(b: int, m: nat, n: nat)
    requires 1 <= b && m <= n
    ensures Pow(b, m) <= Pow(b, n)
  {
    PowAdd(b, m, n - m);
    PowPositive(b, m);
    PowPositive(b, n - m);
    MulLe(1, Pow(b, n - m), Pow(b, m));
  }

  lemma MulAssoc(x: int, y: int, z: int)
    ensures x * (y * z) == (x * y) * z
  {
  }

  lemma MulComm(x: int, y: int)
    ensures x * y == y * x
  {
  }

  lemma MulAdd(x: int, y: int, z: int)
    ensures (x + y) * z == x * z + y * z
    ensures z * (x + y) == z * x + z * y
  {
  }

  lemma MulSub(x: int, y: int, z: int)
    ensures (x - y) * z == x * z - y * z
    ensures z * (x - y) == z * x - z * y
  {
  }

  lemma MulLe(x: int, y: int, z: int)
    requires x <= y && 0 <= z
    ensures x * z <= y * z && z * x <= z * y
  {
  }

  lemma MulLt(x: int, y: int, z: int)
    requires x < y && 0 < z
    ensures x * z < y * z && z * x < z * y
  {
  }

  /** A product cancels: comparing multiples of a positive number compares the factors. */
  lemma MulCancelLt(x: int, y: int, z: int)
    requires 0 < z
    requires x * z < y * z
    ensures x < y
  {
  }

  /** Quotient and remainder by a positive number are determined by the division equation. */
  lemma DivModUnique(x: int, d: int, q: int, r: int)
    requires 0 < d && x == q * d + r && 0 <= r < d
    ensures x / d == q && x % d == r
  {
    var q', r' := x / d, x % d;
    assert x == q' * d + r';
    assert (q - q') * d == r' - r by { MulSub(q, q', d); }
    if q < q' {
      MulLe(q - q', -1, d);
    } else if q > q' {
      MulLe(1, q - q', d);
    }
  }

  lemma DivMod(x: int, d: int)
    requires 0 < d
    ensures x == (x / d) * d + x % d && 0 <= x % d < d
  {
  }

  lemma PowTwo26()
    ensures Pow(2, 26) == 0x400_0000
  {
    assert Pow(2, 3) == 8;
    PowAdd(2, 3, 3);
    PowAdd(2, 6, 6);
    assert Pow(2, 13) == 2 * Pow(2, 12);
    PowAdd(2, 13, 13);
  }

  lemma DivPositive(x: int, d: int)
    requires 0 <= x && 0 < d
    ensures 0 <= x / d <= x
  {
    DivMod(x, d);
    if x / d < 0 {
      MulLe(x / d, -1, d);
    } else {
      MulLe(1, d, x / d);
    }
  }

  /** x < q * d bounds the quotient. */
  lemma DivUpper(x: int, d: int, q: int)
    requires 0 < d && x < q * d
    ensures x / d < q
  {
    DivMod(x, d);
    MulCancelLt(x / d, q, d);
  }

  /** q * d <= x bounds the quotient from below. */
  lemma DivLower(x: int, d: int, q: int)
    requires 0 < d && q * d <= x
    ensures q <= x / d
  {
    DivMod(x, d);
    MulAdd(x / d, 1, d);
    MulCancelLt(q, x / d + 1, d);
  }

  /** Adding a multiple of the modulus changes nothing. */
  lemma ModAddMultiple(x: int, k: int, m: int)
    requires 0 < m
    ensures (x + k * m) % m == x % m
  {
    DivMod(x, m);
    MulAdd(x / m, k, m);
    DivModUnique(x + k * m, m, x / m + k, x % m);
  }

  /** Equal remainders differ by a multiple of the modulus. */
  lemma ModDiff(x: int, y: int, m: int) returns (k: int)
    requires 0 < m && x % m == y % m
    ensures x == y + k * m
  {
    DivMod(x, m);
    DivMod(y, m);
    k := x / m - y / m;
    MulSub(x / m, y / m, m);
  }

  lemma ModAdd(x: int, y: int, m: int)
    requires 0 < m
    ensures (x % m + y) % m == (x + y) % m
  {
    DivMod(x, m);
    ModAddMultiple(x % m + y, x / m, m);
  }

  lemma ModMul(x: int, y: int, m: int)
    requires 0 < m
    ensures ((x % m) * y) % m == (x * y) % m
  {
    DivMod(x, m);
    MulAdd((x / m) * m, x % m, y);
    assert ((x / m) * m) * y == ((x / m) * y) * m;
    ModAddMultiple((x % m) * y, (x / m) * y, m);
  }

  lemma ModMulBoth(x: int, y: int, m: int)
    requires 0 < m
    ensures ((x % m) * (y % m)) % m == (x * y) % m
  {
    ModMul(x, y % m, m);
    MulComm(x, y % m);
    ModMul(y, x, m);
    MulComm(x, y);
  }

  lemma ModSmall(x: int, m: int)
    requires 0 <= x < m
    ensures x % m == x && x / m == 0
  {
    DivModUnique(x, m, 0, x);
  }

  lemma ModTwice(x: int, m: int)
    requires 0 < m
    ensures (x % m) % m == x % m
  {
    DivMod(x, m);
    ModSmall(x % m, m);
  }

  /** Dividing twice is dividing by the product. */
  lemma DivDiv(x: int, a: int, b: int)
    requires 0 < a && 0 < b
    ensures 0 < a * b && (x / a) / b == x / (a * b)
  {
    var q, r := x / a, x % a;
    var q', r' := q / b, q % b;
    DivMod(x, a);
    DivMod(q, b);
    MulLe(1, a, b);
    MulAdd(q' * b, r', a);
    MulLe(r', b - 1, a);
    MulLe(0, r', a);
    MulAssoc(q', b, a);
    MulComm(a, b);
    MulSub(b, 1, a);
    DivModUnique(x, a * b, q', r' * a + r);
  }

  /** Scaling dividend and divisor keeps the quotient and scales the remainder. */
  lemma DivScaled(x: int, y: int, k: int)
    requires 0 < y && 0 < k
    ensures 0 < y * k
    ensures (x * k) / (y * k) == x / y && (x * k) % (y * k) == (x % y) * k
  {
    var q, r := x / y, x % y;
    DivMod(x, y);
    MulLe(1, y, k);
    MulAdd(q * y, r, k);
    MulAssoc(q, y, k);
    MulLe(0, r, k);
    MulLt(r, y, k);
    DivModUnique(x * k, y * k, q, r * k);
  }

  lemma DivExact(q: int, d: int)
    requires 0 < d
    ensures (q * d) / d == q && (q * d) % d == 0
  {
    DivModUnique(q * d, d, q, 0);
  }
}
