/**
 Fixed-width integer arithmetic as the C code uses it: the overflow checks of
 libks/arithmetic.c, and the shifts and masks of the hash table and the arena.
 Bitwise operations are defined on natural numbers, digit by digit.
 */
module Arithmetic {

  const U32: nat := 0x1_0000_0000
  const SIZE_MAX: nat := 0xffff_ffff_ffff_ffff

  /** Outcome of a checked operation: overflow reported, or the stored result. */
  datatype Checked = Overflow | Value(v: int)

  /** C division: the quotient is truncated toward zero. */
  function TruncDiv(a: int, b: int): int
    requires b != 0
  {
    if (a < 0) == (b < 0) then Abs(a) / Abs(b) else -(Abs(a) / Abs(b))
  }

  function Abs(a: int): nat {
    if a < 0 then -a else a
  }

  function SignedAdd(max: int, min: int, a: int, b: int): (r: Checked)
    requires min == -max - 1 <= a <= max && min <= b <= max
    ensures r == if min <= a + b <= max then Value(a + b) else Overflow
  {
    if (b > 0 && a > max - b) || (b < 0 && a < min - b) then Overflow else Value(a + b)
  }

  function SignedSub(max: int, min: int, a: int, b: int): (r: Checked)
    requires min == -max - 1 <= a <= max && min <= b <= max
    ensures r == if min <= a - b <= max then Value(a - b) else Overflow
  {
    if (b > 0 && a < min + b) || (b < 0 && a > max + b) then Overflow else Value(a - b)
  }

  /** A product exceeds a bound exactly when one factor exceeds the truncated quotient. */
  lemma ProductBound(bound: nat, a: nat, b: nat)
    requires a > 0
    ensures a * b > bound <==> b > bound / a
  {
    DivMod(bound, a);
    if b > bound / a {
      StrictMul(bound / a, b, a);
    } else if b < bound / a {
      StrictMul(b, bound / a, a);
    }
  }

  function SignedMul(max: int, min: int, a: int, b: int): (r: Checked)
    requires 0 < max && min == -max - 1 <= a <= max && min <= b <= max
    ensures r == if min <= a * b <= max then Value(a * b) else Overflow
  {
    SignOfProduct(a, b);
    QuotientGuards(max, a, b);
    if a > 0 && b > 0 && a > TruncDiv(max, b) then Overflow
    else if a > 0 && b < 0 && b < TruncDiv(min, a) then Overflow
    else if a < 0 && b > 0 && a < TruncDiv(min, b) then Overflow
    else if a < 0 && b < 0 && b < TruncDiv(max, a) then Overflow
    else Value(a * b)
  }

  lemma QuotientGuards(max: int, a: int, b: int)
    requires 0 < max
    ensures a > 0 && b > 0 ==> (a > TruncDiv(max, b) <==> a * b > max)
    ensures a > 0 && b < 0 ==> (b < TruncDiv(-max - 1, a) <==> a * b < -max - 1)
    ensures a < 0 && b > 0 ==> (a < TruncDiv(-max - 1, b) <==> a * b < -max - 1)
    ensures a < 0 && b < 0 ==> (b < TruncDiv(max, a) <==> a * b > max)
  {
    if a > 0 && b > 0 {
      ProductBound(max, b, a);
    } else if a > 0 && b < 0 {
      ProductBound(max + 1, a, -b);
      assert a * -b == -(a * b);
    } else if a < 0 && b > 0 {
      ProductBound(max + 1, b, -a);
      assert b * -a == -(a * b);
    } else if a < 0 && b < 0 {
      ProductBound(max, -a, -b);
      assert -a * -b == a * b;
    }
  }

  lemma SignOfProduct(a: int, b: int)
    ensures (a > 0 && b > 0) || (a < 0 && b < 0) ==> a * b > 0
    ensures (a > 0 && b < 0) || (a < 0 && b > 0) ==> a * b < 0
    ensures a == 0 || b == 0 ==> a * b == 0
  {
    if a < 0 && b < 0 {
      assert a * b == (-a) * (-b);
    } else if a > 0 && b < 0 {
      assert a * b == -(a * -b);
    } else if a < 0 && b > 0 {
      assert a * b == -(-a * b);
    }
  }

  function UnsignedAdd(max: nat, a: nat, b: nat): (r: Checked)
    requires a <= max && b <= max
    ensures r == if a + b <= max then Value(a + b) else Overflow
  {
    if a > max - b then Overflow else Value(a + b)
  }

  function UnsignedSub(max: nat, a: nat, b: nat): (r: Checked)
    requires a <= max && b <= max
    ensures r == if a - b >= 0 then Value(a - b) else Overflow
  {
    if b > a then Overflow else Value(a - b)
  }

  /** The divisor is the second operand, which the macro does not guard against zero. */
  function UnsignedMul(max: nat, a: nat, b: nat): (r: Checked)
    requires a <= max && 0 < b <= max
    ensures r == if a * b <= max then Value(a * b) else Overflow
  {
    ProductBound(max, b, a);
    if a > max / b then Overflow else Value(a * b)
  }

  function Pow2(k: nat): (p: nat)
    ensures p > 0
    ensures k > 0 ==> p % 2 == 0
  {
    if k == 0 then 1 else 2 * Pow2(k - 1)
  }

  /** a & b */
  function BitAnd(a: nat, b: nat): (r: nat)
    decreases b
    ensures r <= b
  {
    if b == 0 then 0
    else 2 * BitAnd(a / 2, b / 2) + if a % 2 == 1 && b % 2 == 1 then 1 else 0
  }

  /** a >> k */
  function ShiftRight(a: nat, k: nat): nat {
    if k == 0 then a else ShiftRight(a / 2, k - 1)
  }

  lemma {:induction false} ShiftIsDivision(a: nat, k: nat)
    ensures ShiftRight(a, k) == a / Pow2(k)
  {
    if k == 0 {
    } else {
      var m := Pow2(k - 1);
      ShiftIsDivision(a / 2, k - 1);
      DivMod(a / 2, m);
      var q, r := (a / 2) / m, (a / 2) % m;
      MulTwice(q, m);
      ModUnique(a, 2 * m, q, 2 * r + a % 2);
    }
  }

  /** Masking with 2^k - 1 keeps the remainder modulo 2^k. */
  lemma {:induction false} MaskIsMod(a: nat, k: nat)
    ensures BitAnd(a, Pow2(k) - 1) == a % Pow2(k)
  {
    if k == 0 {
    } else {
      var m := Pow2(k - 1);
      MaskIsMod(a / 2, k - 1);
      HalveMod(a, m);
      assert (Pow2(k) - 1) / 2 == m - 1 && (Pow2(k) - 1) % 2 == 1;
    }
  }

  /** Masking with 2^n - 2^k rounds an n-bit number down to a multiple of 2^k. */
  lemma {:induction false} MaskIsRoundDown(a: nat, n: nat, k: nat)
    requires k <= n && a < Pow2(n)
    ensures Pow2(k) <= Pow2(n)
    ensures BitAnd(a, Pow2(n) - Pow2(k)) == a - a % Pow2(k)
    decreases k
  {
    hide *;
    Pow2Monotone(k, n);
    if k == 0 {
      RoundDownNone(a, n);
    } else {
      var p, q := Pow2(n - 1), Pow2(k - 1);
      Pow2Next(n - 1);
      Pow2Next(k - 1);
      Pow2Monotone(k - 1, n - 1);
      MaskIsRoundDown(a / 2, n - 1, k - 1);
      RoundDownStep(a, p, q, Pow2(n), Pow2(k));
    }
  }

  lemma Pow2Next(k: nat)
    ensures Pow2(k + 1) == 2 * Pow2(k)
  {}

  lemma RoundDownNone(a: nat, n: nat)
    requires a < Pow2(n)
    ensures BitAnd(a, Pow2(n) - Pow2(0)) == a - a % Pow2(0)
  {
    MaskIsMod(a, n);
    ModUnique(a, Pow2(n), 0, a);
  }

  lemma RoundDownStep(a: nat, p: nat, q: nat, p2: nat, q2: nat)
    requires 0 < q <= p && BitAnd(a / 2, p - q) == a / 2 - (a / 2) % q && p2 == 2 * p && q2 == 2 * q
    ensures BitAnd(a, p2 - q2) == a - a % q2
  {
    hide BitAnd;
    HalveMod(a, q);
    BitAndEven(a, p - q);
    assert 2 * (p - q) == p2 - q2;
    Halves(a, (a / 2) % q, a % q2);
  }

  lemma Halves(a: nat, r: nat, s: nat)
    requires s == 2 * r + a % 2
    ensures 2 * (a / 2 - r) == a - s
  {}

  lemma BitAndEven(a: nat, m: nat)
    ensures BitAnd(a, 2 * m) == 2 * BitAnd(a / 2, m)
  {
    assert (2 * m) / 2 == m && (2 * m) % 2 == 0;
  }

  lemma Pow2Monotone(k: nat, n: nat)
    requires k <= n
    ensures Pow2(k) <= Pow2(n)
    decreases n
  {
    if k < n { Pow2Monotone(k, n - 1); }
  }

  lemma HalveMod(a: nat, m: nat)
    requires m > 0
    ensures a % (2 * m) == 2 * ((a / 2) % m) + a % 2
  {
    DivMod(a / 2, m);
    var q, r := (a / 2) / m, (a / 2) % m;
    MulTwice(q, m);
    ModUnique(a, 2 * m, q, 2 * r + a % 2);
  }

  lemma ModUnique(a: nat, m: nat, q: nat, r: nat)
    requires r < m && a == q * m + r
    ensures a / m == q && a % m == r
  {
    DivMod(a, m);
    if a / m < q { StrictMul(a / m, q, m); }
    if a / m > q { StrictMul(q, a / m, m); }
  }

  lemma MulTwice(q: nat, m: nat)
    ensures q * (2 * m) == 2 * (q * m)
  {}

  lemma DivMod(a: nat, m: nat)
    requires m > 0
    ensures a == (a / m) * m + a % m && 0 <= a % m < m && 0 <= a / m
  {}

  lemma StrictMul(x: int, y: int, m: nat)
    requires x < y
    ensures x * m + m <= y * m
    decreases y - x
  {
    if x + 1 < y { StrictMul(x, y - 1, m); }
    assert y * m == (y - 1) * m + m;
  }

  /** Modulo 2n a number is what it is modulo n, or that plus n. */
  lemma DoubledMod(a: nat, n: nat)
    requires n > 0
    ensures a % (2 * n) == a % n || a % (2 * n) == a % n + n
    ensures (a % (2 * n)) % n == a % n
  {
    DivMod(a, 2 * n);
    var q, r := a / (2 * n), a % (2 * n);
    assert q * (2 * n) == (2 * q) * n;
    if r < n {
      ModUnique(a, n, 2 * q, r);
      ModUnique(r, n, 0, r);
    } else {
      assert (2 * q + 1) * n == (2 * q) * n + n;
      ModUnique(a, n, 2 * q + 1, r - n);
      ModUnique(r, n, 1, r - n);
    }
  }

  /** Quotient plus one for a nonzero remainder is the quotient rounded up. */
  lemma CeilingDivision(a: nat, m: nat)
    requires m > 0
    ensures a / m + (if a % m != 0 then 1 else 0) == (a + m - 1) / m
    ensures a > 0 ==> (a + m - 1) / m > 0
  {
    DivMod(a, m);
    var q, r := a / m, a % m;
    if r == 0 {
      ModUnique(a + m - 1, m, q, m - 1);
    } else {
      assert (q + 1) * m == q * m + m;
      ModUnique(a + m - 1, m, q + 1, r - 1);
    }
    if q == 0 { assert q * m == 0; }
  }

  /** A 32-bit counter of n things, counted up and down. */
  lemma Counting(n: nat)
    ensures (n % U32 + 1) % U32 == (n + 1) % U32
    ensures n > 0 ==> (n % U32 + U32 - 1) % U32 == (n - 1) % U32
  {
    DivMod(n, U32);
    var q, r := n / U32, n % U32;
    if r + 1 < U32 {
      ModUnique(n + 1, U32, q, r + 1);
      ModUnique(r + 1, U32, 0, r + 1);
    } else {
      ModUnique(n + 1, U32, q + 1, 0);
      ModUnique(r + 1, U32, 1, 0);
    }
    if n > 0 {
      if r > 0 {
        ModUnique(n - 1, U32, q, r - 1);
        ModUnique(r + U32 - 1, U32, 1, r - 1);
      } else {
        ModUnique(n - 1, U32, q - 1, U32 - 1);
        ModUnique(r + U32 - 1, U32, 0, U32 - 1);
      }
    }
  }
}
