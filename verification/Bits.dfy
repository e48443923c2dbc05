/** Machine words as numbers: bitwise operations on naturals, and two's complement views. */
module Bits {

  type Byte = b: int | 0 <= b < 256

  function Pow2(n: nat): (p: nat)
    ensures p >= 1
  {
    if n == 0 then 1 else 2 * Pow2(n - 1)
  }

  function And(a: nat, b: nat): nat {
    if a == 0 || b == 0 then 0
    else 2 * And(a / 2, b / 2) + (if a % 2 == 1 && b % 2 == 1 then 1 else 0)
  }

  function Or(a: nat, b: nat): nat {
    if a == 0 then b
    else if b == 0 then a
    else 2 * Or(a / 2, b / 2) + (if a % 2 == 1 || b % 2 == 1 then 1 else 0)
  }

  /** `x << n` before any truncation, and `x >> n` on an unsigned value. */
  function Shl(x: nat, n: nat): nat
    decreases n
  {
    if n == 0 then x else 2 * Shl(x, n - 1)
  }

  function Shr(x: nat, n: nat): nat
    decreases n
  {
    if n == 0 then x else Shr(x / 2, n - 1)
  }

  /** The 32-bit pattern of an integer, and the signed reading of a pattern. */
  function ToUnsigned32(x: int): (r: nat)
    ensures r < 0x1_0000_0000
  {
    x % 0x1_0000_0000
  }

  function ToSigned32(x: int): (r: int)
    ensures Int32(r)
  {
    (x + 0x8000_0000) % 0x1_0000_0000 - 0x8000_0000
  }

  /** Both views keep the residue modulo 2^32, which with their ranges fixes them. */
  lemma SameResidue(x: int)
    ensures (ToSigned32(x) - x) % 0x1_0000_0000 == 0 && (ToUnsigned32(x) - x) % 0x1_0000_0000 == 0
  {
    DivModUnique(ToSigned32(x) - x, 0x1_0000_0000, -((x + 0x8000_0000) / 0x1_0000_0000), 0);
    DivModUnique(ToUnsigned32(x) - x, 0x1_0000_0000, -(x / 0x1_0000_0000), 0);
  }

  lemma SignedFits(x: int)
    requires Int32(x)
    ensures ToSigned32(x) == x
  {
  }

  /** Wrapping a partial sum does not change the wrapped total. */
  lemma WrapSum(a: int, b: int)
    ensures ToSigned32(ToSigned32(a) + b) == ToSigned32(a + b)
  {
  }

  predicate Int32(x: int) { -0x8000_0000 <= x < 0x8000_0000 }

  predicate Int64(x: int) { -0x8000_0000_0000_0000 <= x < 0x8000_0000_0000_0000 }

  function Clamp(x: int, low: int, high: int): (r: int)
    requires low <= high
    ensures low <= r <= high
    ensures x <= low ==> r == low
    ensures x >= high ==> r == high
    ensures low <= x <= high ==> r == x
  {
    if x < low then low else if x > high then high else x
  }

  lemma Pow2Sum(m: nat, n: nat)
    ensures Pow2(m + n) == Pow2(m) * Pow2(n)
  {
    if m > 0 {
      Pow2Sum(m - 1, n);
      DoubledLeft(Pow2(m - 1), Pow2(n));
    }
  }

  lemma DoubledLeft(x: int, y: int)
    ensures (2 * x) * y == 2 * (x * y)
  {
  }

  lemma Pow2Values()
    ensures Pow2(4) == 0x10 && Pow2(6) == 0x40 && Pow2(8) == 0x100 && Pow2(10) == 0x400
    ensures Pow2(12) == 0x1000 && Pow2(16) == 0x1_0000 && Pow2(20) == 0x10_0000
    ensures Pow2(22) == 0x40_0000 && Pow2(24) == 0x100_0000 && Pow2(32) == 0x1_0000_0000
  {
    assert Pow2(2) == 2 * Pow2(1);
    assert Pow2(4) == 2 * Pow2(3);
    Pow2Sum(2, 4);
    Pow2Sum(4, 4);
    Pow2Sum(2, 8);
    Pow2Sum(4, 8);
    Pow2Sum(8, 8);
    Pow2Sum(4, 16);
    Pow2Sum(2, 20);
    Pow2Sum(8, 16);
    Pow2Sum(16, 16);
  }

  // ---- division ------------------------------------------------------------------------------

  lemma MulMono(x: int, a: int, b: int)
    requires 0 <= x && a <= b
    ensures x * a <= x * b
  {
  }

  lemma ProductSmall(d: int, k: int)
    requires d > 0 && -d < d * k < d
    ensures k == 0
  {
  }

  lemma DivModUnique(a: int, d: int, q: int, r: int)
    requires d > 0 && a == d * q + r && 0 <= r < d
    ensures a / d == q && a % d == r
  {
    var q', r' := a / d, a % d;
    assert a == d * q' + r';
    assert d * (q' - q) == r - r' by {
      assert d * (q' - q) == d * q' - d * q;
    }
    ProductSmall(d, q' - q);
  }

  lemma HalfDiv(a: nat, p: nat)
    requires p > 0
    ensures a / (2 * p) == a / 2 / p
    ensures a % (2 * p) == 2 * (a / 2 % p) + a % 2
  {
    var q, r := a / 2 / p, a / 2 % p;
    assert a / 2 == p * q + r;
    assert 2 * (p * q) == (2 * p) * q;
    DivModUnique(a, 2 * p, q, 2 * r + a % 2);
  }

  // ---- masks ---------------------------------------------------------------------------------

  lemma ShlIsProduct(x: nat, n: nat)
    ensures Shl(x, n) == x * Pow2(n)
  {
    if n > 0 {
      ShlIsProduct(x, n - 1);
      Doubled(x, Pow2(n - 1));
    }
  }

  lemma Doubled(x: int, y: int)
    ensures x * (2 * y) == 2 * (x * y)
  {
  }

  lemma {:induction false} ShrIsQuotient(x: nat, n: nat)
    ensures Shr(x, n) == x / Pow2(n)
  {
    if n > 0 {
      ShrIsQuotient(x / 2, n - 1);
      HalfDiv(x, Pow2(n - 1));
    }
  }

  /** Bit `k` of a conjunction and of a disjunction. */
  lemma {:induction false} BitOfAnd(a: nat, b: nat, k: nat)
    ensures Shr(And(a, b), k) % 2 == 1 <==> Shr(a, k) % 2 == 1 && Shr(b, k) % 2 == 1
    decreases k
  {
    AndStep(a, b);
    if k > 0 {
      hide And;
      BitOfAnd(a / 2, b / 2, k - 1);
    }
  }

  lemma AndStep(a: nat, b: nat)
    ensures And(a, b) % 2 == 1 <==> a % 2 == 1 && b % 2 == 1
    ensures And(a, b) / 2 == And(a / 2, b / 2)
  {
  }

  lemma {:induction false} BitOfOr(a: nat, b: nat, k: nat)
    ensures Shr(Or(a, b), k) % 2 == 1 <==> Shr(a, k) % 2 == 1 || Shr(b, k) % 2 == 1
    decreases k
  {
    OrStep(a, b);
    if k > 0 {
      hide Or;
      BitOfOr(a / 2, b / 2, k - 1);
    }
  }

  lemma OrStep(a: nat, b: nat)
    ensures Or(a, b) % 2 == 1 <==> a % 2 == 1 || b % 2 == 1
    ensures Or(a, b) / 2 == Or(a / 2, b / 2)
  {
  }

  lemma ShrZero(k: nat)
    ensures Shr(0, k) == 0
  {
  }

  /** Joining a high part and a low part that do not overlap. */
  lemma {:induction false} OrJoins(high: nat, low: nat, n: nat)
    requires low < Pow2(n)
    ensures Or(Shl(high, n), low) == Shl(high, n) + low
  {
    if n > 0 {
      OrJoins(high, low / 2, n - 1);
    }
  }

  lemma AndEven(a: nat, b: nat)
    ensures And(a, 2 * b) == 2 * And(a / 2, b)
  {
    DivModUnique(2 * b, 2, b, 0);
  }

  lemma AndOdd(a: nat, b: nat)
    ensures And(a, 2 * b + 1) == 2 * And(a / 2, b) + a % 2
  {
    DivModUnique(2 * b + 1, 2, b, 1);
    if b == 0 {
      assert And(a / 2, 0) == 0;
    }
  }

  lemma AndLowStep(a: nat, p: nat)
    requires p > 0 && And(a / 2, p - 1) == a / 2 % p
    ensures And(a, 2 * p - 1) == a % (2 * p)
  {
    hide And;
    AndOdd(a, p - 1);
    HalfDiv(a, p);
    assert 2 * p - 1 == 2 * (p - 1) + 1;
  }

  lemma {:induction false} AndLow(a: nat, n: nat)
    ensures And(a, Pow2(n) - 1) == a % Pow2(n)
  {
    if n == 0 {
      DivModUnique(a, 1, a, 0);
    } else {
      hide And;
      AndLow(a / 2, n - 1);
      AndLowStep(a, Pow2(n - 1));
    }
  }

  /** A mask shifted up by `n` bits acts on the operand shifted down by `n` bits. */
  lemma {:induction false} AndShifted(a: nat, mask: nat, n: nat)
    ensures And(a, Shl(mask, n)) == Shl(And(Shr(a, n), mask), n)
  {
    if n > 0 {
      AndEven(a, Shl(mask, n - 1));
      AndShifted(a / 2, mask, n - 1);
    }
  }

  /** `a & (((1 << k) - 1) << n)` keeps the `k`-bit field at bit `n` in place. */
  lemma AndField(a: nat, n: nat, k: nat)
    ensures And(a, Shl(Pow2(k) - 1, n)) == a / Pow2(n) % Pow2(k) * Pow2(n)
  {
    AndShifted(a, Pow2(k) - 1, n);
    AndLow(Shr(a, n), k);
    ShrIsQuotient(a, n);
    ShlIsProduct(a / Pow2(n) % Pow2(k), n);
  }

  lemma QuotientBelow(a: nat, p: nat, q: nat)
    requires p > 0 && a < q * p
    ensures a / p % q == a / p
  {
    var k, r := a / p, a % p;
    assert a == p * k + r;
    if q <= k {
      MulMono(p, q, k);
    }
    DivModUnique(k, q, 0, k);
  }

  /** `(a & mask) | low`, where the mask keeps the bits from `n` up. */
  lemma MaskJoins(a: nat, low: nat, n: nat, p: nat, mask: nat)
    requires n <= 32 && a < 0x1_0000_0000 && p == Pow2(n) && Pow2(32 - n) * p == 0x1_0000_0000
    requires mask == 0x1_0000_0000 - p && low < p
    ensures Or(And(a, mask), low) == a / p * p + low
  {
    hide And, Or, Shl, Pow2;
    var q := Pow2(32 - n);
    ShlIsProduct(q - 1, n);
    assert mask == (q - 1) * p by {
      assert (q - 1) * p == q * p - p;
    }
    AndField(a, n, 32 - n);
    QuotientBelow(a, p, q);
    ShlIsProduct(a / p, n);
    OrJoins(a / p, low, n);
  }

  /** The two parts of a word around bit `n`, as masks with `p == 2^n`. */
  lemma MaskParts(a: nat, n: nat, p: nat)
    requires n <= 32 && a < 0x1_0000_0000 && p == Pow2(n) && Pow2(32 - n) * p == 0x1_0000_0000
    ensures And(a, p - 1) == a % p && And(a, 0x1_0000_0000 - p) == a / p * p
  {
    hide And, Or, Pow2;
    AndLow(a, n);
    MaskJoins(a, 0, n, p, 0x1_0000_0000 - p);
    OrZero(And(a, 0x1_0000_0000 - p));
  }

  lemma OrZero(a: nat)
    ensures Or(a, 0) == a
  {
  }
}
