/** The saturation and multiplication primitives of arm_math.h. Signed values are integers,
    `>>` on them is floor division, and a cast keeps the low bits in two's complement. */
module FixedPoint {
  import opened Bits

  function ToSigned8(x: int): int { (x + 0x80) % 0x100 - 0x80 }

  function ToSigned16(x: int): int { (x + 0x8000) % 0x1_0000 - 0x8000 }

  /** Like the 32-bit view, these keep the residue and have the range of their width. */
  lemma SameResidues(x: int)
    ensures -0x80 <= ToSigned8(x) <= 0x7F && (ToSigned8(x) - x) % 0x100 == 0
    ensures -0x8000 <= ToSigned16(x) <= 0x7FFF && (ToSigned16(x) - x) % 0x1_0000 == 0
  {
    DivModUnique(ToSigned8(x) - x, 0x100, -((x + 0x80) / 0x100), 0);
    DivModUnique(ToSigned16(x) - x, 0x1_0000, -((x + 0x8000) / 0x1_0000), 0);
  }

  /** XOR with a word of all zeros or all ones. */
  function XorSign(x: int, sign: int): int
    requires sign == 0 || sign == -1
  {
    if sign == 0 then x else -1 - x
  }

  function ClipQ63ToQ31(x: int): int
    requires Int64(x)
  {
    if ToSigned32(x / 0x1_0000_0000) != ToSigned32(x) / 0x8000_0000
    then XorSign(0x7FFF_FFFF, x / 0x8000_0000_0000_0000)
    else ToSigned32(x)
  }

  function ClipQ31ToQ15(x: int): int
    requires Int32(x)
  {
    if x / 0x1_0000 != x / 0x8000 then XorSign(0x7FFF, x / 0x8000_0000) else ToSigned16(x)
  }

  /** The source shifts by 24 and 23 here, where 8 and 7 would test the eight-bit range. */
  function ClipQ31ToQ7(x: int): int
    requires Int32(x)
  {
    if x / 0x100_0000 != x / 0x80_0000 then XorSign(0x7F, x / 0x8000_0000) else ToSigned8(x)
  }

  lemma ClipQ63ToQ31IsClamp(x: int)
    requires Int64(x)
    ensures ClipQ63ToQ31(x) == Clamp(x, -0x8000_0000, 0x7FFF_FFFF)
  {
  }

  lemma ClipQ31ToQ15IsClamp(x: int)
    requires Int32(x)
    ensures ClipQ31ToQ15(x) == Clamp(x, -0x8000, 0x7FFF)
  {
  }

  /** The q7 clip clamps exactly on values that already fit, on values beyond 24 bits, and on
      those in between whose low byte happens to be the bound. */
  lemma ClipQ31ToQ7ClampsExactly(x: int)
    requires Int32(x)
    ensures ClipQ31ToQ7(x) == Clamp(x, -0x80, 0x7F) <==>
      || -0x80 <= x < 0x80
      || x < -0x80_0000 || x >= 0x80_0000
      || (x >= 0x80 && x % 0x100 == 0x7F)
      || (x < -0x80 && x % 0x100 == 0x80)
  {
    ShiftTest(x);
    LowByte(x);
    hide ToSigned8;
    if -0x80_0000 <= x < 0x80_0000 {
      assert ClipQ31ToQ7(x) == ToSigned8(x);
    }
  }

  /** The comparison of two neighbouring shifts tests 24 bits, and the sign word is all zeros or ones. */
  lemma ShiftTest(x: int)
    requires Int32(x)
    ensures x / 0x100_0000 == x / 0x80_0000 <==> -0x80_0000 <= x < 0x80_0000
    ensures x / 0x8000_0000 == if x < 0 then -1 else 0
  {
    var h, r := x / 0x100_0000, x % 0x100_0000;
    if r < 0x80_0000 {
      DivModUnique(x, 0x80_0000, 2 * h, r);
    } else {
      DivModUnique(x, 0x80_0000, 2 * h + 1, r - 0x80_0000);
    }
    DivModUnique(x, 0x8000_0000, if x < 0 then -1 else 0, if x < 0 then x + 0x8000_0000 else x);
  }

  lemma LowByte(x: int)
    ensures ToSigned8(x) == if x % 0x100 < 0x80 then x % 0x100 else x % 0x100 - 0x100
    ensures 0 <= x < 0x80 ==> x % 0x100 == x
    ensures -0x80 <= x < 0 ==> x % 0x100 == x + 0x100
  {
    var h, b := x / 0x100, x % 0x100;
    if b < 0x80 {
      DivModUnique(x + 0x80, 0x100, h, b + 0x80);
    } else {
      DivModUnique(x + 0x80, 0x100, h + 1, b - 0x80);
    }
  }

  lemma ClipQ31ToQ7Wraps()
    ensures ClipQ31ToQ7(200) == -56
  {
  }

  /** The 32x64-bit product in two halves, with the low half taken as unsigned. */
  function Mult32x64(x: int, y: int): int
    requires Int64(x) && Int32(y)
  {
    x % 0x1_0000_0000 * y / 0x1_0000_0000 + x / 0x1_0000_0000 * y
  }

  lemma ProductBound(a: int, b: int, m: int, n: int)
    requires -m <= a <= m && -n <= b <= n
    ensures -(m * n) <= a * b <= m * n
  {
    if 0 <= a {
      MulMono(a, b, n);
      MulMono(a, -n, b);
      MulMono(n, a, m);
      NegatedFactor(a, n);
    } else {
      MulMono(-a, b, n);
      MulMono(-a, -n, b);
      MulMono(n, -a, m);
      NegatedFactor(-a, n);
      NegatedFactor(b, a);
    }
  }

  lemma NegatedFactor(x: int, y: int)
    ensures x * -y == -(x * y) && -y * x == -(x * y)
  {
  }

  /** Both partial products and the sum fit in 64 bits, and the result is the exact floor. */
  lemma Mult32x64IsFloor(x: int, y: int)
    requires Int64(x) && Int32(y)
    ensures Int64(x % 0x1_0000_0000 * y) && Int64(x / 0x1_0000_0000 * y)
    ensures Mult32x64(x, y) == x * y / 0x1_0000_0000 && Int64(Mult32x64(x, y))
  {
    var low, high := x % 0x1_0000_0000, x / 0x1_0000_0000;
    ProductBound(low, y, 0xFFFF_FFFF, 0x8000_0000);
    ProductBound(high, y, 0x8000_0000, 0x8000_0000);
    assert x * y == 0x1_0000_0000 * (high * y) + low * y by {
      Distribute(high, low, y);
    }
    var p := low * y;
    DivModUnique(x * y, 0x1_0000_0000, high * y + p / 0x1_0000_0000, p % 0x1_0000_0000);
  }

  lemma Distribute(high: int, low: int, y: int)
    ensures (0x1_0000_0000 * high + low) * y == 0x1_0000_0000 * (high * y) + low * y
  {
  }

  function QAdd(x: int, y: int): int
    requires Int32(x) && Int32(y)
  {
    ClipQ63ToQ31(x + y)
  }

  function QSub(x: int, y: int): int
    requires Int32(x) && Int32(y)
  {
    ClipQ63ToQ31(x - y)
  }

  /** So the saturating sum and difference are the clamped ones. */
  lemma SumsSaturate(x: int, y: int)
    requires Int32(x) && Int32(y)
    ensures QAdd(x, y) == Clamp(x + y, -0x8000_0000, 0x7FFF_FFFF)
    ensures QSub(x, y) == Clamp(x - y, -0x8000_0000, 0x7FFF_FFFF)
  {
    hide ClipQ63ToQ31;
    ClipQ63ToQ31IsClamp(x + y);
    ClipQ63ToQ31IsClamp(x - y);
  }
}
