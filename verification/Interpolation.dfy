/** arm_linear_interp_q31: table interpolation with a 12.20 argument. */
module Interpolation {
  import opened Bits
  import opened FixedPoint

  const Q31 := 0x8000_0000

  ghost predicate Table(t: seq<int>) {
    0 < |t| <= Q31 && forall k :: 0 <= k < |t| ==> Int32(t[k])
  }

  function Index(x: int): int { ToSigned32(And(ToUnsigned32(x), 0xFFF0_0000)) / 0x10_0000 }

  function Fraction(x: int): nat { And(ToUnsigned32(x), 0xF_FFFF) * 0x800 }

  /** The source's blend, with each cast and the final doubling in 32 bits. */
  function Blend(y0: int, y1: int, f: int): int {
    var y := ToSigned32(y0 * (0x7FFF_FFFF - f) / 0x1_0000_0000);
    ToSigned32(ToSigned32(y + ToSigned32(y1 * f / 0x1_0000_0000)) * 2)
  }

  /** The table length is at most what a 32-bit address space holds. */
  function LinearInterpQ31(t: seq<int>, x: int): int
    requires Table(t) && Int32(x)
  {
    hide Index, Fraction, Blend;
    SplitArgument(x);
    SignedFits(|t| - 1);
    if Index(x) >= ToSigned32(|t| - 1) then t[|t| - 1]
    else if Index(x) < 0 then t[0]
    else Blend(t[Index(x)], t[Index(x) + 1], Fraction(x))
  }

  lemma SplitArgument(x: int)
    requires Int32(x)
    ensures Index(x) == x / 0x10_0000 && Fraction(x) == x % 0x10_0000 * 0x800
  {
    hide And, Pow2, ToUnsigned32, ToSigned32;
    Pow2Values();
    MaskParts(ToUnsigned32(x), 20, 0x10_0000);
    TopPart(x);
  }

  lemma TopPart(x: int)
    requires Int32(x)
    ensures var u := ToUnsigned32(x);
      u % 0x10_0000 == x % 0x10_0000 && ToSigned32(u / 0x10_0000 * 0x10_0000) / 0x10_0000 == x / 0x10_0000
  {
    var q, r := x / 0x10_0000, x % 0x10_0000;
    var h := if x >= 0 then q else q + 0x1000;
    DivModUnique(x, 0x1_0000_0000, if x >= 0 then 0 else -1, h * 0x10_0000 + r);
    DivModUnique(h * 0x10_0000 + r, 0x10_0000, h, r);
    DivModUnique(h * 0x10_0000 + 0x8000_0000, 0x1_0000_0000, if x >= 0 then 0 else 1, q * 0x10_0000 + 0x8000_0000);
    DivModUnique(q * 0x10_0000, 0x10_0000, q, 0);
  }

  /** No product, sum or doubling leaves its type, and the result is within five units below and
      one unit above the exact interpolation (here multiplied out by 2^31). The doubling fits at
      the lower end only because the fraction is even. */
  lemma BlendIsAccurate(y0: int, y1: int, f: int)
    requires Int32(y0) && Int32(y1) && 0 <= f < Q31 && f % 2 == 0
    ensures var a, b := y0 * (0x7FFF_FFFF - f) / 0x1_0000_0000, y1 * f / 0x1_0000_0000;
      Int32(a) && Int32(b) && Int32(a + b) && Int32(2 * (a + b)) && Blend(y0, y1, f) == 2 * (a + b)
    ensures -5 * Q31 < Q31 * Blend(y0, y1, f) - (y0 * (Q31 - f) + y1 * f) <= Q31
  {
    hide ToSigned32;
    var w := 0x7FFF_FFFF - f;
    var p, q := y0 * w, y1 * f;
    MulMono(w, -Q31, y0);
    MulMono(w, y0, Q31 - 1);
    MulMono(f, -Q31, y1);
    MulMono(f, y1, Q31 - 1);
    BlendRange(p, q, f);
    var a, b := p / 0x1_0000_0000, q / 0x1_0000_0000;
    SignedFits(a);
    SignedFits(b);
    SignedFits(a + b);
    SignedFits(2 * (a + b));
    Weights(y0, f);
    BlendError(p, q, y0);
  }

  lemma Weights(y0: int, f: int)
    ensures y0 * (Q31 - f) == y0 * (0x7FFF_FFFF - f) + y0
  {
  }

  lemma BlendError(p: int, q: int, y0: int)
    requires Int32(y0)
    ensures -5 * Q31 < Q31 * (2 * (p / 0x1_0000_0000 + q / 0x1_0000_0000)) - (p + y0 + q) <= Q31
  {
  }

  lemma BlendRange(p: int, q: int, f: int)
    requires 0 <= f < Q31 && f % 2 == 0
    requires (0x7FFF_FFFF - f) * -Q31 <= p <= (0x7FFF_FFFF - f) * (Q31 - 1)
    requires f * -Q31 <= q <= f * (Q31 - 1)
    ensures var a, b := p / 0x1_0000_0000, q / 0x1_0000_0000;
      -0x4000_0000 <= a + b < 0x4000_0000 && Int32(a) && Int32(b)
  {
  }

  /** Reads stay in the table for every argument: the ends clamp, and in between the result is
      the blend of two neighbours, with its accuracy bound, hence between them up to five units. */
  lemma InterpolationIsAccurate(t: seq<int>, x: int)
    requires Table(t) && Int32(x)
    ensures x >= (|t| - 1) * 0x10_0000 ==> LinearInterpQ31(t, x) == t[|t| - 1]
    ensures x < 0 ==> LinearInterpQ31(t, x) == t[0]
    ensures 0 <= x < (|t| - 1) * 0x10_0000 ==>
      var y0, y1, f := t[x / 0x10_0000], t[x / 0x10_0000 + 1], x % 0x10_0000 * 0x800;
      var r := LinearInterpQ31(t, x);
      && -5 * Q31 < Q31 * r - (y0 * (Q31 - f) + y1 * f) <= Q31
      && (if y0 < y1 then y0 else y1) - 5 < r <= (if y0 < y1 then y1 else y0) + 1
  {
    hide Index, Fraction, Blend, ToSigned32;
    SplitArgument(x);
    SignedFits(|t| - 1);
    if 0 <= x < (|t| - 1) * 0x10_0000 {
      var y0, y1, f := t[x / 0x10_0000], t[x / 0x10_0000 + 1], x % 0x10_0000 * 0x800;
      FractionEven(x % 0x10_0000);
      BlendIsAccurate(y0, y1, f);
      Between(y0, y1, f, Blend(y0, y1, f));
    }
  }

  lemma FractionEven(k: nat)
    ensures k * 0x800 % 2 == 0
  {
    DivModUnique(k * 0x800, 2, k * 0x400, 0);
  }

  lemma Between(y0: int, y1: int, f: int, r: int)
    requires 0 <= f < Q31 && -5 * Q31 < Q31 * r - (y0 * (Q31 - f) + y1 * f) <= Q31
    ensures (if y0 < y1 then y0 else y1) - 5 < r <= (if y0 < y1 then y1 else y0) + 1
  {
    var low, high := if y0 < y1 then y0 else y1, if y0 < y1 then y1 else y0;
    MulMono(Q31 - f, low, y0);
    MulMono(Q31 - f, y0, high);
    MulMono(f, low, y1);
    MulMono(f, y1, high);
    Convex(low, f);
    Convex(high, f);
  }

  lemma Convex(y: int, f: int)
    ensures (Q31 - f) * y + f * y == Q31 * y
    ensures y * (Q31 - f) == (Q31 - f) * y
  {
  }
}
