/** arm_recip_q31: normalisation by leading zeros, a table seed and two Newton steps. */
module Reciprocal {
  import opened Bits
  import opened FixedPoint

  const Q30 := 0x4000_0000
  const Q31 := 0x8000_0000
  const Q61 := 0x2000_0000_0000_0000
  const Q62 := 0x4000_0000_0000_0000

  /** The source's loop, which never ends on zero. */
  method CountLeadingZeros(data: int) returns (count: nat)
    requires Int32(data) && data != 0
    ensures count <= 31
    ensures Pow2(31 - count) <= ToUnsigned32(data) < Pow2(32 - count)
  {
    hide And, Pow2, ToUnsigned32;
    Pow2Values();
    var bits, mask := ToUnsigned32(data), Q31;
    Pow2Halves(32);
    PatternNonzero(data);
    count := 0;
    while And(bits, mask) == 0
      invariant count <= 31 && mask == Pow2(31 - count) && bits < Pow2(32 - count)
      decreases 32 - count
    {
      TopBit(bits, 31 - count);
      if count < 31 {
        Pow2Halves(31 - count);
      }
      count := count + 1;
      mask := mask / 2;
    }
    TopBit(bits, 31 - count);
  }

  /** The loop's mask after `k` iterations. */
  function MaskAfter(k: nat): nat { if k <= 31 then Pow2(31 - k) else 0 }

  lemma MaskSteps(k: nat)
    ensures MaskAfter(0) == Q31 && MaskAfter(k + 1) == MaskAfter(k) / 2
  {
    hide Pow2;
    Pow2Values();
    Pow2Halves(32);
    if k < 31 {
      Pow2Halves(31 - k);
    } else if k == 31 {
      assert MaskAfter(k) == Pow2(0) == 1 by { Pow2Halves(1); }
    }
  }

  /** The loop's guard fails at some iteration exactly when the word is nonzero; on zero it never ends. */
  lemma LoopEndsExactly(data: int)
    requires Int32(data)
    ensures (exists k: nat :: And(ToUnsigned32(data), MaskAfter(k)) != 0) <==> data != 0
  {
    hide Pow2, MaskAfter;
    if data == 0 {
      assert ToUnsigned32(data) == 0;
    } else {
      Pow2Values();
      PatternNonzero(data);
      var k := SetBit(ToUnsigned32(data), 31);
    }
  }

  lemma SetBit(bits: nat, n: nat) returns (k: nat)
    requires n <= 31 && 0 < bits < Pow2(n + 1)
    ensures And(bits, MaskAfter(k)) != 0
  {
    hide And, Pow2;
    TopBit(bits, n);
    k := 31 - n;
    if And(bits, Pow2(n)) == 0 {
      k := SetBit(bits, n - 1);
    }
  }

  lemma Pow2Halves(n: nat)
    requires n > 0
    ensures Pow2(n) == 2 * Pow2(n - 1) && Pow2(n) / 2 == Pow2(n - 1)
    ensures Pow2(0) == 1
  {
  }

  lemma PatternNonzero(data: int)
    requires Int32(data) && data != 0
    ensures ToUnsigned32(data) > 0
  {
  }

  /** Testing the highest bit that can still be set. */
  lemma TopBit(bits: nat, k: nat)
    requires 0 < bits < Pow2(k + 1)
    ensures And(bits, Pow2(k)) == 0 <==> bits < Pow2(k)
    ensures bits < Pow2(k) ==> k > 0
  {
    hide And;
    AndField(bits, k, 1);
    ShlIsProduct(1, k);
    assert Pow2(1) == 2;
    var p := Pow2(k);
    if bits < p {
      DivModUnique(bits, p, 0, bits);
    } else {
      DivModUnique(bits, p, 1, bits - p);
    }
  }

  // ---- one Newton step ----------------------------------------------------------------------

  /** `0x7FFFFFFF - (n * out >> 31)` in 32-bit unsigned arithmetic. */
  function Residual(n: int, out: int): (u: nat)
    ensures u < 0x1_0000_0000
  {
    ToUnsigned32(0x7FFF_FFFF - ToUnsigned32(n * out / Q31))
  }

  /** The source's step, with its wrap-around and its final clip. */
  function NewtonStep(n: int, out: int): (r: int)
    requires Int32(n) && Int32(out)
    ensures Int32(r)
  {
    ResidualProduct(n, out);
    ClipQ63ToQ31IsClamp(out * Residual(n, out) / Q30);
    ClipQ63ToQ31(out * Residual(n, out) / Q30)
  }

  lemma ResidualProduct(n: int, out: int)
    requires Int32(n) && Int32(out)
    ensures Int64(out * Residual(n, out)) && Int64(out * Residual(n, out) / Q30)
  {
    hide Residual;
    ProductBound(out, Residual(n, out), Q31, 0xFFFF_FFFF);
  }

  /** For a normalised operand and a nonnegative estimate nothing wraps. */
  lemma ResidualBounds(n: int, out: int)
    requires Q30 <= n < Q31 && 0 <= out < Q31
    ensures 0 <= n * out < Q62
    ensures Q31 * Residual(n, out) <= Q62 - n * out - 1
    ensures Q31 * Residual(n, out) >= Q62 - Q31 - n * out
  {
    hide Residual;
    ProductBound(n, out, Q31 - 1, Q31 - 1);
    MulMono(n, 0, out);
    ResidualValue(n, out);
    var q, r := n * out / Q31, n * out % Q31;
    assert n * out == Q31 * q + r;
  }

  lemma ResidualValue(n: int, out: int)
    requires 0 <= n * out < Q62
    ensures Residual(n, out) == 0x7FFF_FFFF - n * out / Q31
  {
    QuotientFits(n * out);
  }

  lemma QuotientFits(p: int)
    requires 0 <= p < Q62
    ensures 0 <= p / Q31 <= 0x7FFF_FFFF
    ensures ToUnsigned32(p / Q31) == p / Q31 && ToUnsigned32(0x7FFF_FFFF - p / Q31) == 0x7FFF_FFFF - p / Q31
  {
  }

  lemma Rearrange(n: int, out: int, u: int)
    ensures n * (out * u) == (n * out) * u
    ensures (n * out) * (Q31 * u) == Q31 * ((n * out) * u)
  {
  }

  lemma Square(p: int)
    ensures p * (Q62 - p) == Q61 * Q61 - (Q61 - p) * (Q61 - p)
  {
    var e := Q61 - p;
    assert p == Q61 - e && Q62 - p == Q61 + e;
    DifferenceOfSquares(Q61, e);
  }

  lemma DifferenceOfSquares(a: int, e: int)
    ensures (a - e) * (a + e) == a * a - e * e
  {
  }

  /** The step in exact integers: with p = n * out, the new product n * (out * u / 2^30) is at
      most p * (2^62 - p) / 2^61 and below it by less than 2^33. */
  lemma StepProduct(n: int, out: int, u: int, o2: int)
    requires Q30 <= n < Q31 && 0 <= out < Q31 && 0 <= n * out < Q62
    requires Q62 - Q31 - n * out <= Q31 * u <= Q62 - n * out - 1
    requires o2 == out * u / Q30
    ensures var p := n * out;
      && Q61 * (n * o2) <= p * (Q62 - p) - p
      && Q61 * (n * o2) >= p * (Q62 - p) - Q61 * 0x2_0000_0000
  {
    var p, v := n * out, out * u;
    var r := n * o2;
    assert Q30 * o2 <= v <= Q30 * o2 + Q30 - 1;
    MulMono(n, Q30 * o2, v);
    MulMono(n, v, Q30 * o2 + Q30 - 1);
    Scale(n, o2);
    assert Q30 * r <= n * v <= Q30 * r + n * (Q30 - 1);
    Rearrange(n, out, u);
    var w := p * (Q31 * u);
    assert w == Q31 * (n * v);
    MulMono(p, Q62 - Q31 - p, Q31 * u);
    MulMono(p, Q31 * u, Q62 - p - 1);
    Spread(p);
    assert Q61 * r <= w;
    assert w <= Q61 * r + Q31 * (n * (Q30 - 1));
  }

  lemma Scale(n: int, o2: int)
    ensures n * (Q30 * o2) == Q30 * (n * o2)
    ensures n * (Q30 * o2 + Q30 - 1) == Q30 * (n * o2) + n * (Q30 - 1)
  {
  }

  lemma Spread(p: int)
    ensures p * (Q62 - p - 1) == p * (Q62 - p) - p
    ensures p * (Q62 - Q31 - p) == p * (Q62 - p) - p * Q31
  {
  }

  /** One step: the clip never acts, the product stays at most 2^61, and an error e becomes at
      most e^2 / 2^61 + 2^33 (here multiplied out by 2^61). */
  lemma NewtonConverges(n: int, out: int)
    requires Q30 <= n < Q31 && 0 <= out < Q31
    ensures var r := NewtonStep(n, out);
      && r == out * Residual(n, out) / Q30 && 0 <= r < Q31
      && n * r <= Q61 && (out > 0 ==> n * r < Q61)
      && Q61 * (Q61 - n * r) <= (Q61 - n * out) * (Q61 - n * out) + Q61 * 0x2_0000_0000
  {
    hide Residual, ClipQ63ToQ31;
    ResidualBounds(n, out);
    ResidualProduct(n, out);
    var u, p := Residual(n, out), n * out;
    var r := out * u / Q30;
    MulMono(out, 0, u);
    StepProduct(n, out, u, r);
    Square(p);
    SquareNonnegative(Q61 - p);
    assert n * r <= Q61;
    if out > 0 {
      MulMono(n, 1, out);
      assert n * r < Q61;
    }
    ProductFits(n, r, out);
    ClipQ63ToQ31IsClamp(r);
  }

  lemma SquareNonnegative(x: int)
    ensures x * x >= 0
  {
  }

  lemma ProductFits(n: int, r: int, out: int)
    requires Q30 <= n && n * r <= Q61 && (n * r < Q61 || r == 0)
    ensures r < Q31
  {
    if r >= Q31 {
      MulMono(n, Q31, r);
    }
  }

  // ---- two steps and the whole function -----------------------------------------------------

  /** What the result `dst` of a seed owes to the operand `n`: the product stays at most 2^61,
      and the final error is the fourth power of the seed's error plus truncation. With
      e = 2^61 - n * seed, the bound is ((e^2 + 2^94)^2 / 2^122 + 2^94) / 2^61. */
  ghost predicate Approximates(n: int, seed: int, dst: int) {
    var e2 := (Q61 - n * seed) * (Q61 - n * seed) + Q61 * 0x2_0000_0000;
    && 0 <= dst < Q31
    && n * dst <= Q61
    && Q61 * Q61 * (Q61 * (Q61 - n * dst) - Q61 * 0x2_0000_0000) <= e2 * e2
  }

  lemma TwoSteps(n: int, seed: int)
    requires Q30 <= n < Q31 && 0 <= seed < Q31
    ensures Approximates(n, seed, NewtonStep(n, NewtonStep(n, seed)))
    ensures var e2 := (Q61 - n * seed) * (Q61 - n * seed) + Q61 * 0x2_0000_0000;
      var left := Q61 - n * NewtonStep(n, NewtonStep(n, seed));
      0 <= left && Q61 * Q61 * (Q61 * left - Q61 * 0x2_0000_0000) <= e2 * e2
  {
    hide NewtonStep;
    NewtonConverges(n, seed);
    var mid := NewtonStep(n, seed);
    NewtonConverges(n, mid);
    var a, b := Q61 * (Q61 - n * mid), (Q61 - n * seed) * (Q61 - n * seed) + Q61 * 0x2_0000_0000;
    SquareMono(a, b);
    SquareScaled(Q61, Q61 - n * mid);
    var dst := NewtonStep(n, mid);
    ScaleUp(Q61 * (Q61 - n * dst) - Q61 * 0x2_0000_0000, (Q61 - n * mid) * (Q61 - n * mid));
  }

  lemma SquareMono(a: int, b: int)
    requires 0 <= a <= b
    ensures a * a <= b * b
  {
  }

  lemma SquareScaled(k: int, x: int)
    ensures (k * x) * (k * x) == k * k * (x * x)
  {
  }

  lemma ScaleUp(x: int, y: int)
    requires x <= y
    ensures Q61 * Q61 * x <= Q61 * Q61 * y
  {
  }

  /** A seed good to seven bits gives a result good to almost twenty-seven. */
  lemma SevenBitSeedSuffices(n: int, seed: int)
    requires Q30 <= n < Q31 && 0 <= seed < Q31
    requires -0x40_0000_0000_0000 <= Q61 - n * seed <= 0x40_0000_0000_0000
    ensures 0 <= Q61 - n * NewtonStep(n, NewtonStep(n, seed)) <= 0x4_0020_0001
  {
    hide NewtonStep;
    NewtonConverges(n, seed);
    var mid := NewtonStep(n, seed);
    NewtonConverges(n, mid);
    var e0, e1 := Q61 - n * seed, Q61 - n * mid;
    ProductBound(e0, e0, 0x40_0000_0000_0000, 0x40_0000_0000_0000);
    assert 0 <= e1 <= 0x8002_0000_0000 by {
      assert Q61 * e1 <= 0x40_0000_0000_0000 * 0x40_0000_0000_0000 + Q61 * 0x2_0000_0000;
    }
    ProductBound(e1, e1, 0x8002_0000_0000, 0x8002_0000_0000);
  }

  /** A negative operand makes every step positive, so no negative input meets its reciprocal. */
  lemma NegativeOperandStaysPositive(n: int, out: int)
    requires -Q31 < n < 0 && 0 < out < Q31
    ensures 0 < NewtonStep(n, out) < Q31
  {
    hide ClipQ63ToQ31, Residual;
    ResidualProduct(n, out);
    ProductBound(n, out, Q31 - 1, Q31 - 1);
    assert n * out < 0 by { MulMono(out, n, -1); }
    NegativeResidual(n, out);
    MulMono(out, Q31, Residual(n, out));
    ClipQ63ToQ31IsClamp(out * Residual(n, out) / Q30);
  }

  lemma NegativeResidual(n: int, out: int)
    requires -Q62 < n * out < 0
    ensures Residual(n, out) >= Q31
  {
    var t := n * out / Q31;
    assert -Q31 <= t <= -1;
  }

  /** The operand after normalisation, `input << shift`. */
  function Normal(input: int, shift: nat): int { input * Pow2(shift) }

  /** What a call returns: two Newton steps on the normalised operand from the indexed seed; a
      reciprocal with its error bound for positive input, the wrong sign for negative input. */
  ghost predicate RecipResult(n: int, seed: int, dst: int)
    requires Int32(n) && Int32(seed)
  {
    && dst == NewtonStep(n, NewtonStep(n, seed))
    && (Q30 <= n && 0 <= seed ==> Approximates(n, seed, dst))
    && (n < 0 < seed ==> dst > 0)
  }

  lemma StepsGiveResult(n: int, seed: int)
    requires -Q31 < n < Q31 && Int32(seed)
    ensures RecipResult(n, seed, NewtonStep(n, NewtonStep(n, seed)))
  {
    hide NewtonStep, Approximates;
    if Q30 <= n && 0 <= seed {
      TwoSteps(n, seed);
    }
    if n < 0 < seed {
      NegativeOperandStaysPositive(n, seed);
      NegativeOperandStaysPositive(n, NewtonStep(n, seed));
    }
  }

  /** `dst` approximates 2^62 / (input * 2^bits). The table is a parameter; zero never returns
      and the least integer has no positive counterpart, so neither is admitted. */
  method RecipQ31(input: int, table: seq<int>) returns (dst: int, bits: nat)
    requires Int32(input) && input != 0 && input != -Q31
    requires |table| == 64 && forall k :: 0 <= k < 64 ==> Int32(table[k])
    ensures 1 <= bits <= 31
    ensures var n := Normal(input, bits - 1);
      && (if input > 0 then Q30 <= n < Q31 else -Q31 < n <= -Q30)
      && RecipResult(n, table[n / 0x100_0000 % 64], dst)
    ensures input > 0 ==>
      var n := input * Pow2(bits - 1);
      && 0x4000_0000 <= n < 0x8000_0000
      && (-0x40_0000_0000_0000 <= Q61 - n * table[n / 0x100_0000 % 64] <= 0x40_0000_0000_0000 ==>
           0 <= Q61 - n * dst <= 0x4_0020_0001)
    ensures input < 0 < table[input * Pow2(bits - 1) / 0x100_0000 % 64] ==> dst > 0
  {
    hide And, Normal, NewtonStep, RecipResult, ToUnsigned32, Pow2;
    var magnitude := if input > 0 then input else -input;
    var zeros := CountLeadingZeros(magnitude);
    LeadingZerosNormalise(input, zeros);
    var signBits := zeros - 1;
    var shifted := ToSigned32(Normal(input, signBits));
    var index := ToUnsigned32(shifted / 0x100_0000);
    IndexBits(shifted / 0x100_0000);
    index := And(index, 0x3F);
    var out := table[index];
    ghost var seed := out;
    StepsGiveResult(shifted, seed);
    for i := 0 to 2
      invariant Int32(out)
      invariant out == if i == 0 then seed else if i == 1 then NewtonStep(shifted, seed)
                       else NewtonStep(shifted, NewtonStep(shifted, seed))
    {
      out := OneStep(shifted, out);
    }
    dst := out;
    bits := signBits + 1;
    ResultMeaning(input, bits - 1, seed, dst);
  }

  /** The result in numbers: the normalised operand, a seed good to seven bits, and the wrong sign. */
  lemma ResultMeaning(input: int, shift: nat, seed: int, dst: int)
    requires Int32(Normal(input, shift)) && Int32(seed) && RecipResult(Normal(input, shift), seed, dst)
    ensures Normal(input, shift) == input * Pow2(shift)
    ensures Q30 <= Normal(input, shift) && -0x40_0000_0000_0000 <= Q61 - Normal(input, shift) * seed <= 0x40_0000_0000_0000
      ==> 0 <= Q61 - Normal(input, shift) * dst <= 0x4_0020_0001
    ensures Normal(input, shift) < 0 < seed ==> dst > 0
  {
    hide NewtonStep, Approximates, Pow2;
    var n := Normal(input, shift);
    if Q30 <= n && -0x40_0000_0000_0000 <= Q61 - n * seed <= 0x40_0000_0000_0000 {
      if seed < 0 {
        MulMono(n, seed, 0);
        assert false;
      }
      SevenBitSeedSuffices(n, seed);
    }
  }

  /** The loop body of the source. */
  method OneStep(n: int, out: int) returns (r: int)
    requires Int32(n) && Int32(out)
    ensures r == NewtonStep(n, out)
    ensures var u := (0x7FFF_FFFF - n * out / 0x8000_0000 % 0x1_0000_0000) % 0x1_0000_0000;
      r == Clamp(out * u / 0x4000_0000, -0x8000_0000, 0x7FFF_FFFF)
  {
    hide ClipQ63ToQ31;
    ResidualProduct(n, out);
    ClipQ63ToQ31IsClamp(out * Residual(n, out) / Q30);
    var tempVal: int := ToUnsigned32(n * out / Q31);
    tempVal := ToUnsigned32(0x7FFF_FFFF - tempVal);
    r := ClipQ63ToQ31(out * tempVal / Q30);
  }

  lemma PositiveNormal(x: int, zeros: nat)
    requires 0 < x < Q31 && zeros <= 31 && Pow2(31 - zeros) <= ToUnsigned32(x) < Pow2(32 - zeros)
    ensures 1 <= zeros && Q30 <= x * Pow2(zeros - 1) < Q31
  {
    hide Pow2;
    Pow2Values();
    Pow2Halves(32);
    Pow2Halves(31);
    assert ToUnsigned32(x) == x;
    if zeros == 0 {
      assert false;
    }
    Pow2Sum(31 - zeros, zeros - 1);
    Pow2Sum(32 - zeros, zeros - 1);
    Bracket(x, Pow2(zeros - 1), Pow2(31 - zeros), Pow2(32 - zeros));
  }

  lemma Bracket(x: int, p: int, low: int, high: int)
    requires p > 0 && low <= x < high
    ensures low * p <= x * p < high * p
  {
    MulMono(p, low, x);
    MulMono(p, x + 1, high);
    assert p * (x + 1) == p * x + p;
  }

  lemma LeadingZerosNormalise(input: int, zeros: nat)
    requires 0 < (if input > 0 then input else -input) < Q31 && zeros <= 31
    requires Pow2(31 - zeros) <= ToUnsigned32(if input > 0 then input else -input) < Pow2(32 - zeros)
    ensures 1 <= zeros
    ensures if input > 0 then Q30 <= Normal(input, zeros - 1) < Q31 else -Q31 < Normal(input, zeros - 1) <= -Q30
  {
    hide Pow2, ToUnsigned32;
    if input > 0 {
      PositiveNormal(input, zeros);
    } else {
      PositiveNormal(-input, zeros);
      NegatedFactor(input, Pow2(zeros - 1));
    }
  }

  lemma IndexBits(x: int)
    ensures And(ToUnsigned32(x), 0x3F) == x % 64
  {
    hide And, Pow2;
    Pow2Values();
    AndLow(ToUnsigned32(x), 6);
  }
}
