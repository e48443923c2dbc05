/** Incremental PID control (arm_pid_q31 and arm_pid_q15 without DSP instructions), against the
    positional form of the same controller. */
module Pid {
  import opened Bits
  import opened FixedPoint

  /** The derived gains of an instance. */
  datatype Gains = Gains(a0: int, a1: int, a2: int)

  /** The gains that the instance structures document for Kp, Ki and Kd. */
  function Derived(kp: int, ki: int, kd: int): Gains {
    Gains(kp + ki + kd, -kp - 2 * kd, kd)
  }

  /** The input `back` samples before the end; inputs before the first are zero. */
  function Recent(xs: seq<int>, back: nat): int {
    if back < |xs| then xs[|xs| - 1 - back] else 0
  }

  function Total(xs: seq<int>): int {
    if xs == [] then 0 else Total(xs[..|xs| - 1]) + Recent(xs, 0)
  }

  /** The exact increment for the last of the inputs. */
  function Increment(g: Gains, xs: seq<int>): int {
    g.a0 * Recent(xs, 0) + g.a1 * Recent(xs, 1) + g.a2 * Recent(xs, 2)
  }

  /** All increments so far, exactly, and each truncated to a multiple of `unit` first. */
  function Accumulated(g: Gains, xs: seq<int>): int {
    if xs == [] then 0 else Accumulated(g, xs[..|xs| - 1]) + Increment(g, xs)
  }

  function Truncated(g: Gains, xs: seq<int>, unit: int): int
    requires unit > 0
  {
    if xs == [] then 0 else Truncated(g, xs[..|xs| - 1], unit) + Increment(g, xs) / unit
  }

  /** The textbook controller: proportional, integral and derivative terms of the whole history. */
  function Positional(kp: int, ki: int, kd: int, xs: seq<int>): int {
    kp * Recent(xs, 0) + ki * Total(xs) + kd * (Recent(xs, 0) - Recent(xs, 1))
  }

  /** The increments telescope: their sum is the positional output, for every history. */
  lemma {:induction false} IncrementalIsPositional(kp: int, ki: int, kd: int, xs: seq<int>)
    ensures Accumulated(Derived(kp, ki, kd), xs) == Positional(kp, ki, kd, xs)
  {
    if xs != [] {
      var before := xs[..|xs| - 1];
      IncrementalIsPositional(kp, ki, kd, before);
      assert Recent(before, 0) == Recent(xs, 1) && Recent(before, 1) == Recent(xs, 2);
      Telescope(kp, ki, kd, Recent(xs, 0), Recent(xs, 1), Recent(xs, 2), Total(before));
    }
  }

  /** In numbers: the documented gains give proportional, integral and derivative action on every
      history of two samples or more, and the terms are those of its samples. */
  lemma TextbookForm(kp: int, ki: int, kd: int, xs: seq<int>, y: int, x: int)
    ensures Derived(kp, ki, kd) == Gains(kp + ki + kd, -kp - 2 * kd, kd)
    ensures Accumulated(Derived(kp, ki, kd), xs + [y, x]) == kp * x + ki * (Total(xs) + y + x) + kd * (x - y)
    ensures Total([]) == 0 && Total(xs + [x]) == Total(xs) + x
  {
    var h := xs + [y, x];
    IncrementalIsPositional(kp, ki, kd, h);
    assert h[..|h| - 1] == xs + [y] && (xs + [y])[..|xs|] == xs && (xs + [x])[..|xs|] == xs;
    assert Total(h) == Total(xs + [y]) + x && Total(xs + [y]) == Total(xs) + y;
  }

  lemma Telescope(kp: int, ki: int, kd: int, x0: int, x1: int, x2: int, total: int)
    ensures kp * x1 + ki * total + kd * (x1 - x2) + ((kp + ki + kd) * x0 + (-kp - 2 * kd) * x1 + kd * x2)
         == kp * x0 + ki * (total + x0) + kd * (x0 - x1)
  {
  }

  /** Truncation loses less than one unit a sample and never gains. */
  lemma {:induction false} TruncationLoss(g: Gains, xs: seq<int>, unit: int)
    requires unit > 0
    ensures 0 <= Accumulated(g, xs) - unit * Truncated(g, xs, unit) <= |xs| * (unit - 1)
  {
    if xs != [] {
      var before := xs[..|xs| - 1];
      TruncationLoss(g, before, unit);
      LossStep(Accumulated(g, before), Truncated(g, before, unit), Increment(g, xs), unit, |before|);
    }
  }

  lemma LossStep(exact: int, cut: int, d: int, unit: int, n: nat)
    requires unit > 0 && 0 <= exact - unit * cut <= n * (unit - 1)
    ensures 0 <= exact + d - unit * (cut + d / unit) <= (n + 1) * (unit - 1)
  {
    var q, r := d / unit, d % unit;
    assert d == unit * q + r;
    assert unit * (cut + q) == unit * cut + unit * q;
    assert (n + 1) * (unit - 1) == n * (unit - 1) + (unit - 1);
  }

  // ---- the q31 controller -------------------------------------------------------------------

  function ToSigned64(x: int): int {
    (x + 0x8000_0000_0000_0000) % 0x1_0000_0000_0000_0000 - 0x8000_0000_0000_0000
  }

  lemma SameResidue64(x: int)
    ensures Int64(ToSigned64(x)) && (ToSigned64(x) - x) % 0x1_0000_0000_0000_0000 == 0
  {
    DivModUnique(ToSigned64(x) - x, 0x1_0000_0000_0000_0000, -((x + 0x8000_0000_0000_0000) / 0x1_0000_0000_0000_0000), 0);
  }

  /** Every increment of the history fits the 64-bit accumulator. */
  ghost predicate AccumulatorFits(g: Gains, xs: seq<int>) {
    forall n :: 0 < n <= |xs| ==> Int64(Increment(g, xs[..n]))
  }

  /** The truncated increments as the 64-bit accumulator delivers them. */
  function Delivered(g: Gains, xs: seq<int>): int {
    if xs == [] then 0 else Delivered(g, xs[..|xs| - 1]) + ToSigned64(Increment(g, xs)) / 0x8000_0000
  }

  lemma {:induction false} DeliveredWhenItFits(g: Gains, xs: seq<int>)
    requires AccumulatorFits(g, xs)
    ensures Delivered(g, xs) == Truncated(g, xs, 0x8000_0000)
  {
    if xs != [] {
      var before := xs[..|xs| - 1];
      assert xs[..|xs|] == xs;
      forall n | 0 < n <= |before|
        ensures Int64(Increment(g, before[..n]))
      {
        assert before[..n] == xs[..n];
      }
      DeliveredWhenItFits(g, before);
    }
  }

  function Abs(x: int): nat { if x < 0 then -x else x }

  /** Gains whose magnitudes sum below 2^32 never overflow the accumulator. */
  lemma SmallGainsFit(g: Gains, xs: seq<int>)
    requires Abs(g.a0) + Abs(g.a1) + Abs(g.a2) < 0x1_0000_0000
    requires forall k :: 0 <= k < |xs| ==> Int32(xs[k])
    ensures AccumulatorFits(g, xs)
  {
    hide Increment;
    forall n | 0 < n <= |xs|
      ensures Int64(Increment(g, xs[..n]))
    {
      IncrementFits(g, xs[..n]);
    }
  }

  lemma IncrementFits(g: Gains, h: seq<int>)
    requires Abs(g.a0) + Abs(g.a1) + Abs(g.a2) < 0x1_0000_0000
    requires forall k :: 0 <= k < |h| ==> Int32(h[k])
    ensures Int64(Increment(g, h))
  {
    RecentFits(h);
    hide Recent;
    ProductBound(g.a0, Recent(h, 0), Abs(g.a0), 0x8000_0000);
    ProductBound(g.a1, Recent(h, 1), Abs(g.a1), 0x8000_0000);
    ProductBound(g.a2, Recent(h, 2), Abs(g.a2), 0x8000_0000);
  }

  lemma RecentFits(h: seq<int>)
    requires forall k :: 0 <= k < |h| ==> Int32(h[k])
    ensures forall back :: 0 <= back < 3 ==> Int32(Recent(h, back))
  {
  }

  /** Wrapping after every addition is wrapping once. */
  lemma WrappedSum(p0: int, p1: int, p2: int)
    ensures ToSigned64(ToSigned64(ToSigned64(p0) + p1) + p2) == ToSigned64(p0 + p1 + p2)
  {
  }

  /** The casts of one step, joined, and the sum that they deliver. */
  lemma OutputSum(p0: int, p1: int, p2: int, y: int, sum: int)
    requires y == ToSigned32(sum)
    ensures var acc := ToSigned64(ToSigned64(ToSigned64(p0) + p1) + p2);
      ToSigned32(ToSigned32(acc / 0x8000_0000) + y) == ToSigned32(ToSigned64(p0 + p1 + p2) / 0x8000_0000 + y)
      == ToSigned32(sum + ToSigned64(p0 + p1 + p2) / 0x8000_0000)
  {
    hide ToSigned64, ToSigned32;
    WrappedSum(p0, p1, p2);
    WrapSum(ToSigned64(p0 + p1 + p2) / 0x8000_0000, y);
    WrappedOutput(ToSigned64(p0 + p1 + p2) / 0x8000_0000, sum);
  }

  lemma WrappedOutput(a: int, y: int)
    ensures ToSigned32(ToSigned32(a) + ToSigned32(y)) == ToSigned32(a + y)
  {
    hide ToSigned32;
    WrapSum(a, ToSigned32(y));
    WrapSum(y, a);
  }

  lemma HistoryStep(g: Gains, xs: seq<int>, x: int)
    ensures var h := xs + [x];
      && Recent(h, 0) == x && Recent(h, 1) == Recent(xs, 0) && Recent(h, 2) == Recent(xs, 1)
      && Delivered(g, h) == Delivered(g, xs) + ToSigned64(Increment(g, h)) / 0x8000_0000
      && Saturated(g, h) == Clamp((Increment(g, h) + Saturated(g, xs) * 0x8000) / 0x8000, -0x8000, 0x7FFF)
  {
    var h := xs + [x];
    assert h[..|h| - 1] == xs;
  }

  /** The output of a run of any length: it is the sum of the truncated increments exactly when that
      sum fits 32 bits at the end, intermediate wraps doing no harm, and is then inside the loss bound
      of the positional value. A positional value in range leaves that sum in range. */
  lemma OutputMeaning(kp: int, ki: int, kd: int, xs: seq<int>, out: int)
    requires var g := Derived(kp, ki, kd);
      AccumulatorFits(g, xs) && out == ToSigned32(Delivered(g, xs))
    ensures var sum, exact := Truncated(Derived(kp, ki, kd), xs, 0x8000_0000), Positional(kp, ki, kd, xs);
      && (out == sum <==> Int32(sum))
      && (Int32(sum) ==> 0 <= exact - 0x8000_0000 * out <= |xs| * 0x7FFF_FFFF)
      && (|xs| * 0x7FFF_FFFF - 0x4000_0000_0000_0000 <= exact < 0x4000_0000_0000_0000 ==> Int32(sum))
  {
    hide Positional, Accumulated, Truncated, Delivered, AccumulatorFits, ToSigned32;
    var g := Derived(kp, ki, kd);
    IncrementalIsPositional(kp, ki, kd, xs);
    TruncationLoss(g, xs, 0x8000_0000);
    DeliveredWhenItFits(g, xs);
    var sum, exact := Truncated(g, xs, 0x8000_0000), Positional(kp, ki, kd, xs);
    if Int32(sum) {
      SignedFits(sum);
    }
    if |xs| * 0x7FFF_FFFF - 0x4000_0000_0000_0000 <= exact < 0x4000_0000_0000_0000 {
      OutputInRange(exact, sum, |xs|);
    }
  }

  lemma OutputInRange(exact: int, cut: int, n: nat)
    requires 0 <= exact - 0x8000_0000 * cut <= n * 0x7FFF_FFFF
    requires n * 0x7FFF_FFFF - 0x4000_0000_0000_0000 <= exact < 0x4000_0000_0000_0000
    ensures Int32(cut)
  {
  }

  /** One step: from the output before it and whatever the accumulator delivers, wrapped or not, the
      next input gives the saturated sum that the source documents exactly when the sum fits 32 bits,
      or is the one value below them that wraps to the bound. Every other sum wraps. */
  lemma StepSaturatesExactly(g: Gains, xs: seq<int>, x: int)
    ensures var y := ToSigned32(Delivered(g, xs));
      var t := ToSigned64(Increment(g, xs + [x])) / 0x8000_0000 + y;
      && ToSigned32(Delivered(g, xs + [x])) == ToSigned32(t)
      && (ToSigned32(t) == Clamp(t, -0x8000_0000, 0x7FFF_FFFF) <==> Int32(t) || t == -0x1_8000_0000)
  {
    hide Increment, Delivered, Saturated, Recent, ToSigned64;
    HistoryStep(g, xs, x);
    DeliveredRange(Increment(g, xs + [x]));
    var d := ToSigned64(Increment(g, xs + [x])) / 0x8000_0000;
    WrapSum(Delivered(g, xs), d);
    WrapsOnce(d, ToSigned32(Delivered(g, xs)));
  }

  lemma DeliveredRange(x: int)
    ensures -0x1_0000_0000 <= ToSigned64(x) / 0x8000_0000 < 0x1_0000_0000
  {
  }

  lemma WrapsOnce(d: int, y: int)
    requires -0x1_0000_0000 <= d < 0x1_0000_0000 && Int32(y)
    ensures var t := d + y;
      ToSigned32(t) == Clamp(t, -0x8000_0000, 0x7FFF_FFFF) <==> Int32(t) || t == -0x1_8000_0000
  {
  }

  /** An input on which the output wraps: full integral gain and two samples of full scale give -4
      where the documented saturation gives 0x7FFF_FFFF, without overflow of the accumulator. */
  lemma OutputWraps()
    ensures var g, xs := Derived(0, 0x7FFF_FFFF, 0), [0x7FFF_FFFF, 0x7FFF_FFFF];
      && AccumulatorFits(g, xs)
      && ToSigned32(Delivered(g, xs)) == -4
      && Clamp(Delivered(g, xs), -0x8000_0000, 0x7FFF_FFFF) == 0x7FFF_FFFF
  {
    hide Derived, Increment, Saturated, Delivered, ToSigned32;
    var g, xs := Derived(0, 0x7FFF_FFFF, 0), [0x7FFF_FFFF, 0x7FFF_FFFF];
    assert xs[..2] == xs && [0x7FFF_FFFF] == xs[..1];
    IntegralGain(0x7FFF_FFFF);
    FullScale(g, xs);
    FullScale(g, xs[..1]);
    assert [] + [0x7FFF_FFFF] == xs[..1] && xs[..1] + [0x7FFF_FFFF] == xs;
    HistoryStep(g, [], 0x7FFF_FFFF);
    HistoryStep(g, xs[..1], 0x7FFF_FFFF);
    NothingDelivered(g);
    FullScaleWraps();
  }

  lemma FullScale(g: Gains, h: seq<int>)
    requires g.a0 == 0x7FFF_FFFF && g.a1 == 0 && g.a2 == 0
    requires h != [] && h[|h| - 1] == 0x7FFF_FFFF
    ensures Increment(g, h) == 0x3FFF_FFFF_0000_0001
  {
    assert Recent(h, 0) == 0x7FFF_FFFF;
    hide Recent;
    FirstTermOnly(g.a0, g.a1, g.a2, Recent(h, 0), Recent(h, 1), Recent(h, 2));
  }

  lemma IntegralGain(ki: int)
    ensures Derived(0, ki, 0) == Gains(ki, 0, 0)
  {
  }

  lemma FirstTermOnly(a0: int, a1: int, a2: int, x0: int, x1: int, x2: int)
    requires a0 == 0x7FFF_FFFF && a1 == 0 && a2 == 0 && x0 == 0x7FFF_FFFF
    ensures a0 * x0 + a1 * x1 + a2 * x2 == 0x3FFF_FFFF_0000_0001
  {
  }

  lemma NothingDelivered(g: Gains)
    ensures Delivered(g, []) == 0
  {
  }

  lemma FullScaleWraps()
    ensures Int64(0x3FFF_FFFF_0000_0001) && ToSigned64(0x3FFF_FFFF_0000_0001) / 0x8000_0000 == 0x7FFF_FFFE
    ensures ToSigned32(0xFFFF_FFFC) == -4
  {
  }

  class PidQ31 {
    var gains: Gains
    var state: array<int>
    ghost var inputs: seq<int>

    /** The state holds the last two inputs and, modulo 2^32, the sum of the increments. */
    ghost predicate Valid()
      reads this, state
    {
      && state.Length == 3
      && state[0] == Recent(inputs, 0) && state[1] == Recent(inputs, 1)
      && state[2] == ToSigned32(Delivered(gains, inputs))
    }

    constructor (gains: Gains)
      ensures Valid() && fresh(state) && this.gains == gains && inputs == []
    {
      this.gains := gains;
      state := new int[3](_ => 0);
      inputs := [];
    }

    /** The sums wrap at 64 and 32 bits, as the source's accumulator and output do. */
    method Process(x: int) returns (out: int)
      requires Valid()
      modifies this`inputs, state
      ensures Valid() && inputs == old(inputs) + [x] && out == state[2] == ToSigned32(Delivered(gains, inputs))
      ensures state[0] == x && state[1] == old(state[0])
      ensures var p := gains.a0 * x + gains.a1 * old(state[0]) + gains.a2 * old(state[1]);
        out == ToSigned32(ToSigned64(p) / 0x8000_0000 + old(state[2]))
    {
      hide ToSigned64, ToSigned32, Recent, Delivered;
      HistoryStep(gains, inputs, x);
      OutputSum(gains.a0 * x, gains.a1 * state[0], gains.a2 * state[1], state[2], Delivered(gains, inputs));
      var acc := ToSigned64(gains.a0 * x);
      acc := ToSigned64(acc + gains.a1 * state[0]);
      acc := ToSigned64(acc + gains.a2 * state[1]);
      out := ToSigned32(acc / 0x8000_0000);
      out := ToSigned32(out + state[2]);
      state[1] := state[0];
      state[0] := x;
      state[2] := out;
      inputs := inputs + [x];
    }
  }

  // ---- the q15 controller -------------------------------------------------------------------

  /** The saturating accumulation of the 16-bit controller. */
  function Saturated(g: Gains, xs: seq<int>): (y: int)
    ensures -0x8000 <= y <= 0x7FFF
  {
    if xs == [] then 0
    else Clamp((Increment(g, xs) + Saturated(g, xs[..|xs| - 1]) * 0x8000) / 0x8000, -0x8000, 0x7FFF)
  }

  /** While no partial sum leaves the 16-bit range, saturation never acts, so the output has the
      positional meaning of IncrementalIsPositional up to TruncationLoss. */
  lemma {:induction false} UnsaturatedIsTruncated(g: Gains, xs: seq<int>)
    requires forall n :: 0 < n <= |xs| ==> -0x8000 <= Truncated(g, xs[..n], 0x8000) <= 0x7FFF
    ensures Saturated(g, xs) == Truncated(g, xs, 0x8000)
  {
    if xs != [] {
      var before := xs[..|xs| - 1];
      assert xs[..|xs|] == xs;
      forall n | 0 < n <= |before|
        ensures -0x8000 <= Truncated(g, before[..n], 0x8000) <= 0x7FFF
      {
        assert before[..n] == xs[..n];
      }
      UnsaturatedIsTruncated(g, before);
    }
  }

  class PidQ15 {
    var gains: Gains
    var state: array<int>
    ghost var inputs: seq<int>

    ghost predicate Valid()
      reads this, state
    {
      && state.Length == 3
      && Fits16(gains.a0) && Fits16(gains.a1) && Fits16(gains.a2)
      && Fits16(state[0]) && Fits16(state[1])
      && state[0] == Recent(inputs, 0) && state[1] == Recent(inputs, 1) && state[2] == Saturated(gains, inputs)
    }

    constructor (gains: Gains)
      requires Fits16(gains.a0) && Fits16(gains.a1) && Fits16(gains.a2)
      ensures Valid() && fresh(state) && this.gains == gains && inputs == []
    {
      this.gains := gains;
      state := new int[3](_ => 0);
      inputs := [];
    }

    /** No product, sum or argument of the saturation leaves its type. */
    method Process(x: int) returns (out: int)
      requires Valid() && Fits16(x)
      modifies this`inputs, state
      ensures Valid() && inputs == old(inputs) + [x] && out == state[2] == Saturated(gains, inputs)
      ensures state[0] == x && state[1] == old(state[0])
      ensures var acc := gains.a0 * x + gains.a1 * old(state[0]) + gains.a2 * old(state[1]) + old(state[2]) * 0x8000;
        out == Clamp(acc / 0x8000, -0x8000, 0x7FFF)
    {
      hide Recent, Saturated, Fits16;
      HistoryStep(gains, inputs, x);
      Products16(gains, x, state[0], state[1]);
      var acc := gains.a0 * x;
      assert Int32(acc);
      acc := acc + gains.a1 * state[0];
      acc := acc + gains.a2 * state[1];
      acc := acc + state[2] * 0x8000;
      assert Int32(state[2] * 0x8000) && Int64(acc) && Int32(acc / 0x8000);
      out := Clamp(acc / 0x8000, -0x8000, 0x7FFF);
      state[1] := state[0];
      state[0] := x;
      state[2] := out;
      inputs := inputs + [x];
    }
  }

  predicate Fits16(x: int) { -0x8000 <= x <= 0x7FFF }

  lemma Products16(g: Gains, x: int, x1: int, x2: int)
    requires Fits16(g.a0) && Fits16(g.a1) && Fits16(g.a2) && Fits16(x) && Fits16(x1) && Fits16(x2)
    ensures -0x4000_0000 <= g.a0 * x <= 0x4000_0000
    ensures -0x4000_0000 <= g.a1 * x1 <= 0x4000_0000
    ensures -0x4000_0000 <= g.a2 * x2 <= 0x4000_0000
  {
    ProductBound(g.a0, x, 0x8000, 0x8000);
    ProductBound(g.a1, x1, 0x8000, 0x8000);
    ProductBound(g.a2, x2, 0x8000, 0x8000);
  }
}
