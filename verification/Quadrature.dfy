/** The quadrature encoder interface of QEI.cpp over a physical position whose pins follow the
    Gray cycle 00, 01, 11, 10 (channel A is the high bit). */
module Quadrature {
  import opened Bits

  /** Pins as the source's two-bit state, 2 * A + B. */
  type Pins = s: int | 0 <= s < 4

  type Counter = x: int | -0x8000_0000 <= x < 0x8000_0000

  function PinsAt(q: int): Pins {
    if q % 4 == 0 then 0 else if q % 4 == 1 then 1 else if q % 4 == 2 then 3 else 2
  }

  /** Where a pin pair stands in the Gray cycle. */
  function Phase(s: Pins): int { if s == 2 then 3 else if s == 3 then 2 else s }

  /** The bits of a state: `(s & 2) >> 1` and `s & 1`. */
  function A(s: Pins): int { if s >= 2 then 1 else 0 }
  function B(s: Pins): int { if s == 1 || s == 3 then 1 else 0 }

  function Xor(x: int, y: int): int { if x == y then 0 else 1 }

  /** 1 when the channels agree. */
  function Agree(s: Pins): int { if A(s) == B(s) then 1 else 0 }

  /** The cycle in pins, the channels' agreement, and where channel A has its edges. */
  lemma GrayCycle(k: int)
    ensures PinsAt(4 * k) == 0 && PinsAt(4 * k + 1) == 1 && PinsAt(4 * k + 2) == 3 && PinsAt(4 * k + 3) == 2
    ensures Agree(0) == Agree(3) == 1 && Agree(1) == Agree(2) == 0
    ensures A(0) == A(1) == 0 && A(2) == A(3) == 1 && B(0) == B(2) == 0 && B(1) == B(3) == 1
  {
    DivModUnique(4 * k, 4, k, 0);
    DivModUnique(4 * k + 1, 4, k, 1);
    DivModUnique(4 * k + 2, 4, k, 2);
    DivModUnique(4 * k + 3, 4, k, 3);
  }

  // ---- what one sample should count ---------------------------------------------------------

  /** X2: a sample opposite to the last one counts up when its channels agree, else down. */
  function X2Delta(prev: Pins, curr: Pins): int {
    if A(prev) != A(curr) && B(prev) != B(curr) then (if Agree(curr) == 1 then 1 else -1) else 0
  }

  /** X4: the signed step along the Gray cycle; a two-bit jump counts nothing. */
  function X4Delta(prev: Pins, curr: Pins): int {
    var d := Phase(curr) - Phase(prev);
    if d == 1 || d == -3 then 1 else if d == -1 || d == 3 then -1 else 0
  }

  function Delta(x4: bool, prev: Pins, curr: Pins): int {
    if x4 then X4Delta(prev, curr) else X2Delta(prev, curr)
  }

  /** Upwards the cycle is 00, 01, 11, 10: X4 counts its four steps and their reversals, X2 the samples
      two steps apart, up into agreement and down out of it. */
  lemma DeltaTable(s: Pins, t: Pins)
    ensures X4Delta(0, 1) == X4Delta(1, 3) == X4Delta(3, 2) == X4Delta(2, 0) == 1
    ensures X4Delta(1, 0) == X4Delta(3, 1) == X4Delta(2, 3) == X4Delta(0, 2) == -1
    ensures s == t || s + t == 3 ==> X4Delta(s, t) == 0
    ensures X2Delta(0, 3) == X2Delta(3, 0) == 1 && X2Delta(1, 2) == X2Delta(2, 1) == -1
    ensures s + t != 3 ==> X2Delta(s, t) == 0
    ensures Delta(true, s, t) == X4Delta(s, t) && Delta(false, s, t) == X2Delta(s, t)
  {
  }

  // ---- C integer division -------------------------------------------------------------------

  function TruncDiv(a: int, n: int): int
    requires n != 0
  {
    var q := (if a < 0 then -a else a) / if n < 0 then -n else n;
    if (a < 0) == (n < 0) then q else -q
  }

  function TruncMod(a: int, n: int): int
    requires n != 0
  {
    a - n * TruncDiv(a, n)
  }

  /** Quotient and remainder as C defines them: the remainder has the sign of the dividend. */
  lemma TruncMeaning(a: int, n: int)
    requires n != 0
    ensures a == n * TruncDiv(a, n) + TruncMod(a, n)
    ensures a >= 0 ==> 0 <= TruncMod(a, n) < (if n < 0 then -n else n)
    ensures a <= 0 ==> (if n < 0 then n else -n) < TruncMod(a, n) <= 0
  {
    hide TruncDiv;
    if n > 0 {
      PositiveQuotient(a, n);
    } else {
      NegativeQuotient(a, -n);
    }
  }

  /** The multiple of `n` nearest to `a`, as a factor; ties go toward zero. */
  function Nearest(a: int, n: int): int
    requires n > 0
  {
    if a >= 0 then (2 * a + n - 1) / (2 * n) else -((2 * -a + n - 1) / (2 * n))
  }

  /** What the source's rounding makes of a distance when the revolution size is `-n`: the multiple of
      `n` next toward zero, and from there one revolution further past zero, unless n is 1. */
  function Displaced(a: int, n: int): int
    requires n > 0
  {
    if n == 1 then a else if a > 0 then n * (a / n) - n else n - n * (-a / n)
  }

  /** Beyond size 1 it lies between one and two revolutions from `a`, on the other side of zero or past
      it. */
  lemma DisplacedMeaning(a: int, n: int)
    requires n > 1
    ensures Displaced(a, n) % n == 0
    ensures a > 0 ==> n <= a - Displaced(a, n) < 2 * n
    ensures a <= 0 ==> n <= Displaced(a, n) - a < 2 * n
  {
    var q := if a > 0 then a / n else -a / n;
    assert (if a > 0 then a else -a) == n * q + (if a > 0 then a else -a) % n;
    assert n * (q - 1) == n * q - n && n * (1 - q) == n - n * q;
    DivModUnique(Displaced(a, n), n, if a > 0 then q - 1 else 1 - q, 0);
  }

  function Xor2(s: Pins, t: Pins): Pins { 2 * Xor(A(s), A(t)) + Xor(B(s), B(t)) }

  class Qei {
    var x4: bool
    var pulses: Counter
    var revolutions: Counter
    var pulsesPerRev: Counter
    var prevState: Pins
    var currState: Pins
    var firstZ: bool
    var Zshift: Counter

    /** X4 counting doubles the stored pulses per revolution. */
    constructor (chanA: int, chanB: int, pulsesPerRev: Counter, x4: bool)
      requires 0 <= chanA <= 1 && 0 <= chanB <= 1
      ensures this.x4 == x4 && pulses == 0 && revolutions == 0 && firstZ
      ensures prevState == currState == 2 * chanA + chanB
      ensures this.pulsesPerRev == if x4 then ToSigned32(2 * pulsesPerRev) else pulsesPerRev
    {
      this.x4 := x4;
      pulses := 0;
      revolutions := 0;
      this.pulsesPerRev := if x4 then ToSigned32(pulsesPerRev * 2) else pulsesPerRev;
      firstZ := true;
      currState := 2 * chanA + chanB;
      prevState := 2 * chanA + chanB;
    }

    method Reset()
      modifies `pulses, `revolutions, `firstZ
      ensures pulses == 0 && revolutions == 0 && firstZ
    {
      pulses := 0;
      revolutions := 0;
      firstZ := true;
    }

    method Encode(chanA: int, chanB: int)
      requires 0 <= chanA <= 1 && 0 <= chanB <= 1
      modifies `pulses, `prevState, `currState
      ensures prevState == currState == 2 * chanA + chanB
      ensures pulses == ToSigned32(old(pulses) + Delta(x4, old(prevState), currState))
    {
      hide ToSigned32, X2Delta, X4Delta, Xor2, A, B;
      SignedFits(pulses);
      X2Branches(prevState, 2 * chanA + chanB);
      X4Branches(prevState, 2 * chanA + chanB);
      var change := 0;
      currState := 2 * chanA + chanB;
      if !x4 {
        if (prevState == 3 && currState == 0) || (prevState == 0 && currState == 3) {
          pulses := ToSigned32(pulses + 1);
        } else if (prevState == 2 && currState == 1) || (prevState == 1 && currState == 2) {
          pulses := ToSigned32(pulses - 1);
        }
      } else {
        if Xor2(currState, prevState) != 3 && currState != prevState {
          change := Xor(B(prevState), A(currState));
          if change == 0 {
            change := -1;
          }
          pulses := ToSigned32(pulses - change);
        }
      }
      prevState := currState;
    }

    /** Snaps the count to the nearest whole number of revolutions from the first index. */
    method Index()
      requires pulsesPerRev != 0
      modifies `pulses, `revolutions, `firstZ, `Zshift
      ensures !firstZ && Zshift == (if old(firstZ) then old(pulses) else old(Zshift))
      ensures revolutions == ToSigned32(old(revolutions) + 1)
      ensures pulsesPerRev > 0 ==> pulses == IndexCount(old(pulses), Zshift, pulsesPerRev)
      ensures pulsesPerRev > 0 ==>
        var r := Snap(old(pulses), Zshift, pulsesPerRev);
        Int32(old(pulses) - Zshift) && Int32(r) ==> pulses == r
      ensures pulsesPerRev < 0 ==>
        pulses == ToSigned32(Displaced(ToSigned32(old(pulses) - Zshift), -(pulsesPerRev as int)) + Zshift)
    {
      hide ToSigned32, TruncDiv, TruncMod, Nearest, Displaced;
      if pulsesPerRev > 0 {
        InRange(pulses, if firstZ then pulses else Zshift, pulsesPerRev);
      }
      if firstZ {
        Zshift := pulses;
        firstZ := false;
      }
      revolutions := ToSigned32(revolutions + 1);
      var pls := ToSigned32(pulses - Zshift);
      var x := TruncMod(pls, pulsesPerRev);
      var y := TruncDiv(pls, pulsesPerRev);
      if pls > 0 {
        if x > TruncDiv(pulsesPerRev, 2) {
          y := y + 1;
        }
      } else {
        if x < TruncDiv(pulsesPerRev, -2) {
          y := y - 1;
        }
      }
      if pulsesPerRev > 0 {
        RoundedIsNearest(pls, pulsesPerRev);
      } else {
        RoundedIsDisplaced(pls, -(pulsesPerRev as int));
      }
      pulses := ToSigned32(pulsesPerRev * y + Zshift);
    }
  }

  lemma InRange(p: int, z: int, n: int)
    requires n > 0
    ensures Int32(p - z) ==> ToSigned32(p - z) == p - z
    ensures Int32(Snap(p, z, n)) ==> ToSigned32(Snap(p, z, n)) == Snap(p, z, n)
  {
  }

  /** The source's state comparisons. */
  lemma X2Branches(prev: Pins, curr: Pins)
    ensures X2Delta(prev, curr) ==
      if (prev == 3 && curr == 0) || (prev == 0 && curr == 3) then 1
      else if (prev == 2 && curr == 1) || (prev == 1 && curr == 2) then -1 else 0
  {
  }

  lemma X4Branches(prev: Pins, curr: Pins)
    ensures X4Delta(prev, curr) ==
      if Xor2(curr, prev) != 3 && curr != prev then (if Xor(B(prev), A(curr)) == 0 then 1 else -1) else 0
  {
  }

  lemma HalfUp(m: nat, n: nat)
    requires n > 0
    ensures (2 * m + n - 1) / (2 * n) == if m % n > n / 2 then m / n + 1 else m / n
  {
    var q, r := m / n, m % n;
    assert m == n * q + r;
    Products(n, q);
    if r > n / 2 {
      DivModUnique(2 * m + n - 1, 2 * n, q + 1, 2 * r - n - 1);
    } else {
      DivModUnique(2 * m + n - 1, 2 * n, q, 2 * r + n - 1);
    }
  }

  lemma Products(n: int, q: int)
    ensures (2 * n) * q == 2 * (n * q) && (2 * n) * (q + 1) == 2 * (n * q) + 2 * n
    ensures n * -q == -(n * q)
  {
  }

  /** The source's rounding as one factor. */
  function Factor(a: int, n: int): int
    requires n != 0
  {
    var x, y := TruncMod(a, n), TruncDiv(a, n);
    if a > 0 then (if x > TruncDiv(n, 2) then y + 1 else y) else (if x < TruncDiv(n, -2) then y - 1 else y)
  }

  /** The source's rounding of quotient and remainder. */
  lemma RoundedIsNearest(a: int, n: int)
    requires n > 0
    ensures Factor(a, n) == Nearest(a, n)
  {
    hide TruncDiv, TruncMod;
    PositiveQuotient(a, n);
    PositiveHalves(n);
    HalfUp(if a >= 0 then a else -a, n);
  }

  lemma PositiveQuotient(a: int, n: int)
    requires n > 0
    ensures a >= 0 ==> TruncDiv(a, n) == a / n && TruncMod(a, n) == a % n
    ensures a < 0 ==> TruncDiv(a, n) == -(-a / n) && TruncMod(a, n) == -(-a % n)
  {
    var m := if a >= 0 then a else -a;
    Remainder(m, n);
    Products(n, m / n);
  }

  lemma PositiveHalves(n: int)
    requires n > 0
    ensures TruncDiv(n, 2) == n / 2 && TruncDiv(n, -2) == -(n / 2)
  {
  }

  /** The same code with a negative revolution size. */
  lemma RoundedIsDisplaced(a: int, k: int)
    requires k > 0
    ensures -k * Factor(a, -k) == Displaced(a, k)
  {
    var q := if a > 0 then a / k else -a / k;
    NegativeFactor(a, k, q);
    NegativeProducts(k, q);
  }

  lemma NegativeFactor(a: int, k: int, q: int)
    requires k > 0 && q == if a > 0 then a / k else -a / k
    ensures Factor(a, -k) == if k == 1 then -a else if a > 0 then 1 - q else q - 1
  {
    hide TruncDiv, TruncMod;
    NegativeQuotient(a, k);
    NegativeHalves(k);
  }

  lemma NegativeProducts(k: int, q: int)
    ensures -k * (1 - q) == k * q - k && -k * (q - 1) == k - k * q
  {
  }

  lemma NegativeQuotient(a: int, k: int)
    requires k > 0
    ensures a >= 0 ==> TruncDiv(a, -k) == -(a / k) && 0 <= TruncMod(a, -k) < k
    ensures a <= 0 ==> TruncDiv(a, -k) == -a / k && -k < TruncMod(a, -k) <= 0
    ensures k == 1 ==> TruncMod(a, -k) == 0 && a / k == a && -a / k == -a
  {
    var m := if a >= 0 then a else -a;
    Remainder(m, k);
    assert -k * -(m / k) == k * (m / k) && -k * (m / k) == -(k * (m / k));
    if a == 0 {
      DivModUnique(0, k, 0, 0);
    }
  }

  lemma NegativeHalves(k: int)
    requires k > 0
    ensures TruncDiv(-k, 2) == -(k / 2) && TruncDiv(-k, -2) == k / 2
  {
  }

  /** A negative size leaves no count alone, right or wrong, unless it is -1. */
  lemma NegativeSizeSpoils(a: int, n: int)
    requires n > 0
    ensures Displaced(a, n) == a <==> n == 1
  {
    if a > 0 {
      Remainder(a, n);
    } else {
      Remainder(-a, n);
    }
  }

  lemma Remainder(m: nat, n: nat)
    requires n > 0
    ensures m - n * (m / n) == m % n
  {
  }

  // ---- walks of a physical shaft ------------------------------------------------------------

  /** A shaft position with the decoder's last sample and count. */
  datatype Track = Track(q: int, prev: Pins, pulses: int)

  function Moved(q: int, up: bool): int { if up then q + 1 else q - 1 }

  /** X2 samples the pins only on an edge of channel A, X4 on every edge. */
  predicate Sampled(x4: bool, q: int, up: bool) {
    x4 || A(PinsAt(Moved(q, up))) != A(PinsAt(q))
  }

  /** On a sampled edge `Encode` counts. */
  function Step(x4: bool, t: Track, up: bool): Track {
    var q := Moved(t.q, up);
    if Sampled(x4, t.q, up) then Track(q, PinsAt(q), ToSigned32(t.pulses + Delta(x4, t.prev, PinsAt(q))))
    else t.(q := q)
  }

  function Walk(x4: bool, t: Track, steps: seq<bool>): Track {
    if steps == [] then t else Step(x4, Walk(x4, t, steps[..|steps| - 1]), steps[|steps| - 1])
  }

  /** A walk moves one position a step; X4 samples on each, X2 on those that end on an even position
      upwards and on an odd one downwards, where channel A has its edges. */
  lemma WalkMeaning(x4: bool, t: Track, steps: seq<bool>, up: bool)
    ensures Walk(x4, t, []) == t
    ensures var before, after := Walk(x4, t, steps), Walk(x4, t, steps + [up]);
      && after.q == before.q + (if up then 1 else -1)
      && (if x4 || (up <==> after.q % 2 == 0) then
            after.prev == PinsAt(after.q) && after.pulses == ToSigned32(before.pulses + Delta(x4, before.prev, after.prev))
          else after.prev == before.prev && after.pulses == before.pulses)
  {
    hide ToSigned32, Delta;
    assert (steps + [up])[..|steps|] == steps;
    SampledParity(x4, Walk(x4, t, steps).q, up);
  }

  lemma SampledParity(x4: bool, q: int, up: bool)
    ensures Sampled(x4, q, up) <==> x4 || (up <==> Moved(q, up) % 2 == 0)
  {
    Residue(q);
    Residue(Moved(q, up));
  }

  /** The last sample agrees with the pins on channel A: true at construction and after reset. */
  predicate InStep(t: Track) { A(t.prev) == A(PinsAt(t.q)) && Int32(t.pulses) }

  /** The true count of A edges, corrected by whether the channels agreed at the last sample. */
  function Edges(t: Track): int { t.q / 2 - Agree(t.prev) }

  lemma X2StepCounts(t: Track, up: bool)
    requires InStep(t)
    ensures var t' := Step(false, t, up);
      InStep(t') && t'.pulses == ToSigned32(t.pulses + Edges(t') - Edges(t))
  {
    hide ToSigned32;
    SignedFits(t.pulses);
    HalfStep(t.q);
    HalfStep(t.q - 1);
  }

  lemma HalfStep(q: int)
    ensures (q + 1) / 2 == if q % 4 == 0 || q % 4 == 2 then q / 2 else q / 2 + 1
    ensures (q + 1) % 4 == if q % 4 == 3 then 0 else q % 4 + 1
  {
    var k, r := q / 4, q % 4;
    DivModUnique(q, 2, 2 * k + r / 2, r % 2);
    DivModUnique(q + 1, 2, 2 * k + (r + 1) / 2, (r + 1) % 2);
    DivModUnique(q + 1, 4, if r == 3 then k + 1 else k, if r == 3 then 0 else r + 1);
  }

  /** X2 never drifts: after any walk, with any number of reversals, the count is the number of
      A edges passed upwards, offset by the two agreement terms alone (modulo 2^32). */
  lemma {:induction false} X2NeverDrifts(t: Track, steps: seq<bool>)
    requires InStep(t)
    ensures var t' := Walk(false, t, steps);
      InStep(t') && t'.pulses == ToSigned32(t.pulses + Edges(t') - Edges(t))
  {
    hide ToSigned32, Edges, InStep, Step;
    if steps == [] {
      StartsInStep(t);
    } else {
      var before := Walk(false, t, steps[..|steps| - 1]);
      X2NeverDrifts(t, steps[..|steps| - 1]);
      X2StepCounts(before, steps[|steps| - 1]);
      WrapSum(t.pulses + Edges(before) - Edges(t), Edges(Walk(false, t, steps)) - Edges(before));
    }
  }

  lemma StartsInStep(t: Track)
    requires InStep(t)
    ensures ToSigned32(t.pulses) == t.pulses
  {
  }

  /** After a walk of any length the count is the true number of A edges, off by at most one, exactly
      when that value is in the counter's range; every displacement within 2^31 - 2 edges is. */
  lemma X2WithinOne(q0: int, steps: seq<bool>)
    ensures var t := Walk(false, Track(q0, PinsAt(q0), 0), steps);
      var edges, offset := t.q / 2 - q0 / 2, Agree(PinsAt(q0)) - Agree(t.prev);
      && -1 <= offset <= 1
      && (t.pulses == edges + offset <==> Int32(edges + offset))
      && (-0x7FFF_FFFF <= edges <= 0x7FFF_FFFE ==> -1 <= t.pulses - edges == offset <= 1)
  {
    hide Walk, PinsAt;
    X2NeverDrifts(Track(q0, PinsAt(q0), 0), steps);
  }

  /** X4 counts every step of the shaft. */
  lemma {:induction false} X4IsDisplacement(t: Track, steps: seq<bool>)
    requires t.prev == PinsAt(t.q) && Int32(t.pulses)
    ensures var t' := Walk(true, t, steps);
      t'.prev == PinsAt(t'.q) && Int32(t'.pulses) && t'.pulses == ToSigned32(t.pulses + t'.q - t.q)
  {
    hide ToSigned32;
    if steps == [] {
      SignedFits(t.pulses);
    } else {
      var before := Walk(true, t, steps[..|steps| - 1]);
      X4IsDisplacement(t, steps[..|steps| - 1]);
      HalfStep(before.q);
      HalfStep(before.q - 1);
      WrapSum(t.pulses + before.q - t.q, 1);
      WrapSum(t.pulses + before.q - t.q, -1);
    }
  }

  /** On the same walk, of any length, twice the X2 count stays within three of the X4 count while the
      X4 counter does not wrap. */
  lemma X2AgainstX4(q0: int, steps: seq<bool>)
    ensures var start := Track(q0, PinsAt(q0), 0);
      var t2, t4 := Walk(false, start, steps), Walk(true, start, steps);
      t2.q == t4.q && (Int32(t4.q - q0) ==> -3 <= 2 * t2.pulses - t4.pulses <= 3)
  {
    hide Walk, PinsAt, Agree;
    var start := Track(q0, PinsAt(q0), 0);
    X2WithinOne(q0, steps);
    X4IsDisplacement(start, steps);
    SamePosition(start, steps);
  }

  lemma {:induction false} SamePosition(t: Track, steps: seq<bool>)
    ensures Walk(false, t, steps).q == Walk(true, t, steps).q
  {
    if steps != [] {
      SamePosition(t, steps[..|steps| - 1]);
    }
  }

  // ---- X4 on arbitrary samples --------------------------------------------------------------

  /** Count after any sequence of sampled pin pairs, and how many of them were two-bit jumps. */
  function X4Count(init: Pins, samples: seq<Pins>): int {
    if samples == [] then 0
    else
      var rest := samples[..|samples| - 1];
      ToSigned32(X4Count(init, rest) + X4Delta(LastOf(init, rest), samples[|samples| - 1]))
  }

  function LastOf(init: Pins, samples: seq<Pins>): Pins {
    if samples == [] then init else samples[|samples| - 1]
  }

  function Jumps(init: Pins, samples: seq<Pins>): nat {
    if samples == [] then 0
    else
      var rest := samples[..|samples| - 1];
      Jumps(init, rest) + if Xor2(LastOf(init, rest), samples[|samples| - 1]) == 3 then 1 else 0
  }

  /** Conservation: the count plus two for every missed jump follows the Gray cycle modulo 4, on
      any samples at all and through any wrap of the counter. */
  lemma {:induction false} X4Conserves(init: Pins, samples: seq<Pins>)
    ensures (X4Count(init, samples) + 2 * Jumps(init, samples) - (Phase(LastOf(init, samples)) - Phase(init))) % 4 == 0
  {
    hide ToSigned32, Xor2, X4Delta, Phase;
    if samples != [] {
      var rest := samples[..|samples| - 1];
      var last, s := LastOf(init, rest), samples[|samples| - 1];
      X4Conserves(init, rest);
      PhaseStep(last, s);
      WrapKeepsQuarter(X4Count(init, rest) + X4Delta(last, s));
    }
  }

  lemma PhaseStep(prev: Pins, curr: Pins)
    ensures var d := X4Delta(prev, curr) + 2 * (if Xor2(prev, curr) == 3 then 1 else 0) - (Phase(curr) - Phase(prev));
      d == 0 || d == 4 || d == -4
  {
  }

  lemma WrapKeepsQuarter(x: int)
    ensures (ToSigned32(x) - x) % 4 == 0
  {
    var k := (x + 0x8000_0000) / 0x1_0000_0000;
    assert ToSigned32(x) - x == 4 * (-k * 0x4000_0000);
  }

  // ---- index pulses -------------------------------------------------------------------------

  /** The count after an index pulse, where `z` is the count at the first one. */
  function Snap(pulses: int, z: int, n: int): int
    requires n > 0
  {
    n * Nearest(pulses - z, n) + z
  }

  /** The snap is a whole number of revolutions away from `z`, moves the count by at most half a
      revolution, and on a tie moves it toward `z`. */
  lemma SnapIsNearest(pulses: int, z: int, n: int)
    requires n > 0
    ensures var r := Snap(pulses, z, n);
      && -n <= 2 * (r - pulses) <= n && (r - z) % n == 0
      && (2 * (r - pulses) == n ==> r <= z) && (2 * (r - pulses) == -n ==> r >= z)
  {
    hide Nearest;
    NearestBounds(pulses - z, n);
    DivModUnique(n * Nearest(pulses - z, n), n, Nearest(pulses - z, n), 0);
  }

  lemma NearestBounds(a: int, n: int)
    requires n > 0
    ensures var k := Nearest(a, n);
      && -n <= 2 * (n * k - a) <= n
      && (2 * (n * k - a) == n ==> n * k <= 0) && (2 * (n * k - a) == -n ==> n * k >= 0)
  {
    var m := if a >= 0 then a else -a;
    HalfUpBounds(m, n);
    Products(n, (2 * m + n - 1) / (2 * n));
  }

  lemma HalfUpBounds(m: int, n: int)
    requires m >= 0 && n > 0
    ensures var j := (2 * m + n - 1) / (2 * n);
      j >= 0 && n * j >= 0 && -n <= 2 * (n * j - m) < n
  {
    HalfUp(m, n);
    assert m == n * (m / n) + m % n;
    RoundedBounds(m, n, m / n, m % n);
  }

  lemma RoundedBounds(m: int, n: int, q: int, r: int)
    requires n > 0 && q >= 0 && m == n * q + r && 0 <= r < n
    ensures var j := if r > n / 2 then q + 1 else q;
      j >= 0 && n * j >= 0 && -n <= 2 * (n * j - m) < n
  {
    MulMono(n, 0, q);
    assert n * (q + 1) == n * q + n;
  }

  /** A count less than half a revolution off snaps to the exact multiple. */
  lemma SnapRecovers(pulses: int, z: int, n: int, k: int)
    requires n > 0 && -n < 2 * (pulses - z - n * k) < n
    ensures Snap(pulses, z, n) == n * k + z
  {
    var a := pulses - z;
    var j := Nearest(a, n);
    NearestBounds(a, n);
    assert n * (j - k) == n * j - n * k;
    ProductSmall(n, j - k);
  }

  lemma SnapIdempotent(pulses: int, z: int, n: int)
    requires n > 0
    ensures Snap(Snap(pulses, z, n), z, n) == Snap(pulses, z, n)
  {
    SnapRecovers(Snap(pulses, z, n), z, n, Nearest(pulses - z, n));
  }

  /** The count that an index pulse leaves, with the source's wraps around the snap. */
  function IndexCount(pulses: int, z: int, n: int): (r: Counter)
    requires n > 0
  {
    ToSigned32(Snap(z + ToSigned32(pulses - z), z, n))
  }

  /** An index pulse leaves a count alone exactly when its wrapped distance to the first index is a
      whole number of revolutions. */
  lemma IndexKeepsExactly(pulses: Counter, z: Counter, n: Counter)
    requires n > 0
    ensures IndexCount(pulses, z, n) == pulses <==> ToSigned32(pulses - z) % n == 0
  {
    hide ToSigned32, Nearest;
    var d := ToSigned32(pulses - z);
    var k := Nearest(d, n);
    NearestBounds(d, n);
    MultipleIsNearest(d, n);
    WrapSum(pulses - z, z);
    SignedFits(pulses);
    SameWrap(n * k + z, d + z);
  }

  lemma MultipleIsNearest(d: int, n: int)
    requires n > 0
    ensures n * Nearest(d, n) == d <==> d % n == 0
  {
    hide Nearest;
    var k, q := Nearest(d, n), d / n;
    if n * k == d {
      DivModUnique(d, n, k, 0);
    }
    if d % n == 0 {
      assert d == n * q;
      NearestBounds(d, n);
      assert n * (k - q) == n * k - n * q;
      ProductSmall(n, k - q);
    }
  }

  lemma SameWrap(x: int, y: int)
    requires -0x1_0000_0000 < x - y < 0x1_0000_0000
    ensures ToSigned32(x) == ToSigned32(y) <==> x == y
  {
  }

  /** Without any miscount: 2982617 revolutions of 720 counts pass the counter's range, and the index
      pulse then moves a count that was right. */
  lemma IndexPastTheRange()
    ensures IndexCount(ToSigned32(720 * 2982617), 0, 720) != ToSigned32(720 * 2982617)
  {
    hide IndexCount;
    IndexKeepsExactly(ToSigned32(720 * 2982617), 0, 720);
    DivModUnique(-2147483056, 720, -2982616, 464);
    SignedFits(-2147483056);
    assert ToSigned32(720 * 2982617) == -2147483056;
  }

  /** Within the range, a count less than half a revolution off becomes right. */
  lemma IndexRecovers(k: int, error: int, z: int, n: int)
    requires n > 0 && -n < 2 * error < n && Int32(n * k + error)
    ensures IndexCount(ToSigned32(n * k + z + error), z, n) == ToSigned32(n * k + z)
  {
    hide ToSigned32, Snap;
    WrapSum(n * k + z + error, -z);
    SignedFits(n * k + error);
    SnapRecovers(z + (n * k + error), z, n, k);
  }

  // ---- missed edges -------------------------------------------------------------------------

  /** One step of the shaft, and whether the decoder's interrupt ran for it. */
  datatype Edge = Edge(up: bool, seen: bool)

  function Pass(x4: bool, t: Track, e: Edge): Track {
    if e.seen then Step(x4, t, e.up) else t.(q := Moved(t.q, e.up))
  }

  function Ride(x4: bool, t: Track, edges: seq<Edge>): Track {
    if edges == [] then t else Pass(x4, Ride(x4, t, edges[..|edges| - 1]), edges[|edges| - 1])
  }

  /** How many edges the decoder should have sampled and did not. */
  function Missed(x4: bool, t: Track, edges: seq<Edge>): nat {
    if edges == [] then 0
    else
      var rest, e := edges[..|edges| - 1], edges[|edges| - 1];
      Missed(x4, t, rest) + if !e.seen && Sampled(x4, Ride(x4, t, rest).q, e.up) then 1 else 0
  }

  /** The counts of a ride, without wraps. */
  function Counted(x4: bool, t: Track, edges: seq<Edge>): int {
    if edges == [] then 0
    else
      var rest, e := edges[..|edges| - 1], edges[|edges| - 1];
      var before := Ride(x4, t, rest);
      Counted(x4, t, rest) +
      if e.seen && Sampled(x4, before.q, e.up) then Delta(x4, before.prev, PinsAt(Moved(before.q, e.up))) else 0
  }

  /** One more edge: seen, it is a step of the walk; missed, it moves the shaft alone, and counts as missed
      where the decoder would have sampled. */
  lemma RideMeaning(x4: bool, t: Track, edges: seq<Edge>, up: bool)
    ensures Ride(x4, t, []) == t && Missed(x4, t, []) == 0
    ensures Ride(x4, t, edges + [Edge(up, true)]) == Walk(x4, Ride(x4, t, edges), [up])
    ensures Missed(x4, t, edges + [Edge(up, true)]) == Missed(x4, t, edges)
    ensures var before := Ride(x4, t, edges);
      && Ride(x4, t, edges + [Edge(up, false)]) == before.(q := before.q + if up then 1 else -1)
      && Missed(x4, t, edges + [Edge(up, false)]) == Missed(x4, t, edges) +
           if x4 || (up <==> (before.q + if up then 1 else -1) % 2 == 0) then 1 else 0
  {
    hide Step, Sampled;
    SampledParity(x4, Ride(x4, t, edges).q, up);
    OneStepWalk(x4, Ride(x4, t, edges), up);
    Extended(edges, Edge(up, true));
    Extended(edges, Edge(up, false));
  }

  lemma OneStepWalk(x4: bool, t: Track, up: bool)
    ensures Walk(x4, t, [up]) == Step(x4, t, up)
  {
    assert [up][..0] == [];
  }

  lemma Extended(edges: seq<Edge>, e: Edge)
    ensures (edges + [e])[..|edges + [e]| - 1] == edges && (edges + [e])[|edges + [e]| - 1] == e
  {
  }

  lemma {:induction false} RideCounts(x4: bool, t: Track, edges: seq<Edge>)
    requires Int32(t.pulses)
    ensures Ride(x4, t, edges).pulses == ToSigned32(t.pulses + Counted(x4, t, edges))
  {
    hide ToSigned32, Delta, Sampled, PinsAt;
    if edges == [] {
      SignedFits(t.pulses);
    } else {
      var rest, e := edges[..|edges| - 1], edges[|edges| - 1];
      var before := Ride(x4, t, rest);
      RideCounts(x4, t, rest);
      WrapSum(t.pulses + Counted(x4, t, rest), Delta(x4, before.prev, PinsAt(Moved(before.q, e.up))));
    }
  }

  function Seen(steps: seq<bool>): (edges: seq<Edge>)
    ensures |edges| == |steps|
  {
    seq(|steps|, i requires 0 <= i < |steps| => Edge(steps[i], true))
  }

  /** A ride that misses nothing is a walk. */
  lemma {:induction false} RideSeesAll(x4: bool, t: Track, steps: seq<bool>)
    ensures Ride(x4, t, Seen(steps)) == Walk(x4, t, steps)
  {
    hide Step;
    if steps != [] {
      var n := |steps| - 1;
      assert Seen(steps)[..n] == Seen(steps[..n]);
      RideSeesAll(x4, t, steps[..n]);
    }
  }

  /** The true count at a position: steps for X4, A edges for X2. */
  function Travelled(x4: bool, q: int): int { if x4 then q else q / 2 }

  /** The count that a decoder in step shows after sampling at `p`. */
  function Shown(x4: bool, p: int): int { if x4 then p else p / 2 - Agree(PinsAt(p)) }

  function Distance(x: int, y: int): nat { if x < y then y - x else x - y }

  /** Where a position stands in its cycle. */
  lemma Residue(q: int)
    ensures var i, r := q / 4, q % 4;
      && q == 4 * i + r && 0 <= r < 4
      && q / 2 == 2 * i + (if r < 2 then 0 else 1)
      && Phase(PinsAt(q)) == r
      && A(PinsAt(q)) == (if r < 2 then 0 else 1) && B(PinsAt(q)) == (if r == 1 || r == 2 then 1 else 0)
  {
    DivModUnique(q, 2, 2 * (q / 4) + q % 4 / 2, q % 4 % 2);
  }

  /** One sample: what it counts differs from what the shaft did since the last sample, at `p`, by at
      most twice the edges missed in between. */
  lemma SampleStep(x4: bool, p: int, q: int, up: bool)
    requires Sampled(x4, q, up)
    ensures var q' := Moved(q, up);
      && Distance(Delta(x4, PinsAt(p), PinsAt(q')), Shown(x4, q') - Shown(x4, p))
           <= 2 * Distance(Travelled(x4, q), Travelled(x4, p))
      && Distance(Travelled(x4, q'), Travelled(x4, q)) == 1
  {
    if x4 {
      X4SampleStep(p, q, up);
    } else {
      X2SampleStep(p, q, up);
    }
  }

  lemma X4SampleStep(p: int, q: int, up: bool)
    ensures var q' := Moved(q, up);
      && Distance(X4Delta(PinsAt(p), PinsAt(q')), q' - p) <= 2 * Distance(q, p)
  {
    hide PinsAt, Phase;
    var q' := Moved(q, up);
    Residue(p);
    Residue(q');
    X4Sample(p / 4, p % 4, q' / 4, q' % 4, up);
  }

  lemma X2SampleStep(p: int, q: int, up: bool)
    requires Sampled(false, q, up)
    ensures var q' := Moved(q, up);
      && Distance(X2Delta(PinsAt(p), PinsAt(q')), Shown(false, q') - Shown(false, p)) <= 2 * Distance(q / 2, p / 2)
      && Distance(q' / 2, q / 2) == 1
  {
    hide PinsAt, A, B;
    var q' := Moved(q, up);
    Residue(p);
    Residue(q');
    SampledEdge(q, up);
    hide Distance;
    X2Sample(p / 4, p % 4, q' / 4, q' % 4, up);
  }

  lemma SampledEdge(q: int, up: bool)
    ensures var q' := Moved(q, up);
      Sampled(false, q, up) ==>
        (up <==> q' % 4 == 0 || q' % 4 == 2) && q / 2 == q' / 2 + (if up then -1 else 1) && Distance(q' / 2, q / 2) == 1
    ensures var q' := Moved(q, up);
      !Sampled(false, q, up) ==> q' / 2 == q / 2 && A(PinsAt(q')) == A(PinsAt(q))
  {
    hide PinsAt, A, B;
    Residue(q);
    Residue(Moved(q, up));
    HalfStep(if up then q else Moved(q, up));
  }

  lemma X4Sample(i: int, r: int, j: int, s: int, up: bool)
    requires 0 <= r < 4 && 0 <= s < 4
    ensures var d := s - r;
      Distance(if d == 1 || d == -3 then 1 else if d == -1 || d == 3 then -1 else 0, 4 * j + s - (4 * i + r))
        <= 2 * Distance(Moved(4 * j + s, !up), 4 * i + r)
  {
  }

  /** The same for X2, where the sampled edges end on an even position upwards and an odd one downwards. */
  lemma X2Sample(i: int, r: int, j: int, s: int, up: bool)
    requires 0 <= r < 4 && 0 <= s < 4 && (up <==> s == 0 || s == 2)
    ensures var shown := 2 * j + (if s == 0 then -1 else if s == 3 then 1 else 0)
                         - (2 * i + if r == 0 then -1 else if r == 3 then 1 else 0);
      Distance(if (r < 2 <==> s >= 2) && (r == 0 || r == 3 <==> s == 1 || s == 2) then (if up then 1 else -1) else 0, shown)
        <= 2 * Distance(2 * j + (if s < 2 then 0 else 1) + (if up then -1 else 1), 2 * i + if r < 2 then 0 else 1)
  {
  }

  /** The decoder's last sample fits the shaft's position, as it does when nothing was missed. */
  predicate Aligned(x4: bool, t: Track) {
    if x4 then t.prev == PinsAt(t.q) else A(t.prev) == A(PinsAt(t.q))
  }

  /** The counts so far, against a last sample at `p`. */
  ghost predicate SampledAt(x4: bool, t: Track, counted: int, p: int, base: int, bound: int) {
    t.prev == PinsAt(p)
    && Distance(counted, Shown(x4, p) - base) + 2 * Distance(Travelled(x4, t.q), Travelled(x4, p)) <= bound
  }

  /** An aligned decoder might have sampled at this position. */
  lemma AlignedAt(x4: bool, t: Track) returns (p: int)
    requires Aligned(x4, t)
    ensures t.prev == PinsAt(p) && Travelled(x4, p) == Travelled(x4, t.q)
  {
    p := t.q;
    if t.prev != PinsAt(t.q) {
      p := if t.q % 2 == 0 then t.q + 1 else t.q - 1;
    }
    Residue(t.q);
    Residue(p);
  }

  /** Either nothing was sampled yet, or the counts since the start are those of the shaft up to twice
      the missed edges, and two more for a lost start. */
  ghost predicate Accounts(x4: bool, start: Track, t: Track, counted: int, missed: nat, p: int, base: int, sampled: bool) {
    && (Aligned(x4, start) ==> sampled)
    && base <= Travelled(x4, start.q) <= base + (if x4 then 0 else 1)
    && (sampled ==> SampledAt(x4, t, counted, p, base, 2 * missed + if Aligned(x4, start) then 0 else 2))
    && (!sampled ==> counted == 0 && Distance(Travelled(x4, t.q), Travelled(x4, start.q)) <= missed)
  }

  lemma AccountsAtStart(x4: bool, start: Track) returns (p: int, base: int, sampled: bool)
    ensures Accounts(x4, start, start, 0, 0, p, base, sampled)
  {
    hide PinsAt, Agree, Aligned;
    p, base, sampled := 0, Travelled(x4, start.q), false;
    if Aligned(x4, start) {
      p := AlignedAt(x4, start);
      base, sampled := Shown(x4, p), true;
      AgreeIsBit(start.prev);
    }
  }

  /** An edge that is not sampled, seen or missed. */
  lemma AccountsUnsampled(x4: bool, start: Track, t: Track, up: bool, c: int, m: nat, p: int, base: int, sampled: bool)
    requires Accounts(x4, start, t, c, m, p, base, sampled)
    ensures Accounts(x4, start, t.(q := Moved(t.q, up)), c, m + (if Sampled(x4, t.q, up) then 1 else 0), p, base, sampled)
  {
    hide PinsAt, Agree, Aligned, Sampled, Shown, Travelled, Moved;
    PassMoves(x4, t.q, up);
  }

  lemma AccountsSampled(x4: bool, start: Track, t: Track, up: bool, c: int, m: nat, p: int, base: int,
                        sampled: bool, count: int)
    returns (base': int)
    requires Accounts(x4, start, t, c, m, p, base, sampled) && Sampled(x4, t.q, up)
    ensures var q := Moved(t.q, up);
      Accounts(x4, start, Track(q, PinsAt(q), count), c + Delta(x4, t.prev, PinsAt(q)), m, q, base', true)
  {
    hide PinsAt, Agree, Aligned, Sampled, Delta, Travelled, Moved;
    var q := Moved(t.q, up);
    PassMoves(x4, t.q, up);
    base' := base;
    if sampled {
      hide Shown;
      SampleStep(x4, p, t.q, up);
    } else {
      base' := Travelled(x4, start.q) - if x4 then 0 else Agree(PinsAt(q));
      AgreeIsBit(PinsAt(q));
      ShownAt(x4, q);
      hide Shown;
    }
  }

  lemma ShownAt(x4: bool, p: int)
    ensures Shown(x4, p) == Travelled(x4, p) - if x4 then 0 else Agree(PinsAt(p))
  {
  }

  /** Every ride keeps account, aligned at its start or not. */
  lemma {:induction false} RideInvariant(x4: bool, t: Track, edges: seq<Edge>) returns (p: int, base: int, sampled: bool)
    ensures Accounts(x4, t, Ride(x4, t, edges), Counted(x4, t, edges), Missed(x4, t, edges), p, base, sampled)
  {
    hide PinsAt, Delta, Accounts, Sampled, Moved;
    if edges == [] {
      p, base, sampled := AccountsAtStart(x4, t);
    } else {
      var rest, e := edges[..|edges| - 1], edges[|edges| - 1];
      p, base, sampled := RideInvariant(x4, t, rest);
      var before, c, m := Ride(x4, t, rest), Counted(x4, t, rest), Missed(x4, t, rest);
      if e.seen && Sampled(x4, before.q, e.up) {
        base := AccountsSampled(x4, t, before, e.up, c, m, p, base, sampled, Ride(x4, t, edges).pulses);
        p, sampled := Moved(before.q, e.up), true;
      } else {
        AccountsUnsampled(x4, t, before, e.up, c, m, p, base, sampled);
      }
    }
  }

  lemma AgreeIsBit(s: Pins)
    ensures 0 <= Agree(s) <= 1 && forall prev: Pins, x4: bool {:trigger Delta(x4, prev, s)} :: -1 <= Delta(x4, prev, s) <= 1
  {
  }

  lemma PassMoves(x4: bool, q: int, up: bool)
    ensures Distance(Travelled(x4, Moved(q, up)), Travelled(x4, q)) == if Sampled(x4, q, up) then 1 else 0
  {
    hide PinsAt, A;
    SampledEdge(q, up);
  }

  /** What a ride can miscount for each edge it misses, and besides. */
  function Slack(x4: bool, aligned: bool): nat { (if x4 then 0 else 1) + if aligned then 0 else 2 }

  /** The miscount of any ride is bounded by the edges it missed: an X4 ride that begins aligned
      miscounts by at most two for each. */
  lemma MiscountBound(x4: bool, t: Track, edges: seq<Edge>)
    ensures Distance(Counted(x4, t, edges), Travelled(x4, Ride(x4, t, edges).q) - Travelled(x4, t.q))
         <= 2 * Missed(x4, t, edges) + Slack(x4, Aligned(x4, t))
    ensures x4 ==>
      var miscount := Counted(x4, t, edges) - (Ride(x4, t, edges).q - t.q);
      var bound := 2 * Missed(x4, t, edges) + if t.prev == PinsAt(t.q) then 0 else 2;
      -bound <= miscount <= bound
    ensures !x4 ==>
      var miscount := Counted(x4, t, edges) - (Ride(x4, t, edges).q / 2 - t.q / 2);
      var bound := 2 * Missed(x4, t, edges) + if t.prev >= 2 <==> PinsAt(t.q) >= 2 then 1 else 3;
      -bound <= miscount <= bound
  {
    hide Ride, Counted, Missed, PinsAt, Agree, Shown;
    var p, base, sampled := RideInvariant(x4, t, edges);
    if sampled {
      ShownAt(x4, p);
      AgreeIsBit(PinsAt(p));
    }
  }

  /** Two counts for one missed edge are lost indeed: a missed edge makes the next sample a two-bit
      jump. */
  lemma MiscountAttained()
    ensures var t, edges := Track(0, 0, 0), [Edge(true, false), Edge(true, true)];
      && Aligned(true, t) && Missed(true, t, edges) == 1
      && Counted(true, t, edges) == 0 && Ride(true, t, edges).q == 2
  {
    var t, edges := Track(0, 0, 0), [Edge(true, false), Edge(true, true)];
    assert edges[..1] == [Edge(true, false)] && edges[..1][..0] == [];
    assert Ride(true, t, edges[..1]) == Track(1, 0, 0);
    assert Counted(true, t, edges[..1]) == 0 && Missed(true, t, edges[..1]) == 1;
  }

  // ---- decoder and index together -----------------------------------------------------------

  /** The edges between two index pulses, the second of which stands at revolution `turn` of the first. */
  datatype Lap = Lap(edges: seq<Edge>, turn: int)

  function TurnAfter(laps: seq<Lap>): int {
    if laps == [] then 0 else laps[|laps| - 1].turn
  }

  /** Decoder and shaft after the last index pulse; `z` is the count at the first. */
  function Laps(x4: bool, t: Track, laps: seq<Lap>, z: int, n: int): Track
    requires n > 0
  {
    if laps == [] then t
    else
      var r := Ride(x4, Laps(x4, t, laps[..|laps| - 1], z, n), laps[|laps| - 1].edges);
      r.(pulses := IndexCount(r.pulses, z, n))
  }

  /** The index mark of revolution `turn`: X4 counts every step, X2 every other. */
  function Mark(x4: bool, q: int, n: int, turn: int): int {
    if x4 then q + n * turn else q + 2 * (n * turn)
  }

  /** The lap ends at its mark, misses few enough edges that its miscount stays below half a
      revolution, and its mark lies within the counter's range. */
  ghost predicate LapFits(x4: bool, q: int, before: Track, lap: Lap, n: int) {
    && Ride(x4, before, lap.edges).q == Mark(x4, q, n, lap.turn)
    && 2 * (2 * Missed(x4, before, lap.edges) + Slack(x4, Aligned(x4, before))) < n
    && -0x1_0000_0000 + n <= 2 * (n * lap.turn) < 0x1_0000_0000 - n
  }

  ghost predicate LapsFit(x4: bool, t: Track, laps: seq<Lap>, z: int, n: int)
    requires n > 0
  {
    laps == [] || (
      var rest := laps[..|laps| - 1];
      LapsFit(x4, t, rest, z, n) && LapFits(x4, t.q, Laps(x4, t, rest, z, n), laps[|laps| - 1], n))
  }

  lemma MarkTravelled(x4: bool, q: int, n: int, turn: int)
    ensures Travelled(x4, Mark(x4, q, n, turn)) == Travelled(x4, q) + n * turn
  {
    var k := n * turn;
    DivModUnique(q + 2 * k, 2, q / 2 + k, q % 2);
  }

  /** Index pulses cancel lost counts: if in every lap the missed edges cost less than half a
      revolution, the count is right after every index pulse, for any number of laps. */
  lemma {:induction false} IndexCancelsErrors(x4: bool, t: Track, laps: seq<Lap>, z: int, n: int)
    requires n > 0 && Int32(z) && t.pulses == z && LapsFit(x4, t, laps, z, n)
    ensures var t' := Laps(x4, t, laps, z, n);
      && t'.q == Mark(x4, t.q, n, TurnAfter(laps))
      && t'.pulses == ToSigned32(n * TurnAfter(laps) + z)
      && (Int32(n * TurnAfter(laps) + z) ==> t'.pulses == n * TurnAfter(laps) + z)
  {
    hide ToSigned32, Ride, Missed, IndexCount, Aligned, Mark, Travelled, Slack;
    if laps == [] {
      SignedFits(z);
      MarkAtStart(x4, t.q, n);
    } else {
      var rest, lap := laps[..|laps| - 1], laps[|laps| - 1];
      IndexCancelsErrors(x4, t, rest, z, n);
      LapCancels(x4, t.q, Laps(x4, t, rest, z, n), lap, TurnAfter(rest), z, n);
    }
    if Int32(n * TurnAfter(laps) + z) {
      SignedFits(n * TurnAfter(laps) + z);
    }
  }

  lemma MarkAtStart(x4: bool, q: int, n: int)
    ensures Mark(x4, q, n, 0) == q
  {
  }

  lemma LapCancels(x4: bool, q: int, before: Track, lap: Lap, turn: int, z: int, n: int)
    requires n > 0 && before.q == Mark(x4, q, n, turn) && before.pulses == ToSigned32(n * turn + z)
    requires LapFits(x4, q, before, lap, n)
    ensures IndexCount(Ride(x4, before, lap.edges).pulses, z, n) == ToSigned32(n * lap.turn + z)
  {
    hide ToSigned32, Ride, Missed, Counted, IndexCount, Aligned, Mark, Travelled, Slack;
    var c := Counted(x4, before, lap.edges);
    RideCounts(x4, before, lap.edges);
    MiscountBound(x4, before, lap.edges);
    MarkTravelled(x4, q, n, turn);
    MarkTravelled(x4, q, n, lap.turn);
    var error := c - (n * lap.turn - n * turn);
    WrapSum(n * turn + z, c);
    IndexRecovers(lap.turn, error, z, n);
  }

  /** A lap of five counts that loses its first edge, and with it two counts, fits; its index pulse brings
      them back. */
  lemma LapThatFits()
    ensures var t, seen := Track(0, 0, 0), Edge(true, true);
      var laps := [Lap([Edge(true, false), seen, seen, seen, seen], 1)];
      && LapsFit(true, t, laps, 0, 5) && Counted(true, t, laps[0].edges) == 3
      && Laps(true, t, laps, 0, 5) == Track(5, 1, 5)
  {
    hide IndexCount, ToSigned32, Ride, Counted, Missed;
    var t, seen := Track(0, 0, 0), Edge(true, true);
    var edges := [Edge(true, false), seen, seen, seen, seen];
    var laps := [Lap(edges, 1)];
    FiveEdges(edges);
    assert laps[..0] == [];
    assert LapFits(true, 0, t, laps[0], 5);
    IndexRecovers(1, -2, 0, 5);
    SignedFits(3);
    SignedFits(5);
  }

  lemma FiveEdges(edges: seq<Edge>)
    requires edges == [Edge(true, false), Edge(true, true), Edge(true, true), Edge(true, true), Edge(true, true)]
    ensures var t := Track(0, 0, 0);
      Ride(true, t, edges) == Track(5, 1, 3) && Counted(true, t, edges) == 3 && Missed(true, t, edges) == 1
  {
    hide ToSigned32;
    var t := Track(0, 0, 0);
    assert edges[..5] == edges;
    assert edges[..1][..0] == [] && edges[..2][..1] == edges[..1] && edges[..3][..2] == edges[..2]
      && edges[..4][..3] == edges[..3] && edges[..5][..4] == edges[..4];
    SignedFits(0);
    SignedFits(1);
    SignedFits(2);
    SignedFits(3);
    assert Ride(true, t, edges[..1]) == Track(1, 0, 0) && Counted(true, t, edges[..1]) == 0 && Missed(true, t, edges[..1]) == 1;
    assert Ride(true, t, edges[..2]) == Track(2, 3, 0) && Counted(true, t, edges[..2]) == 0 && Missed(true, t, edges[..2]) == 1;
    assert Ride(true, t, edges[..3]) == Track(3, 2, 1) && Counted(true, t, edges[..3]) == 1 && Missed(true, t, edges[..3]) == 1;
    assert Ride(true, t, edges[..4]) == Track(4, 0, 2) && Counted(true, t, edges[..4]) == 2 && Missed(true, t, edges[..4]) == 1;
  }

  // ---- driving the decoder ------------------------------------------------------------------

  /** The shaft passes the edges, and `Encode` runs on those sampled and not missed. */
  method Drive(encoder: Qei, start: int, edges: seq<Edge>) returns (q: int)
    modifies encoder`pulses, encoder`prevState, encoder`currState
    ensures Track(q, encoder.prevState, encoder.pulses)
         == Ride(encoder.x4, Track(start, old(encoder.prevState), old(encoder.pulses)), edges)
  {
    hide PinsAt, Sampled, Delta, ToSigned32;
    q := start;
    ghost var t := Track(start, encoder.prevState, encoder.pulses);
    for i := 0 to |edges|
      invariant Track(q, encoder.prevState, encoder.pulses) == Ride(encoder.x4, t, edges[..i])
    {
      assert edges[..i + 1][..i] == edges[..i];
      var sampled := Sampled(encoder.x4, q, edges[i].up);
      q := Moved(q, edges[i].up);
      if edges[i].seen && sampled {
        PinsOf(PinsAt(q));
        encoder.Encode(A(PinsAt(q)), B(PinsAt(q)));
      }
    }
    assert edges[..|edges|] == edges;
  }

  lemma PinsOf(s: Pins)
    ensures 0 <= A(s) <= 1 && 0 <= B(s) <= 1 && 2 * A(s) + B(s) == s
  {
  }

  /** A shaft whose edges are all seen. */
  method Turn(encoder: Qei, start: int, steps: seq<bool>) returns (q: int)
    modifies encoder`pulses, encoder`prevState, encoder`currState
    ensures Track(q, encoder.prevState, encoder.pulses)
         == Walk(encoder.x4, Track(start, old(encoder.prevState), old(encoder.pulses)), steps)
  {
    RideSeesAll(encoder.x4, Track(start, encoder.prevState, encoder.pulses), steps);
    q := Drive(encoder, start, Seen(steps));
  }

  /** From its first index pulse on, a decoder whose laps lose few enough edges shows the true count
      after every later one. */
  method Spin(encoder: Qei, start: int, laps: seq<Lap>) returns (q: int)
    requires encoder.pulsesPerRev > 0 && encoder.firstZ
    requires LapsFit(encoder.x4, Track(start, encoder.prevState, encoder.pulses), laps, encoder.pulses,
                     encoder.pulsesPerRev)
    modifies encoder`pulses, encoder`prevState, encoder`currState, encoder`revolutions, encoder`firstZ, encoder`Zshift
    ensures encoder.Zshift == old(encoder.pulses)
    ensures encoder.pulses == ToSigned32(encoder.pulsesPerRev * TurnAfter(laps) + encoder.Zshift)
    ensures q == Mark(encoder.x4, start, encoder.pulsesPerRev, TurnAfter(laps))
  {
    hide IndexCount, Ride, ToSigned32, Mark, LapsFit;
    q := start;
    ghost var t, z, n := Track(start, encoder.prevState, encoder.pulses), encoder.pulses, encoder.pulsesPerRev;
    FirstIndex(z, n);
    encoder.Index();
    for i := 0 to |laps|
      invariant !encoder.firstZ && encoder.Zshift == z
      invariant Track(q, encoder.prevState, encoder.pulses) == Laps(encoder.x4, t, laps[..i], z, n)
    {
      assert laps[..i + 1][..i] == laps[..i];
      q := Drive(encoder, q, laps[i].edges);
      encoder.Index();
    }
    assert laps[..|laps|] == laps;
    IndexCancelsErrors(encoder.x4, t, laps, z, n);
  }

  lemma FirstIndex(z: Counter, n: int)
    requires n > 0
    ensures IndexCount(z, z, n) == z
  {
    hide ToSigned32;
    SignedFits(0);
    SignedFits(z);
    SnapRecovers(z, z, n, 0);
  }
}
