/** GIC bring-up of core_ca.h over a register model of the distributor and the CPU interface
    (ARM Generic Interrupt Controller Architecture Specification, IHI 0048B, sections 4.3 and 4.4). */
module InterruptController {
  import opened Bits

  const LINES := 1024

  // ---- two-bit fields of a configuration word -----------------------------------------------

  function Field(w: nat, k: nat): nat
    decreases k
  {
    if k == 0 then w % 4 else Field(w / 4, k - 1)
  }

  /** `w` with its `k`-th two-bit field replaced. */
  function Put(w: nat, k: nat, v: nat): nat
    decreases k
  {
    if k == 0 then w / 4 * 4 + v else 4 * Put(w / 4, k - 1, v) + w % 4
  }

  lemma {:induction false} FieldOfPut(w: nat, k: nat, v: nat, j: nat)
    requires v < 4
    ensures Field(Put(w, k, v), j) == if j == k then v else Field(w, j)
    decreases k
  {
    if k > 0 && j > 0 {
      FieldOfPut(w / 4, k - 1, v, j - 1);
    }
  }

  /** A field is two bits of the word. */
  lemma {:induction false} FieldMeaning(w: nat, k: nat)
    ensures Field(w, k) == w / Pow2(2 * k) % 4
    decreases k
  {
    if k > 0 {
      FieldMeaning(w / 4, k - 1);
      var p := Pow2(2 * k - 2);
      assert Pow2(2 * k) == 2 * Pow2(2 * k - 1) && Pow2(2 * k - 1) == 2 * p;
      HalfDiv(w, 2 * p);
      HalfDiv(w / 2, p);
      assert w / 2 / 2 == w / 4;
    }
  }

  /** A word of `n` fields with every bit set, so that `~x` is `Ones(16) - x`. */
  function Ones(n: nat): nat { if n == 0 then 0 else 4 * Ones(n - 1) + 3 }

  lemma ShlField(v: nat, k: nat)
    requires k > 0
    ensures Shl(v, 2 * k) == 4 * Shl(v, 2 * (k - 1))
  {
    assert Shl(v, 2 * k) == 2 * Shl(v, 2 * k - 1);
  }

  lemma AndByField(w: nat, m: nat)
    ensures And(w, 4 * m + 3) == 4 * And(w / 4, m) + w % 4
    ensures And(w, 4 * m) == 4 * And(w / 4, m)
  {
    hide And;
    assert w / 2 / 2 == w / 4 && w % 4 == 2 * (w / 2 % 2) + w % 2;
    AndOdd(w, 2 * m + 1);
    AndOdd(w / 2, m);
    AndEven(w, 2 * m);
    AndEven(w / 2, m);
  }

  lemma OrByField(a: nat, r: nat, b: nat)
    requires r < 4
    ensures Or(4 * a + r, 4 * b) == 4 * Or(a, b) + r
  {
    hide Or;
    OrByBit(a, r / 2, b);
    OrByBit(2 * a + r / 2, r % 2, 2 * b);
    assert 2 * (2 * a + r / 2) + r % 2 == 4 * a + r;
  }

  lemma OrByBit(a: nat, r: nat, b: nat)
    requires r < 2
    ensures Or(2 * a + r, 2 * b) == 2 * Or(a, b) + r
  {
  }

  lemma OrDigit(a: nat, v: nat)
    requires v < 4
    ensures Or(4 * a, v) == 4 * a + v
  {
    assert Or(2 * a, v / 2) == 2 * a + v / 2;
  }

  lemma {:induction false} AndOnes(w: nat, n: nat)
    requires w <= Ones(n)
    ensures And(w, Ones(n)) == w
  {
    if n > 0 {
      AndOnes(w / 4, n - 1);
      AndByField(w, Ones(n - 1));
    }
  }

  lemma {:induction false} ClearField(w: nat, n: nat, k: nat)
    requires k < n && w <= Ones(n)
    ensures Shl(3, 2 * k) <= Ones(n) && And(w, Ones(n) - Shl(3, 2 * k)) == Put(w, k, 0)
    decreases k
  {
    hide And;
    if k == 0 {
      AndByField(w, Ones(n - 1));
      AndOnes(w / 4, n - 1);
    } else {
      ClearField(w / 4, n - 1, k - 1);
      ShlField(3, k);
      AndByField(w, Ones(n - 1) - Shl(3, 2 * (k - 1)));
    }
  }

  lemma {:induction false} FillField(w: nat, k: nat, v: nat)
    requires v < 4
    ensures Or(Put(w, k, 0), Shl(v, 2 * k)) == Put(w, k, v)
    decreases k
  {
    hide Or;
    if k == 0 {
      OrDigit(w / 4, v);
    } else {
      FillField(w / 4, k - 1, v);
      ShlField(v, k);
      OrByField(Put(w / 4, k - 1, 0), w % 4, Shl(v, 2 * (k - 1)));
    }
  }

  lemma {:induction false} PutBelow(w: nat, n: nat, k: nat, v: nat)
    requires k < n && w <= Ones(n) && v < 4
    ensures Put(w, k, v) <= Ones(n)
    decreases k
  {
    if k > 0 {
      PutBelow(w / 4, n - 1, k - 1, v);
    }
  }

  /** `(w & ~(3 << 2k)) | (v << 2k)` replaces exactly the `k`-th field. */
  lemma MaskedPut(w: nat, k: nat, v: nat)
    requires k < 16 && w <= 0xFFFF_FFFF && v < 4
    ensures Shl(3, 2 * k) <= 0xFFFF_FFFF
    ensures Or(And(w, 0xFFFF_FFFF - Shl(3, 2 * k)), Shl(v, 2 * k)) == Put(w, k, v) <= 0xFFFF_FFFF
  {
    AllOnes();
    ClearField(w, 16, k);
    FillField(w, k, v);
    PutBelow(w, 16, k, v);
  }

  lemma AllOnes()
    ensures Ones(16) == 0xFFFF_FFFF
  {
    assert Ones(4) == 0xFF;
    assert Ones(8) == 0xFFFF;
    assert Ones(12) == 0xFF_FFFF;
  }

  // ---- single bits of an enable word --------------------------------------------------------

  function BitAt(w: nat, k: nat): bool { Shr(w, k) % 2 == 1 }

  lemma {:induction false} BitOfOne(j: nat, k: nat)
    ensures BitAt(Shl(1, j), k) <==> j == k
    decreases k
  {
    if k > 0 && j > 0 {
      BitOfOne(j - 1, k - 1);
    } else if k > 0 {
      ShrZero(k - 1);
    }
  }

  lemma BitAtMeaning(w: nat, k: nat)
    ensures BitAt(w, k) <==> w / Pow2(k) % 2 == 1
  {
    ShrIsQuotient(w, k);
  }

  // ---- the registers and their drivers ------------------------------------------------------

  /** Level or edge, and the handling model, of every interrupt: sixteen fields a word. */
  function Configs(words: seq<nat>): (c: seq<nat>)
    requires |words| == LINES / 16
    ensures |c| == LINES
  {
    seq(LINES, j requires 0 <= j < LINES => Field(words[j / 16], j % 16))
  }

  lemma ConfigMeaning(words: seq<nat>, j: nat)
    requires |words| == LINES / 16 && j < LINES
    ensures Configs(words)[j] == words[j / 16] / Pow2(2 * (j % 16)) % 4
  {
    FieldMeaning(words[j / 16], j % 16);
  }

  /** Half of a probed mask whose bits are the top ones of the byte, and of any mask bit by bit. */
  lemma HalfOfTopBits(mask: nat, k: nat)
    requires k < 8 && mask == 0x100 - Pow2(k)
    ensures And(mask, mask / 2) == 0x80 - Pow2(k)
  {
    hide And;
    Pow2Values();
    assert Pow2(8) == 2 * Pow2(7);
    TopBits(7, k);
  }

  lemma {:induction false} TopBits(n: nat, k: nat)
    requires k <= n
    ensures Pow2(k) <= Pow2(n)
    ensures var mask := 2 * Pow2(n) - Pow2(k); And(mask, mask / 2) == Pow2(n) - Pow2(k)
    decreases k
  {
    hide And;
    var p := Pow2(n);
    if k == 0 {
      AndLow(2 * p - 1, n);
      DivModUnique(2 * p - 1, p, 1, p - 1);
    } else {
      TopBits(n - 1, k - 1);
      var half := p - Pow2(k - 1);
      assert 2 * p - Pow2(k) == 2 * half;
      AndDoubled(half);
    }
  }

  lemma AndDoubled(a: nat)
    ensures And(2 * a, a) == 2 * And(a, a / 2)
  {
  }

  lemma HalfBits(mask: nat, k: nat)
    ensures BitAt(And(mask, mask / 2), k) <==> BitAt(mask, k) && BitAt(mask, k + 1)
  {
    BitOfAnd(mask, mask / 2, k);
  }

  /** Register names follow the source. `enabled` is the state behind the ICDISER and ICDICER
      write-one registers; ICDIPR and ICDIPTR are their bytes; `implemented` is the mask of the
      priority bits that exist, the other bits reading as zero. */
  class Gic {
    var ICDDCR: nat
    var ICDICTR: nat
    var implemented: nat
    var enabled: seq<bool>
    var ICDIPR: seq<nat>
    var ICDIPTR: seq<nat>
    var ICDICFR: seq<nat>
    var ICCICR: nat
    var ICCBPR: nat
    var ICCPMR: nat

    predicate Valid()
      reads this
    {
      && |enabled| == LINES && |ICDIPR| == LINES && |ICDIPTR| == LINES && |ICDICFR| == LINES / 16
      && implemented < 256
      && forall k :: 0 <= k < LINES / 16 ==> ICDICFR[k] <= 0xFFFF_FFFF
    }

    /** The number of interrupt lines that the distributor reports. */
    function Lines(): (n: nat)
      reads `ICDICTR
      ensures 32 <= n <= LINES
    {
      32 * (ICDICTR % 32 + 1)
    }

    /** Half the probed priority field, as far as the implemented bits can hold it. */
    function Half(): nat
      reads `implemented
    {
      And(implemented, implemented / 2)
    }

    lemma HalfStored()
      requires Valid()
      ensures And(implemented, implemented / 2 % 256) == Half()
    {
      hide And;
    }

    /** With the implemented bits at the top of the byte, half the probed value is stored exactly,
        less the one bit that is not implemented. */
    lemma HalfHolds()
      requires Valid()
      ensures forall k: nat :: k < 8 && implemented == 0x100 - Pow2(k) ==> Half() == 0x80 - Pow2(k)
    {
      forall k: nat | k < 8 && implemented == 0x100 - Pow2(k)
        ensures Half() == 0x80 - Pow2(k)
      {
        HalfOfTopBits(implemented, k);
      }
    }

    /** Hardware: writing a one to an ICDICER bit disables that line. */
    method StoreICDICER(n: nat, w: nat)
      requires Valid() && n < 32
      modifies `enabled
      ensures Valid()
      ensures forall i :: 0 <= i < LINES ==>
        (enabled[i] <==> old(enabled)[i] && !(i / 32 == n && BitAt(w, i % 32)))
    {
      var was := enabled;
      enabled := seq(LINES, i requires 0 <= i < LINES => was[i] && !(i / 32 == n && BitAt(w, i % 32)));
    }

    method DisableIRQ(irq: nat)
      requires Valid() && irq < LINES
      modifies `enabled
      ensures Valid() && enabled == old(enabled)[irq := false]
    {
      hide Shl, BitAt;
      StoreICDICER(irq / 32, Shl(1, irq % 32));
      forall i | 0 <= i < LINES
        ensures BitAt(Shl(1, irq % 32), i % 32) <==> irq % 32 == i % 32
      {
        BitOfOne(irq % 32, i % 32);
      }
    }

    method SetLevelModel(irq: nat, edgeLevel: nat, model: nat)
      requires Valid() && irq < LINES && edgeLevel <= 1 && model <= 1
      modifies `ICDICFR
      ensures Valid() && Configs(ICDICFR) == old(Configs(ICDICFR))[irq := 2 * edgeLevel + model]
    {
      hide Field, Put, And, Or;
      var n, k := irq / 16, irq % 16;
      var bitShift := Shl(irq % 16, 1);
      var saveWord := ICDICFR[n];
      ghost var w := saveWord;
      var v := Or(Shl(edgeLevel, 1), model);
      ModelBits(edgeLevel, model);
      MaskedPut(w, k, v);
      saveWord := And(saveWord, 0xFFFF_FFFF - Shl(3, bitShift));
      ICDICFR := ICDICFR[n := Or(saveWord, Shl(v, bitShift))];
      forall j | 0 <= j < LINES
        ensures Field(ICDICFR[j / 16], j % 16) == if j == irq then v else old(Configs(ICDICFR))[j]
      {
        FieldOfPut(w, k, v, j % 16);
      }
    }

    method SetPriority(irq: nat, priority: nat)
      requires Valid() && irq < LINES
      modifies `ICDIPR
      ensures Valid() && ICDIPR == old(ICDIPR)[irq := And(implemented, priority % 256)]
    {
      var field := 4 * (irq / 4);
      field := field + irq % 4;
      ICDIPR := ICDIPR[field := And(implemented, priority % 256)];
    }

    method GetPriority(irq: nat) returns (priority: nat)
      requires Valid() && irq < LINES
      ensures priority == ICDIPR[irq]
    {
      var field := 4 * (irq / 4);
      field := field + irq % 4;
      priority := ICDIPR[field];
    }

    method SetTarget(irq: nat, cpuTarget: nat)
      requires Valid() && irq < LINES
      modifies `ICDIPTR
      ensures Valid() && ICDIPTR == old(ICDIPTR)[irq := cpuTarget % 16]
    {
      hide And;
      LowNibble(cpuTarget);
      var field := 4 * (irq / 4);
      field := field + irq % 4;
      ICDIPTR := ICDIPTR[field := And(cpuTarget % 256, 0xF)];
    }

    /** Every shared interrupt below the reported count is off, level-sensitive 1-N, at half the
        probed priority and aimed at CPU 0; every other line keeps its registers, except that
        line 0 holds the probe. */
    method DistInit()
      requires Valid()
      modifies `ICDDCR, `enabled, `ICDIPR, `ICDIPTR, `ICDICFR
      ensures Valid() && ICDDCR == old(ICDDCR) / 2 * 2 + 1 && Lines() == 32 * (ICDICTR % 32 + 1)
      ensures forall k: nat :: k < 8 && implemented == 0x100 - Pow2(k) ==> Half() == 0x80 - Pow2(k)
      ensures forall j :: 32 <= j < Lines() ==>
        !enabled[j] && Configs(ICDICFR)[j] == 1 && ICDIPR[j] == Half() && ICDIPTR[j] == 1
      ensures forall j :: 0 <= j < LINES && !(32 <= j < Lines()) ==>
        enabled[j] == old(enabled)[j] && Configs(ICDICFR)[j] == old(Configs(ICDICFR))[j] && ICDIPTR[j] == old(ICDIPTR)[j]
      ensures forall j :: 0 < j < LINES && !(32 <= j < Lines()) ==> ICDIPR[j] == old(ICDIPR)[j]
      ensures ICDIPR[0] == implemented
    {
      hide And, Field, Configs, Pow2, Half;
      ICDDCR := ICDDCR / 2 * 2;
      LineMask(ICDICTR);
      var numIrq := 32 * (And(ICDICTR, 0x1F) + 1);
      SetPriority(0, 0xFF);
      var priorityField := GetPriority(0);
      Probe(implemented);
      HalfStored();
      ghost var half := Half();
      var i := 32;
      while i < numIrq
        invariant 32 <= i <= numIrq && Valid() && ICDDCR == old(ICDDCR) / 2 * 2
        invariant forall j :: 32 <= j < i ==>
          !enabled[j] && Configs(ICDICFR)[j] == 1 && ICDIPR[j] == half && ICDIPTR[j] == 1
        invariant forall j :: 0 <= j < LINES && !(32 <= j < i) ==>
          enabled[j] == old(enabled)[j] && Configs(ICDICFR)[j] == old(Configs(ICDICFR))[j] && ICDIPTR[j] == old(ICDIPTR)[j]
        invariant forall j :: 0 < j < LINES && !(32 <= j < i) ==> ICDIPR[j] == old(ICDIPR)[j]
        invariant ICDIPR[0] == implemented
      {
        DisableIRQ(i);
        SetLevelModel(i, 0, 1);
        SetPriority(i, priorityField / 2);
        SetTarget(i, 1);
        i := i + 1;
      }
      ICDDCR := ICDDCR + 1;
      HalfHolds();
    }

    /** Private interrupts and software interrupts are off at half the probed priority, private
        ones level-sensitive 1-N; shared lines keep their registers. */
    method CPUInterfaceInit()
      requires Valid()
      modifies `enabled, `ICDIPR, `ICDICFR, `ICCICR, `ICCBPR, `ICCPMR
      ensures Valid() && ICCICR == old(ICCICR) / 2 * 2 + 1 && ICCBPR == 0 && ICCPMR == 0xFF
      ensures forall j :: 0 <= j < 32 ==> !enabled[j] && ICDIPR[j] == Half()
      ensures forall k: nat :: k < 8 && implemented == 0x100 - Pow2(k) ==> Half() == 0x80 - Pow2(k)
      ensures forall j :: 16 <= j < 32 ==> Configs(ICDICFR)[j] == 1
      ensures forall j :: 0 <= j < LINES && !(16 <= j < 32) ==> Configs(ICDICFR)[j] == old(Configs(ICDICFR))[j]
      ensures forall j :: 32 <= j < LINES ==> enabled[j] == old(enabled)[j] && ICDIPR[j] == old(ICDIPR)[j]
    {
      hide And, Field, Configs, Pow2, Half;
      ICCICR := ICCICR / 2 * 2;
      SetPriority(0, 0xFF);
      var priorityField := GetPriority(0);
      Probe(implemented);
      HalfStored();
      ghost var half := Half();
      var i := 0;
      while i < 32
        invariant 0 <= i <= 32 && Valid() && ICCICR == old(ICCICR) / 2 * 2
        invariant forall j :: 0 <= j < i ==> !enabled[j] && ICDIPR[j] == half
        invariant forall j :: 16 <= j < i ==> Configs(ICDICFR)[j] == 1
        invariant forall j :: 0 <= j < LINES && !(16 <= j < i) ==> Configs(ICDICFR)[j] == old(Configs(ICDICFR))[j]
        invariant forall j :: 32 <= j < LINES ==> enabled[j] == old(enabled)[j] && ICDIPR[j] == old(ICDIPR)[j]
      {
        if i > 15 {
          SetLevelModel(i, 0, 1);
        }
        DisableIRQ(i);
        SetPriority(i, priorityField / 2);
        i := i + 1;
      }
      ICCICR := ICCICR + 1;
      ICCBPR := 0;
      LowByte();
      ICCPMR := And(0xFF, 0xFF);
      HalfHolds();
    }

    /** Bring-up: for every count the distributor can report, every reported line ends disabled
        and at half the probed priority, every private or shared line level-sensitive 1-N, every
        shared line aimed at CPU 0, and lines beyond the count keep their registers. */
    method Enable()
      requires Valid()
      modifies `ICDDCR, `enabled, `ICDIPR, `ICDIPTR, `ICDICFR, `ICCICR, `ICCBPR, `ICCPMR
      ensures Valid() && ICDDCR % 2 == 1 && ICCICR % 2 == 1 && ICCBPR == 0 && ICCPMR == 0xFF
      ensures Lines() == 32 * (ICDICTR % 32 + 1)
      ensures forall j :: 0 <= j < Lines() ==> !enabled[j] && ICDIPR[j] == Half()
      ensures forall k: nat :: k < 8 && implemented == 0x100 - Pow2(k) ==> Half() == 0x80 - Pow2(k)
      ensures forall j :: 16 <= j < Lines() ==> Configs(ICDICFR)[j] == 1
      ensures forall j :: 32 <= j < Lines() ==> ICDIPTR[j] == 1
      ensures forall j :: 0 <= j < 16 || Lines() <= j < LINES ==> Configs(ICDICFR)[j] == old(Configs(ICDICFR))[j]
      ensures forall j :: 0 <= j < 32 || Lines() <= j < LINES ==> ICDIPTR[j] == old(ICDIPTR)[j]
      ensures forall j :: Lines() <= j < LINES ==> enabled[j] == old(enabled)[j] && ICDIPR[j] == old(ICDIPR)[j]
    {
      hide Configs, And, Pow2;
      DistInit();
      CPUInterfaceInit();
    }
  }

  lemma ModelBits(edgeLevel: nat, model: nat)
    requires edgeLevel <= 1 && model <= 1
    ensures Or(Shl(edgeLevel, 1), model) == 2 * edgeLevel + model < 4
  {
    OrDigit(0, 0);
    assert Pow2(1) == 2;
    OrJoins(edgeLevel, model, 1);
  }

  lemma LowNibble(x: nat)
    ensures And(x % 256, 0xF) == x % 16
  {
    hide And, Pow2;
    Pow2Values();
    AndLow(x % 256, 4);
    DivModUnique(x, 16, 16 * (x / 256) + x % 256 / 16, x % 256 % 16);
  }

  lemma LineMask(x: nat)
    ensures And(x, 0x1F) == x % 32
  {
    Pow2Values();
    Pow2Sum(1, 4);
    AndLow(x, 5);
  }

  lemma Probe(mask: nat)
    requires mask < 256
    ensures And(mask, 0xFF) == mask
  {
    hide And;
    Pow2Values();
    AndLow(mask, 8);
  }

  lemma LowByte()
    ensures And(0xFF, 0xFF) == 0xFF
  {
    Probe(0xFF);
  }
}
