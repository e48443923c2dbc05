/** The VL53L1X driver's start-up over a register file behind an auto-incrementing byte protocol. */
module RangeSensor {
  import opened Bits

  const SOFT_RESET := 0x0000
  const MODEL_ID := 0x010F
  const THIS_MODEL := 0xEACC
  const FIRMWARE_STATUS := 0x00E5
  const MODE_STATUS := 0x00E6
  const PAD_CONFIG := 0x002E
  const GPIO_PAD := 0x002F
  const BLOCK := 135
  const TRIMS := 36

  /** The configuration block as the program starts with it. */
  const DEFAULT_BLOCK: seq<Byte> :=
    [0x29, 0x02, 0x10, 0x00, 0x28, 0xBC, 0x7A, 0x81] +
    [0x80, 0x07, 0x95, 0x00, 0xED, 0xFF, 0xF7, 0xFD] +
    [0x9E, 0x0E, 0x00, 0x10, 0x01, 0x00, 0x00, 0x00] +
    [0x00, 0x00, 0x00, 0x00, 0x00, 0x00, 0x34, 0x00] +
    [0x28, 0x00, 0x0D, 0x0A, 0x00, 0x00, 0x00, 0x00] +
    [0x00, 0x00, 0x00, 0x00, 0x00, 0x00, 0x00, 0x11] +
    [0x02, 0x00, 0x02, 0x08, 0x00, 0x08, 0x10, 0x01] +
    [0x01, 0x00, 0x00, 0x00, 0x00, 0xFF, 0x00, 0x02] +
    [0x00, 0x00, 0x00, 0x00, 0x00, 0x20, 0x0B, 0x00] +
    [0x00, 0x02, 0x0A, 0x21, 0x00, 0x00, 0x02, 0x00] +
    [0x00, 0x00, 0x00, 0xC8, 0x00, 0x00, 0x38, 0xFF] +
    [0x01, 0x00, 0x00, 0x00, 0x00, 0x00, 0x91, 0x0F] +
    [0x00, 0xA5, 0x0D, 0x00, 0x80, 0x00, 0x0C, 0x08] +
    [0xB8, 0x00, 0x00, 0x00, 0x00, 0x0E, 0x10, 0x00] +
    [0x01, 0x00, 0x00, 0x00, 0x00, 0x00, 0x01, 0x0F] +
    [0x0D, 0x0E, 0x0E, 0x01, 0x00, 0x02, 0xC7, 0xFF] +
    [0x8B, 0x00, 0x00, 0x00, 0x01, 0x01, 0x40]

  /** Two bytes as a number, high byte first. */
  function Join(high: int, low: int): int { 0x100 * high + low }

  /** The sensor: registers, the protocol's register pointer, and the two status registers that move
      by themselves: the `polls`-th transaction that reads either finds `boot(polls)` in
      FIRMWARE__SYSTEM_STATUS and `mode(polls)` in FIRMWARE__MODE_STATUS. */
  class Device {
    var regs: seq<Byte>
    var pointer: nat
    var polls: nat
    var boot: nat -> Byte
    var mode: nat -> Byte

    predicate Valid()
      reads this
    {
      |regs| == 0x1_0000 && pointer < 0x1_0000
    }

    /** Two address bytes, then data bytes into consecutive registers. */
    method Write(buf: array<Byte>, n: nat)
      requires Valid() && 2 <= n <= buf.Length && Join(buf[0], buf[1]) + n - 2 <= 0xFFFF
      modifies `regs, `pointer
      ensures Valid() && pointer == Join(buf[0], buf[1]) + n - 2
      ensures var a := Join(buf[0], buf[1]);
        regs == old(regs)[..a] + buf[2..n] + old(regs)[a + n - 2..]
    {
      ghost var a := Join(buf[0], buf[1]);
      pointer := Join(buf[0], buf[1]);
      for k := 2 to n
        invariant Valid() && pointer == a + k - 2
        invariant regs == old(regs)[..a] + buf[2..k] + old(regs)[a + k - 2..]
      {
        regs := regs[pointer := buf[k]];
        pointer := pointer + 1;
      }
    }

    /** What a transaction finds at an address now. */
    function At(addr: nat): (b: Byte)
      requires Valid() && addr < 0x1_0000
      reads this
      ensures addr == 0xE5 ==> b == boot(polls)
      ensures addr == 0xE6 ==> b == mode(polls)
      ensures addr != 0xE5 && addr != 0xE6 ==> b == regs[addr]
    {
      if addr == FIRMWARE_STATUS then boot(polls) else if addr == MODE_STATUS then mode(polls) else regs[addr]
    }

    /** One transaction: consecutive registers from the pointer on. */
    method Read(data_read: array<Byte>, n: nat)
      requires Valid() && n <= data_read.Length && pointer + n <= 0xFFFF
      modifies `pointer, `polls, data_read
      ensures Valid() && pointer == old(pointer) + n
      ensures polls == old(polls) + if TouchesStatus(old(pointer), n) then 1 else 0
      ensures forall i :: 0 <= i < n ==> data_read[i] == old(At(pointer + i))
    {
      var first := pointer;
      for i := 0 to n
        modifies `pointer, data_read
        invariant Valid() && pointer == first + i
        invariant forall j :: 0 <= j < i ==> data_read[j] == old(At(pointer + j))
      {
        data_read[i] := At(pointer);
        pointer := pointer + 1;
      }
      if TouchesStatus(first, n) {
        polls := polls + 1;
      }
    }
  }

  /** Whether a transaction of `n` bytes reads either status register. */
  predicate TouchesStatus(addr: nat, n: nat) {
    addr <= FIRMWARE_STATUS < addr + n || addr <= MODE_STATUS < addr + n
  }

  class Sensor {
    var device: Device
    var configBlock: array<Byte>

    ghost predicate Valid()
      reads this, device
    {
      device.Valid() && configBlock.Length == BLOCK
    }

    /** The block is a global of the program; it starts with its default contents. */
    constructor (device: Device)
      requires device.Valid()
      ensures Valid() && this.device == device && fresh(configBlock) && configBlock[..] == DEFAULT_BLOCK
    {
      this.device := device;
      configBlock := new Byte[BLOCK](i requires 0 <= i < BLOCK => DEFAULT_BLOCK[i]);
    }

    method SetPointer(addr: nat)
      requires Valid() && addr < 0xFFFF
      modifies device`regs, device`pointer
      ensures Valid() && device.regs == old(device.regs) && device.pointer == addr
    {
      var data_write := new Byte[2];
      data_write[0] := addr / 0x100 % 0x100;
      data_write[1] := addr % 0x100;
      device.Write(data_write, 2);
      assert device.regs == old(device.regs)[..addr] + old(device.regs)[addr..];
    }

    method ReadRegister(addr: nat) returns (b: Byte)
      requires Valid() && addr < 0xFFFE
      modifies device`regs, device`pointer, device`polls
      ensures Valid() && device.regs == old(device.regs) && b == old(device.At(addr))
      ensures device.polls == old(device.polls) + if TouchesStatus(addr, 1) then 1 else 0
    {
      var data_read := new Byte[1];
      SetPointer(addr);
      assert device.At(addr) == old(device.At(addr));
      device.Read(data_read, 1);
      b := data_read[0];
    }

    /** High byte first, both from one transaction. */
    method ReadRegister16(addr: nat) returns (w: nat)
      requires Valid() && addr < 0xFFFE
      modifies device`regs, device`pointer, device`polls
      ensures Valid() && device.regs == old(device.regs)
      ensures w == Join(old(device.At(addr)), old(device.At(addr + 1)))
      ensures device.polls == old(device.polls) + if TouchesStatus(addr, 2) then 1 else 0
    {
      var data_read := new Byte[2];
      SetPointer(addr);
      assert device.At(addr) == old(device.At(addr)) && device.At(addr + 1) == old(device.At(addr + 1));
      device.Read(data_read, 2);
      var data_high := data_read[0];
      var data_low := data_read[1];
      w := Or(Shl(data_high, 8), data_low);
      JoinBytes(data_high, data_low);
    }

    method WriteRegister(addr: nat, b: Byte)
      requires Valid() && addr < 0xFFFE
      modifies device`regs, device`pointer
      ensures Valid() && device.regs == old(device.regs)[addr := b]
    {
      hide Join;
      AddressBytes(addr);
      var data_write := new Byte[3];
      data_write[0] := addr / 0x100 % 0x100;
      data_write[1] := addr % 0x100;
      data_write[2] := b;
      WriteOne(device.regs, addr, b);
      assert data_write[2..3] == [b];
      device.Write(data_write, 3);
    }

    method WriteRegister16(addr: nat, w: nat)
      requires Valid() && addr < 0xFFFE && w < 0x1_0000
      modifies device`regs, device`pointer
      ensures Valid() && device.regs == old(device.regs)[addr := w / 0x100][addr + 1 := w % 0x100]
    {
      hide Join;
      AddressBytes(addr);
      var data_write := new Byte[4];
      data_write[0] := addr / 0x100 % 0x100;
      data_write[1] := addr % 0x100;
      data_write[2] := w / 0x100 % 0x100;
      data_write[3] := w % 0x100;
      assert w / 0x100 % 0x100 == w / 0x100;
      WriteTwo(device.regs, addr, w / 0x100, w % 0x100);
      assert data_write[2..4] == [w / 0x100, w % 0x100];
      device.Write(data_write, 4);
    }

    /** The body of the source's upload loop: the chunk's register address, its bytes, one write. */
    method SendChunk(data_write: array<Byte>, address: Byte, toSend: nat)
      requires Valid() && data_write.Length == 32 && data_write != configBlock
      requires toSend <= 30 && 1 <= address && address + toSend <= BLOCK + 1
      modifies data_write, device`regs, device`pointer
      ensures Valid()
      ensures device.regs == old(device.regs)[..address] + configBlock[address - 1..address - 1 + toSend]
                             + old(device.regs)[address + toSend..]
    {
      data_write[0] := 0;
      data_write[1] := address;
      for x := 0 to toSend
        modifies data_write
        invariant data_write[0] == 0 && data_write[1] == address
        invariant data_write[2..x + 2] == configBlock[address - 1..address - 1 + x]
      {
        data_write[x + 2] := configBlock[x + address - 1];
      }
      device.Write(data_write, toSend + 2);
    }

    /** Uploads the block in chunks of at most thirty bytes: afterwards registers 1 to 135 hold the
        block and no other register has moved. The counters are eight-bit and never wrap. */
    method StartMeasurement()
      requires Valid()
      modifies device`regs, device`pointer
      ensures Valid()
      ensures device.regs == Uploaded(old(device.regs), configBlock[..], BLOCK + 1)
    {
      hide Uploaded;
      var offset := 0;
      var address := (1 + offset) % 0x100;
      var data_write := new Byte[32];
      var leftToSend := (BLOCK - offset) % 0x100;
      Chunk(device.regs, device.regs, device.regs, configBlock[..], 1, 0);
      while leftToSend > 0
        invariant 1 <= address && 0 <= leftToSend && address + leftToSend == BLOCK + 1 && Valid()
        invariant device.regs == Uploaded(old(device.regs), configBlock[..], address)
      {
        var toSend := 30;
        if toSend > leftToSend {
          toSend := leftToSend;
        }
        ghost var before := device.regs;
        SendChunk(data_write, address, toSend);
        Chunk(before, device.regs, old(device.regs), configBlock[..], address, toSend);
        leftToSend := (leftToSend - toSend) % 0x100;
        address := (address + toSend) % 0x100;
      }
    }

    /** Into reset and out of it again. */
    method SoftReset()
      requires Valid()
      modifies device`regs, device`pointer
      ensures Valid() && device.regs == old(device.regs)[0 := 1]
    {
      WriteRegister(SOFT_RESET, 0);
      WriteRegister(SOFT_RESET, 1);
    }

    /** The polling loop of the source's begin: its verdict, and the reading it stops at, are those of
        the low bit of FIRMWARE__MODE_STATUS, the low byte of the 16-bit reading. It succeeds exactly
        when one of the first 101 readings has it set. After 101 readings without it, one more is taken
        and disregarded. */
    method WaitForFirmware() returns (ready: bool)
      requires Valid()
      modifies device`regs, device`pointer, device`polls
      ensures Valid() && device.regs == old(device.regs)
      ensures (ready, device.polls) == Verdict(device.mode, old(device.polls), 100)
      ensures ready <==> SetInTime(device.mode, old(device.polls))
      ensures ready ==> old(device.polls) < device.polls <= old(device.polls) + 101
      ensures ready ==> LowSet(device.mode, device.polls - 1)
      ensures ready ==> forall k :: old(device.polls) <= k < device.polls - 1 ==> !LowSet(device.mode, k)
      ensures !ready ==> device.polls == old(device.polls) + 102
    {
      hide Join, And, LowSet, Verdict;
      ghost var first := device.polls;
      var counter := 0;
      var firmware := ReadRegister16(FIRMWARE_STATUS);
      LowBit(device.boot, device.mode, first);
      VerdictMeaning(device.mode, first, 100);
      VerdictStep(device.mode, first, 100);
      while And(firmware, 1) == 0
        modifies device`regs, device`pointer, device`polls
        invariant Valid() && device.regs == old(device.regs)
        invariant 0 <= counter <= 100 && device.polls == first + counter + 1
        invariant And(firmware, 1) == 1 <==> LowSet(device.mode, first + counter)
        invariant And(firmware, 1) <= 1
        invariant Verdict(device.mode, first + counter, 100 - counter) == Verdict(device.mode, first, 100)
        decreases 101 - counter
      {
        ghost var polls := device.polls;
        firmware := ReadRegister16(FIRMWARE_STATUS);
        LowBit(device.boot, device.mode, polls);
        VerdictStep(device.mode, first + counter, 100 - counter);
        if counter == 100 {
          return false;
        }
        counter := counter + 1;
      }
      VerdictStep(device.mode, first + counter, 100 - counter);
      return true;
    }

    /** The write meant to select 2.8 V. The register it names is one byte wide: whatever was there, the
        high byte puts 0 into it, and the bit set in the low byte lands in GPIO_HV_PAD__CTRL, the
        register behind it. */
    method SetPad()
      requires Valid()
      modifies device`regs, device`pointer, device`polls
      ensures Valid() && device.polls == old(device.polls)
      ensures device.regs == old(device.regs)[0x2E := 0][0x2F := old(device.regs[0x2F]) / 2 * 2 + 1]
    {
      hide Or, And, Join;
      PadValue(device.regs[PAD_CONFIG], device.regs[GPIO_PAD]);
      var result := ReadRegister16(PAD_CONFIG);
      result := Or(And(result, 0xFE), 0x01);
      WriteRegister16(PAD_CONFIG, result);
    }

    /** The trim loop of the source's begin: the block's first 36 bytes become registers 1 to 36. */
    method ReadTrims()
      requires Valid()
      modifies device`regs, device`pointer, device`polls, configBlock
      ensures Valid() && device.regs == old(device.regs) && device.polls == old(device.polls)
      ensures configBlock[..] == device.regs[1..TRIMS + 1] + old(configBlock[TRIMS..])
    {
      var i := 0;
      while i < TRIMS
        invariant 0 <= i <= TRIMS && Valid()
        invariant device.regs == old(device.regs) && device.polls == old(device.polls)
        invariant configBlock[..i] == device.regs[1..i + 1]
        invariant configBlock[i..] == old(configBlock[i..])
      {
        var regVal := ReadRegister(i + 1);
        configBlock[i] := regVal;
        i := i + 1;
      }
      assert configBlock[..] == configBlock[..TRIMS] + configBlock[TRIMS..];
    }

    /** Start-up. A device of another model is left as it was; one whose firmware never reports itself
        ready has been reset and nothing else. Otherwise the trim values survive the upload, registers
        37 to 135 hold the rest of the block, and everything above is as it was. */
    method Begin() returns (online: bool)
      requires Valid()
      modifies device`regs, device`pointer, device`polls, configBlock
      ensures Valid() && configBlock[TRIMS..] == old(configBlock[TRIMS..])
      ensures online <==>
        old(device.regs[0x010F]) == 0xEA && old(device.regs[0x0110]) == 0xCC && SetInTime(device.mode, old(device.polls))
      ensures IsThisModel(old(device.regs)) ==> (online, device.polls) == Verdict(device.mode, old(device.polls), 100)
      ensures !IsThisModel(old(device.regs)) ==> device.regs == old(device.regs) && device.polls == old(device.polls)
      ensures IsThisModel(old(device.regs)) && !online ==> device.regs == old(device.regs)[0 := 1]
      ensures !online ==> configBlock[..] == old(configBlock[..])
      ensures device.polls <= old(device.polls) + 102
      ensures online ==> configBlock[..TRIMS] == old(device.regs[1..TRIMS + 1])
      ensures online ==> device.regs == Started(old(device.regs), old(configBlock[..]))
      ensures online ==> (device.regs[0x2E] % 2 == 1 <==> old(configBlock[0x2D]) % 2 == 1)
      ensures online ==> (device.regs[0x2F] % 2 == 1 <==> old(configBlock[0x2E]) % 2 == 1)
    {
      hide Uploaded, SetInTime, Started, Verdict;
      ModelBytes(device.regs);
      var modelID := ReadRegister16(MODEL_ID);
      if modelID != THIS_MODEL {
        return false;
      }
      SoftReset();
      var ready := WaitForFirmware();
      if !ready {
        return false;
      }
      SetPad();
      ReadTrims();
      StartMeasurement();
      Composed(old(device.regs), old(configBlock[..]), configBlock[..]);
      PadSettingExactly(old(device.regs), old(configBlock[..]));
      return true;
    }
  }

  /** One register, and two consecutive ones, replaced. */
  lemma WriteOne(regs: seq<Byte>, addr: nat, b: Byte)
    requires addr < |regs|
    ensures regs[..addr] + [b] + regs[addr + 1..] == regs[addr := b]
  {
  }

  lemma WriteTwo(regs: seq<Byte>, addr: nat, a: Byte, b: Byte)
    requires addr + 1 < |regs|
    ensures regs[..addr] + [a, b] + regs[addr + 2..] == regs[addr := a][addr + 1 := b]
  {
  }

  lemma AddressBytes(addr: nat)
    requires addr < 0x1_0000
    ensures addr / 0x100 % 0x100 < 0x100 && Join(addr / 0x100 % 0x100, addr % 0x100) == addr
  {
  }

  /** Registers with the block written below `address`. */
  function Uploaded(start: seq<Byte>, block: seq<Byte>, address: nat): seq<Byte>
    requires |start| == 0x1_0000 && |block| == BLOCK && 1 <= address <= BLOCK + 1
  {
    [start[0]] + block[..address - 1] + start[address..]
  }

  /** One chunk extends the uploaded part. */
  lemma Chunk(before: seq<Byte>, after: seq<Byte>, start: seq<Byte>, block: seq<Byte>, address: nat, n: nat)
    requires |start| == 0x1_0000 && |block| == BLOCK && 1 <= address && address + n <= BLOCK + 1
    ensures Uploaded(start, block, 1) == start
    ensures before == Uploaded(start, block, address)
      && after == before[..address] + block[address - 1..address - 1 + n] + before[address + n..]
      ==> after == Uploaded(start, block, address + n)
  {
  }

  /** Whether that reading of a moving register has its low bit set. */
  predicate LowSet(byte: nat -> Byte, poll: nat) { byte(poll) % 2 == 1 }

  /** Whether one of the 101 readings that count has it set. */
  ghost predicate SetInTime(byte: nat -> Byte, first: nat) {
    exists k :: first <= k <= first + 100 && LowSet(byte, k)
  }

  lemma BitInTime(byte: nat -> Byte, first: nat)
    ensures SetInTime(byte, first) <==> exists k :: first <= k <= first + 100 && byte(k) % 2 == 1
  {
    if SetInTime(byte, first) {
      var k :| first <= k <= first + 100 && LowSet(byte, k);
      assert byte(k) % 2 == 1;
    }
    if k :| first <= k <= first + 100 && byte(k) % 2 == 1 {
      assert LowSet(byte, k);
    }
  }

  /** What polling a register's low bit comes to, from reading `k` with `left` more that count: the
      outcome, and the next reading afterwards. */
  function Verdict(byte: nat -> Byte, k: nat, left: nat): (bool, nat)
    decreases left
  {
    if LowSet(byte, k) then (true, k + 1) else if left == 0 then (false, k + 2) else Verdict(byte, k + 1, left - 1)
  }

  lemma VerdictStep(byte: nat -> Byte, k: nat, left: nat)
    ensures LowSet(byte, k) ==> Verdict(byte, k, left) == (true, k + 1)
    ensures !LowSet(byte, k) && left == 0 ==> Verdict(byte, k, left) == (false, k + 2)
    ensures !LowSet(byte, k) && left > 0 ==> Verdict(byte, k, left) == Verdict(byte, k + 1, left - 1)
  {
  }

  lemma {:induction false} VerdictMeaning(byte: nat -> Byte, k: nat, left: nat)
    ensures var v := Verdict(byte, k, left);
      && (v.0 <==> exists i :: k <= i <= k + left && LowSet(byte, i))
      && (v.0 ==> k < v.1 <= k + left + 1 && LowSet(byte, v.1 - 1) && forall i :: k <= i < v.1 - 1 ==> !LowSet(byte, i))
      && (!v.0 ==> v.1 == k + left + 2)
    decreases left
  {
    hide LowSet;
    if !LowSet(byte, k) && left > 0 {
      VerdictMeaning(byte, k + 1, left - 1);
    }
  }

  /** The loop is documented to poll bit 0 of FIRMWARE__SYSTEM_STATUS. It stops with the documented
      outcome at the documented reading exactly when the first of the 101 readings with either low bit
      set, if there is one, has both set. */
  lemma {:induction false} VerdictsAgreeExactly(boot: nat -> Byte, mode: nat -> Byte, first: nat, left: nat)
    ensures Verdict(boot, first, left) == Verdict(mode, first, left) <==>
      forall k :: first <= k <= first + left && NeitherBefore(boot, mode, first, k) ==>
        (LowSet(boot, k) <==> LowSet(mode, k))
    decreases left
  {
    hide LowSet;
    if LowSet(boot, first) || LowSet(mode, first) {
      VerdictMeaning(boot, first, left);
      VerdictMeaning(mode, first, left);
      assert NeitherBefore(boot, mode, first, first);
      forall k | first < k <= first + left
        ensures !NeitherBefore(boot, mode, first, k)
      {
      }
    } else if left > 0 {
      VerdictsAgreeExactly(boot, mode, first + 1, left - 1);
      forall k | first < k <= first + left
        ensures NeitherBefore(boot, mode, first, k) <==> NeitherBefore(boot, mode, first + 1, k)
      {
      }
    }
  }

  ghost predicate NeitherBefore(boot: nat -> Byte, mode: nat -> Byte, first: nat, k: nat) {
    forall j :: first <= j < k ==> !LowSet(boot, j) && !LowSet(mode, j)
  }

  /** The outcome alone is the documented one exactly when both bits or neither get set in time. */
  lemma OutcomesAgreeExactly(boot: nat -> Byte, mode: nat -> Byte, first: nat)
    ensures Verdict(boot, first, 100).0 == Verdict(mode, first, 100).0 <==>
      (SetInTime(boot, first) <==> SetInTime(mode, first))
  {
    hide Verdict;
    VerdictMeaning(boot, first, 100);
    VerdictMeaning(mode, first, 100);
  }

  /** A device that reports itself booted at every reading and is given up after 102 of them, and one
      that never does and is taken for ready at once. */
  lemma BootIsNotPolled(first: nat)
    ensures var boot, mode := Always(1), Always(0);
      SetInTime(boot, first) && !SetInTime(mode, first) && Verdict(mode, first, 100) == (false, first + 102)
    ensures var boot, mode := Always(0), Always(1);
      !SetInTime(boot, first) && SetInTime(mode, first) && Verdict(mode, first, 100) == (true, first + 1)
  {
    VerdictMeaning(Always(0), first, 100);
    assert LowSet(Always(1), first);
  }

  function Always(b: Byte): nat -> Byte { _ => b }

  predicate IsThisModel(regs: seq<Byte>)
    requires |regs| == 0x1_0000
  {
    Join(regs[MODEL_ID], regs[MODEL_ID + 1]) == THIS_MODEL
  }

  /** The model is the two identification bytes, high byte first. */
  lemma ModelBytes(regs: seq<Byte>)
    requires |regs| == 0x1_0000
    ensures IsThisModel(regs) <==> regs[0x010F] == 0xEA && regs[0x0110] == 0xCC
  {
  }

  /** The low bit of a 16-bit status reading is that of the mode byte. */
  lemma LowBit(boot: nat -> Byte, mode: nat -> Byte, k: nat)
    ensures And(Join(boot(k), mode(k)), 1) == if LowSet(mode, k) then 1 else 0
  {
    AndLow(Join(boot(k), mode(k)), 1);
  }

  /** The value written back: the high byte cleared, bit 0 of the low byte set. */
  lemma PadValue(high: Byte, low: Byte)
    ensures var w := Or(And(Join(high, low), 0xFE), 1);
      w == low / 2 * 2 + 1 && w / 0x100 == 0 && w % 0x100 == w
  {
    hide Or, And, Shl;
    Pow2Values();
    assert Pow2(7) == 0x80;
    var w := Join(high, low);
    AndEven(w, 0x7F);
    AndLow(w / 2, 7);
    DivModUnique(w, 2, 0x80 * high + low / 2, low % 2);
    DivModUnique(w / 2, 0x80, high, low / 2);
    ShlIsProduct(low / 2, 1);
    OrJoins(low / 2, 1, 1);
  }

  /** Reset, pad write, trims and upload, composed: the upload covers both pad registers. */
  lemma Composed(start: seq<Byte>, was: seq<Byte>, block: seq<Byte>)
    requires |start| == 0x1_0000 && |was| == BLOCK && |block| == BLOCK
    requires block == start[1..TRIMS + 1] + was[TRIMS..]
    ensures var prepared := start[SOFT_RESET := 1][PAD_CONFIG := 0][GPIO_PAD := start[GPIO_PAD] / 2 * 2 + 1];
      Uploaded(prepared, block, BLOCK + 1) == Started(start, was)
  {
    var prepared := start[SOFT_RESET := 1][PAD_CONFIG := 0][GPIO_PAD := start[GPIO_PAD] / 2 * 2 + 1];
    assert block[..BLOCK] == block;
    assert prepared[BLOCK + 1..] == start[BLOCK + 1..];
    assert [1] + block == [1] + start[1..TRIMS + 1] + was[TRIMS..];
  }

  /** The register file after a successful start-up, by `Begin`. */
  function Started(start: seq<Byte>, block: seq<Byte>): (r: seq<Byte>)
    requires |start| == 0x1_0000 && |block| == BLOCK
    ensures |r| == 0x1_0000
  {
    [1] + start[1..TRIMS + 1] + block[TRIMS..] + start[BLOCK + 1..]
  }

  /** One register of it. */
  lemma StartedRegister(start: seq<Byte>, block: seq<Byte>, i: nat)
    requires |start| == 0x1_0000 && |block| == BLOCK && i < 0x1_0000
    ensures Started(start, block)[i] == if i == 0 then 1 else if 37 <= i <= 135 then block[i - 1] else start[i]
  {
    var head := [1] + start[1..TRIMS + 1];
    var front := head + block[TRIMS..];
    assert Started(start, block) == front + start[BLOCK + 1..];
    if i <= TRIMS {
      assert front[i] == head[i];
    } else if i <= BLOCK {
      assert front[i] == block[TRIMS..][i - TRIMS - 1];
    }
  }

  /** One register after an upload up to `address`. */
  lemma UploadedRegister(start: seq<Byte>, block: seq<Byte>, address: nat, i: nat)
    requires |start| == 0x1_0000 && |block| == BLOCK && 1 <= address <= BLOCK + 1 && i < 0x1_0000
    ensures |Uploaded(start, block, address)| == 0x1_0000
    ensures Uploaded(start, block, address)[i] == if 1 <= i < address then block[i - 1] else start[i]
  {
  }

  /** The 2.8 V bit was never set, so after start-up it is set exactly when the block sets it; the bit
      that the write did set, in the register behind it, is overwritten by the block as well. */
  lemma PadSettingExactly(start: seq<Byte>, block: seq<Byte>)
    requires |start| == 0x1_0000 && |block| == BLOCK
    ensures Started(start, block)[0x2E] == block[0x2D]
    ensures Started(start, block)[0x2E] % 2 == 1 <==> block[0x2D] % 2 == 1
    ensures Started(start, block)[0x2F] % 2 == 1 <==> block[0x2E] % 2 == 1
  {
    var head := [1] + start[1..TRIMS + 1];
    assert (head + block[TRIMS..])[PAD_CONFIG] == block[PAD_CONFIG - 1];
    assert (head + block[TRIMS..])[GPIO_PAD] == block[GPIO_PAD - 1];
  }

  /** The default block sets neither. */
  lemma PadSettingIsOff(start: seq<Byte>)
    requires |start| == 0x1_0000
    ensures Started(start, DEFAULT_BLOCK)[0x2E] == 0 && Started(start, DEFAULT_BLOCK)[0x2F] == 0
  {
    var head := [1] + start[1..TRIMS + 1];
    assert (head + DEFAULT_BLOCK[TRIMS..])[PAD_CONFIG] == DEFAULT_BLOCK[PAD_CONFIG - 1];
    assert (head + DEFAULT_BLOCK[TRIMS..])[GPIO_PAD] == DEFAULT_BLOCK[GPIO_PAD - 1];
  }

  lemma JoinBytes(high: Byte, low: Byte)
    ensures Or(Shl(high, 8), low) == 0x100 * high + low
  {
    hide Or, Shl, Pow2;
    Pow2Values();
    OrJoins(high, low, 8);
    ShlIsProduct(high, 8);
  }
}
