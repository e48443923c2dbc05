/** Descriptors and tables together: a region's descriptor words, handed to the table writers,
    give calls of the right type, and the attribute bits that the walk returns decode to what
    the descriptor builder achieved for that region. */
module DescribedRegions {
  import Bits
  import D = Descriptors
  import T = TranslationTables

  function ByteOf(w: bv32): bv8 { (w & 0xFF) as bv8 }

  function Value(b: bv8): (n: nat)
    ensures n < 256
  {
    BitValue(b, 1) + 2 * BitValue(b, 2) + 4 * BitValue(b, 4) + 8 * BitValue(b, 8)
    + 16 * BitValue(b, 16) + 32 * BitValue(b, 32) + 64 * BitValue(b, 64) + 128 * BitValue(b, 128)
  }

  function BitValue(b: bv8, mask: bv8): (n: nat)
    ensures n <= 1
  {
    if b & mask == mask then 1 else 0
  }

  /** The number that a word holds, byte by byte. */
  function Number(w: bv32): (n: T.Word) {
    Value(ByteOf(w)) + 0x100 * Value(ByteOf(w >> 8))
    + 0x1_0000 * Value(ByteOf(w >> 16)) + 0x100_0000 * Value(ByteOf(w >> 24))
  }

  /** The number is the word's binary value: its last digit, and the number of what is left. */
  lemma NumberMeaning(w: bv32)
    ensures Number(0) == 0
    ensures Number(w) == 2 * Number(w >> 1) + if w & 1 == 1 then 1 else 0
  {
    hide ByteOf, Value, Digit, Shifted;
    ZeroNumber();
    ShiftedBytes(w);
    ByteShifts(ByteOf(w), ByteOf(w >> 8));
    ByteShifts(ByteOf(w >> 8), ByteOf(w >> 16));
    ByteShifts(ByteOf(w >> 16), ByteOf(w >> 24));
    ByteShifts(ByteOf(w >> 24), 0);
  }

  function Digit(b: bv8): nat { if b & 1 == 1 then 1 else 0 }

  /** A byte shifted right takes in the next one's last digit at the top. */
  function Shifted(b: bv8, next: bv8): bv8 { (b >> 1) | ((next & 1) << 7) }

  lemma ShiftedBytes(w: bv32)
    ensures Digit(ByteOf(w)) == (if w & 1 == 1 then 1 else 0) && Digit(0) == 0
    ensures ByteOf(w >> 1) == Shifted(ByteOf(w), ByteOf(w >> 8))
    ensures ByteOf((w >> 1) >> 8) == Shifted(ByteOf(w >> 8), ByteOf(w >> 16))
    ensures ByteOf((w >> 1) >> 16) == Shifted(ByteOf(w >> 16), ByteOf(w >> 24))
    ensures ByteOf((w >> 1) >> 24) == Shifted(ByteOf(w >> 24), 0)
  {
  }

  lemma ByteShifts(b: bv8, next: bv8)
    ensures 2 * Value(Shifted(b, next)) + Digit(b) == Value(b) + 0x100 * Digit(next)
  {
    hide BitValue, Shifted, Digit;
    ShiftedBits(b, next);
  }

  lemma ShiftedBits(b: bv8, next: bv8)
    ensures var s := Shifted(b, next);
      && BitValue(s, 1) == BitValue(b, 2) && BitValue(s, 2) == BitValue(b, 4) && BitValue(s, 4) == BitValue(b, 8)
      && BitValue(s, 8) == BitValue(b, 16) && BitValue(s, 16) == BitValue(b, 32) && BitValue(s, 32) == BitValue(b, 64)
      && BitValue(s, 64) == BitValue(b, 128) && BitValue(s, 128) == Digit(next) && BitValue(b, 1) == Digit(b)
  {
  }

  lemma ByteTypes(b: bv8)
    ensures b & 3 == 2 ==> Value(b) % 4 == 2
    ensures b & 3 == 1 ==> Value(b) % 4 == 1
    ensures b & 2 == 2 ==> Value(b) / 2 % 2 == 1
  {
  }

  lemma ByteRanges(b: bv8)
    ensures b & 4 == 0 ==> Value(b) / 4 % 2 == 0
    ensures b & 0xF0 == 0 ==> Value(b) < 16
    ensures b & 0xFC == 0 ==> Value(b) < 4
    ensures b == 0 ==> Value(b) == 0
  {
  }

  /** Equal numbers have equal last digits and equal leading parts. */
  lemma DigitsEqual(a: nat, x: nat, b: nat, y: nat, base: nat)
    requires a < base && b < base && a + base * x == b + base * y
    ensures a == b && x == y
  {
    Bits.DivModUnique(a + base * x, base, x, a);
    Bits.DivModUnique(a + base * x, base, y, b);
  }

  lemma BitsDetermine(a: bv8, b: bv8)
    requires BitValue(a, 1) == BitValue(b, 1) && BitValue(a, 2) == BitValue(b, 2)
    requires BitValue(a, 4) == BitValue(b, 4) && BitValue(a, 8) == BitValue(b, 8)
    requires BitValue(a, 16) == BitValue(b, 16) && BitValue(a, 32) == BitValue(b, 32)
    requires BitValue(a, 64) == BitValue(b, 64) && BitValue(a, 128) == BitValue(b, 128)
    ensures a == b
  {
  }

  lemma ByteInjective(a: bv8, b: bv8)
    requires Value(a) == Value(b)
    ensures a == b
  {
    hide BitValue;
    ghost var x7, y7 := BitValue(a, 128), BitValue(b, 128);
    ghost var x6, y6 := BitValue(a, 64) + 2 * x7, BitValue(b, 64) + 2 * y7;
    ghost var x5, y5 := BitValue(a, 32) + 2 * x6, BitValue(b, 32) + 2 * y6;
    ghost var x4, y4 := BitValue(a, 16) + 2 * x5, BitValue(b, 16) + 2 * y5;
    ghost var x3, y3 := BitValue(a, 8) + 2 * x4, BitValue(b, 8) + 2 * y4;
    ghost var x2, y2 := BitValue(a, 4) + 2 * x3, BitValue(b, 4) + 2 * y3;
    DigitsEqual(BitValue(a, 1), BitValue(a, 2) + 2 * x2, BitValue(b, 1), BitValue(b, 2) + 2 * y2, 2);
    DigitsEqual(BitValue(a, 2), x2, BitValue(b, 2), y2, 2);
    DigitsEqual(BitValue(a, 4), x3, BitValue(b, 4), y3, 2);
    DigitsEqual(BitValue(a, 8), x4, BitValue(b, 8), y4, 2);
    DigitsEqual(BitValue(a, 16), x5, BitValue(b, 16), y5, 2);
    DigitsEqual(BitValue(a, 32), x6, BitValue(b, 32), y6, 2);
    DigitsEqual(BitValue(a, 64), x7, BitValue(b, 64), y7, 2);
    BitsDetermine(a, b);
  }

  lemma BytesDetermine(v: bv32, w: bv32)
    requires ByteOf(v) == ByteOf(w) && ByteOf(v >> 8) == ByteOf(w >> 8)
    requires ByteOf(v >> 16) == ByteOf(w >> 16) && ByteOf(v >> 24) == ByteOf(w >> 24)
    ensures v == w
  {
  }

  /** No two words hold the same number, so a number names its attributes. */
  lemma NumberInjective(v: bv32, w: bv32)
    requires Number(v) == Number(w)
    ensures v == w
  {
    hide ByteOf, Value;
    ghost var x3, y3 := Value(ByteOf(v >> 24)), Value(ByteOf(w >> 24));
    ghost var x2, y2 := Value(ByteOf(v >> 16)) + 0x100 * x3, Value(ByteOf(w >> 16)) + 0x100 * y3;
    ghost var x1, y1 := Value(ByteOf(v >> 8)) + 0x100 * x2, Value(ByteOf(w >> 8)) + 0x100 * y2;
    DigitsEqual(Value(ByteOf(v)), x1, Value(ByteOf(w)), y1, 0x100);
    DigitsEqual(Value(ByteOf(v >> 8)), x2, Value(ByteOf(w >> 8)), y2, 0x100);
    DigitsEqual(Value(ByteOf(v >> 16)), x3, Value(ByteOf(w >> 16)), y3, 0x100);
    ByteInjective(ByteOf(v), ByteOf(w));
    ByteInjective(ByteOf(v >> 8), ByteOf(w >> 8));
    ByteInjective(ByteOf(v >> 16), ByteOf(w >> 16));
    ByteInjective(ByteOf(v >> 24), ByteOf(w >> 24));
    BytesDetermine(v, w);
  }

  lemma DescriptorBytes(w: bv32)
    ensures w & 0xFFF4_0003 == 2 ==>
      ByteOf(w) & 3 == 2 && ByteOf(w >> 16) & 0xF0 == 0 && ByteOf(w >> 16) & 4 == 0 && ByteOf(w >> 24) == 0
    ensures w & 0xFFFF_FC17 == 1 ==>
      ByteOf(w) & 3 == 1 && ByteOf(w >> 8) & 0xFC == 0 && ByteOf(w >> 16) == 0 && ByteOf(w >> 24) == 0
    ensures w & 0xFFFF_F002 == 2 ==>
      ByteOf(w) & 2 == 2 && ByteOf(w >> 8) & 0xF0 == 0 && ByteOf(w >> 16) == 0 && ByteOf(w >> 24) == 0
    ensures w & 0xFFFF_01C3 == 1 ==>
      ByteOf(w) & 3 == 1 && ByteOf(w >> 16) == 0 && ByteOf(w >> 24) == 0
  {
  }

  lemma SectionNumber(w: bv32)
    requires w & 0xFFF4_0003 == 2
    ensures Number(w) < 0x10_0000 && Number(w) % 4 == 2 && Number(w) / 0x4_0000 % 2 == 0
  {
    hide ByteOf, Value;
    DescriptorBytes(w);
    ByteTypes(ByteOf(w));
    ByteRanges(ByteOf(w >> 16));
    ByteRanges(ByteOf(w >> 24));
    var b0, b1, b2 := Value(ByteOf(w)), Value(ByteOf(w >> 8)), Value(ByteOf(w >> 16));
    Bits.DivModUnique(Number(w), 4, b0 / 4 + 0x40 * b1 + 0x4000 * b2, b0 % 4);
    Bits.DivModUnique(Number(w), 0x4_0000, b2 / 4, b0 + 0x100 * b1 + 0x1_0000 * (b2 % 4));
  }

  lemma PageTableNumber(w: bv32)
    requires w & 0xFFFF_FC17 == 1
    ensures Number(w) < 1024 && Number(w) % 4 == 1
  {
    hide ByteOf, Value;
    DescriptorBytes(w);
    ByteTypes(ByteOf(w));
    ByteRanges(ByteOf(w >> 8));
    ByteRanges(ByteOf(w >> 16));
    ByteRanges(ByteOf(w >> 24));
  }

  lemma SmallPageNumber(w: bv32)
    requires w & 0xFFFF_F002 == 2
    ensures Number(w) < 0x1000 && Number(w) / 2 % 2 == 1
  {
    hide ByteOf, Value;
    DescriptorBytes(w);
    ByteTypes(ByteOf(w));
    ByteRanges(ByteOf(w >> 8));
    ByteRanges(ByteOf(w >> 16));
    ByteRanges(ByteOf(w >> 24));
  }

  lemma LargePageNumber(w: bv32)
    requires w & 0xFFFF_01C3 == 1
    ensures Number(w) < 0x1_0000 && Number(w) % 4 == 1
  {
    hide ByteOf, Value;
    DescriptorBytes(w);
    ByteTypes(ByteOf(w));
    ByteRanges(ByteOf(w >> 16));
    ByteRanges(ByteOf(w >> 24));
  }

  /** The attributes that a translation carries, read back through the descriptor format of its
      entry; `first` and `second` are the words whose numbers the walk reported. */
  ghost predicate Carries(t: T.Translation, va: T.Word, size: D.RegionSize, attributes: D.Attributes) {
    && t.Mapped? && t.pa == va
    && exists first: bv32, second: bv32 {:trigger Number(first), Number(second)} ::
      && Number(first) == t.level1 && Number(second) == t.level2
      && attributes == match size
           case SectionSize => D.DecodeSection(first)
           case Page4kSize => D.DecodeSmallPage(first, second)
           case Page64kSize => D.DecodeLargePage(first, second)
  }

  /** A carried set of attributes is the only one the translation carries. */
  lemma CarriedOnce(t: T.Translation, va: T.Word, size: D.RegionSize, a: D.Attributes, b: D.Attributes)
    requires Carries(t, va, size, a) && Carries(t, va, size, b)
    ensures a == b && t.Mapped? && t.pa == va
  {
    hide Number, D.DecodeSection, D.DecodeSmallPage, D.DecodeLargePage;
    var v1: bv32, v2: bv32 :| Number(v1) == t.level1 && Number(v2) == t.level2
      && a == (match size
           case SectionSize => D.DecodeSection(v1)
           case Page4kSize => D.DecodeSmallPage(v1, v2)
           case Page64kSize => D.DecodeLargePage(v1, v2));
    var w1: bv32, w2: bv32 :| Number(w1) == t.level1 && Number(w2) == t.level2
      && b == (match size
           case SectionSize => D.DecodeSection(w1)
           case Page4kSize => D.DecodeSmallPage(w1, w2)
           case Page64kSize => D.DecodeLargePage(w1, w2));
    NumberInjective(v1, w1);
    NumberInjective(v2, w2);
  }

  /** The words of a region, as the table writers take them. */
  method SectionWord(reg: D.Region) returns (descriptor: bv32)
    ensures Number(descriptor) < 0x10_0000 && Number(descriptor) % 4 == 2 && Number(descriptor) / 0x4_0000 % 2 == 0
    ensures D.DecodeSection(descriptor) == D.Built(reg)
  {
    hide Number, D.DecodeSection, D.Built, D.Honours, D.Expressible;
    descriptor := D.GetSectionDescriptor(reg);
    SectionNumber(descriptor);
  }

  method SmallPageWords(reg: D.Region) returns (first: bv32, second: bv32)
    requires reg.size == D.Page4kSize
    ensures first == D.PageTableWord(reg) && D.DecodeSmallPage(first, second) == D.Built(reg)
    ensures Number(first) < 1024 && Number(first) % 4 == 1
    ensures Number(second) < 0x1000 && Number(second) / 2 % 2 == 1
  {
    hide Number, D.DecodeSmallPage, D.DecodeLargePage, D.PageTableWord, D.Built, D.Honours, D.Expressible;
    first, second := D.GetPageDescriptor(reg);
    PageTableNumber(first);
    SmallPageNumber(second);
  }

  method LargePageWords(reg: D.Region) returns (first: bv32, second: bv32)
    requires reg.size == D.Page64kSize
    ensures first == D.PageTableWord(reg) && D.DecodeLargePage(first, second) == D.Built(reg)
    ensures Number(first) < 1024 && Number(first) % 4 == 1
    ensures Number(second) < 0x1_0000 && Number(second) % 4 == 1
  {
    hide Number, D.DecodeSmallPage, D.DecodeLargePage, D.PageTableWord, D.Built, D.Honours, D.Expressible;
    first, second := D.GetPageDescriptor(reg);
    PageTableNumber(first);
    LargePageNumber(second);
  }

  /** A region described and then mapped as sections carries the attributes the builder achieved,
      on every address the call covers, in any planned memory. */
  method MapSections(memory: array<T.Word>, ttb: nat, ghost plan: seq<T.Use>, base: T.Word, count: nat, reg: D.Region)
    requires T.PlanFits(plan, ttb, memory.Length) && T.Follows(memory[..], ttb, plan)
    requires T.SectionIndex(base) + count <= 4096
    requires forall s :: T.SectionIndex(base) <= s < T.SectionIndex(base) + count ==> plan[s].Sections?
    modifies memory
    ensures T.Follows(memory[..], ttb, plan)
    ensures forall va: T.Word :: T.SectionIndex(base) <= T.SectionIndex(va) < T.SectionIndex(base) + count ==>
      Carries(T.Walk(memory[..], ttb, va), va, D.SectionSize, D.Built(reg))
    ensures forall va: T.Word :: !(T.SectionIndex(base) <= T.SectionIndex(va) < T.SectionIndex(base) + count) ==>
      T.Walk(memory[..], ttb, va) == T.Walk(old(memory[..]), ttb, va)
  {
    hide Number, T.Walk, T.Follows, D.DecodeSection, D.Built;
    var descriptor := SectionWord(reg);
    var c := T.SectionCall(base, count, Number(descriptor));
    T.Perform(memory, ttb, plan, c);
    ZeroNumber();
  }

  lemma ZeroNumber()
    ensures Number(0) == 0
  {
  }

  /** The same for 4 KB pages behind the second-level table at address `table`. */
  method MapSmallPages(memory: array<T.Word>, ttb: nat, ghost plan: seq<T.Use>, base: T.Word, count: nat,
                       table: T.Word, reg: D.Region)
    requires reg.size == D.Page4kSize && T.PlanFits(plan, ttb, memory.Length) && T.Follows(memory[..], ttb, plan)
    requires plan[T.SectionIndex(base)].Pages?
    requires table % 1024 == 0
    requires plan[T.SectionIndex(base)].l1 == table + Number(D.PageTableWord(reg))
    requires T.PageIndex(base) + count <= 256
    requires forall j :: T.PageIndex(base) <= j < T.PageIndex(base) + count ==>
      !plan[T.SectionIndex(base)].large[j / 16]
    modifies memory
    ensures T.Follows(memory[..], ttb, plan)
    ensures forall va: T.Word ::
      if T.SectionIndex(va) == T.SectionIndex(base) && T.PageIndex(base) <= T.PageIndex(va) < T.PageIndex(base) + count
      then Carries(T.Walk(memory[..], ttb, va), va, D.Page4kSize, D.Built(reg))
      else T.Walk(memory[..], ttb, va) == T.Walk(old(memory[..]), ttb, va)
  {
    hide Number, T.Walk, T.Follows, T.TableAt, D.DecodeSmallPage, D.PageTableWord, D.Built;
    var first, second := SmallPageWords(reg);
    var c := T.Page4kCall(base, count, Number(first), table, Number(second));
    T.Perform(memory, ttb, plan, c);
  }

  /** The same for 64 KB pages behind the second-level table at address `table`. */
  method MapLargePages(memory: array<T.Word>, ttb: nat, ghost plan: seq<T.Use>, base: T.Word, count: nat,
                       table: T.Word, reg: D.Region)
    requires reg.size == D.Page64kSize && T.PlanFits(plan, ttb, memory.Length) && T.Follows(memory[..], ttb, plan)
    requires plan[T.SectionIndex(base)].Pages?
    requires table % 1024 == 0
    requires plan[T.SectionIndex(base)].l1 == table + Number(D.PageTableWord(reg))
    requires T.PageIndex(base) % 16 == 0 && T.PageIndex(base) + 16 * count <= 256
    requires forall j :: T.PageIndex(base) <= j < T.PageIndex(base) + 16 * count ==>
      plan[T.SectionIndex(base)].large[j / 16]
    modifies memory
    ensures T.Follows(memory[..], ttb, plan)
    ensures forall va: T.Word ::
      if T.SectionIndex(va) == T.SectionIndex(base)
         && T.PageIndex(base) <= T.PageIndex(va) < T.PageIndex(base) + 16 * count
      then Carries(T.Walk(memory[..], ttb, va), va, D.Page64kSize, D.Built(reg))
      else T.Walk(memory[..], ttb, va) == T.Walk(old(memory[..]), ttb, va)
  {
    hide Number, T.Walk, T.Follows, T.TableAt, D.DecodeLargePage, D.PageTableWord, D.Built;
    var first, second := LargePageWords(reg);
    var c := T.Page64kCall(base, count, Number(first), table, Number(second));
    T.Perform(memory, ttb, plan, c);
  }

  // ---- whole memory maps --------------------------------------------------------------------

  /** A region of a memory map: where it lies, the second-level table for its pages, what it should be. */
  datatype Described = Described(base: T.Word, count: nat, table: T.Word, reg: D.Region)

  /** The call that maps a region, with the attribute bits of its last entry left open: where it goes
      does not depend on them. */
  function Shape(d: Described): T.Call {
    match d.reg.size
    case SectionSize => T.SectionCall(d.base, d.count, 2)
    case Page4kSize => T.Page4kCall(d.base, d.count, Number(D.PageTableWord(d.reg)), d.table, 2)
    case Page64kSize => T.Page64kCall(d.base, d.count, Number(D.PageTableWord(d.reg)), d.table, 1)
  }

  function Shapes(regions: seq<Described>): (calls: seq<T.Call>)
    ensures |calls| == |regions|
  {
    seq(|regions|, k requires 0 <= k < |regions| => Shape(regions[k]))
  }

  /** The addresses of a region, by its size; its pages lie in one megabyte. */
  lemma RegionMeaning(d: Described, va: T.Word)
    ensures Shape(d).base == d.base && Shape(d).count == d.count
    ensures d.reg.size != D.SectionSize ==> !Shape(d).SectionCall? && Shape(d).table == d.table
    ensures d.reg.size == D.SectionSize ==>
      var start := d.base / 0x10_0000 * 0x10_0000;
      Shape(d).Covers(va) <==> start <= va < start + d.count * 0x10_0000
    ensures d.reg.size == D.Page4kSize && d.base / 0x1000 % 256 + d.count <= 256 ==>
      var start := d.base / 0x1000 * 0x1000;
      Shape(d).Covers(va) <==> start <= va < start + d.count * 0x1000
    ensures d.reg.size == D.Page64kSize && d.base / 0x1000 % 256 + 16 * d.count <= 256 && d.base / 0x1000 % 16 == 0 ==>
      var start := d.base / 0x1_0000 * 0x1_0000;
      Shape(d).Covers(va) <==> start <= va < start + d.count * 0x1_0000
  {
    hide Number, D.PageTableWord;
    T.CoversMeaning(Shape(d), va);
  }

  /** A region of any size, in planned memory. */
  method MapRegion(memory: array<T.Word>, ttb: nat, ghost plan: seq<T.Use>, d: Described)
    requires T.PlanFits(plan, ttb, memory.Length) && T.Follows(memory[..], ttb, plan) && T.CallFits(Shape(d), plan)
    modifies memory
    ensures T.Follows(memory[..], ttb, plan)
    ensures forall va: T.Word ::
      if Shape(d).Covers(va) then Carries(T.Walk(memory[..], ttb, va), va, d.reg.size, D.Built(d.reg))
      else T.Walk(memory[..], ttb, va) == T.Walk(old(memory[..]), ttb, va)
  {
    hide Number, T.Walk, T.Follows, T.PlanFits, T.SectionIndex, T.PageIndex, Carries, D.Built, D.PageTableWord;
    match d.reg.size {
      case SectionSize =>
        MapSections(memory, ttb, plan, d.base, d.count, d.reg);
      case Page4kSize =>
        AlignedLink(d.table, Number(D.PageTableWord(d.reg)));
        MapSmallPages(memory, ttb, plan, d.base, d.count, d.table, d.reg);
      case Page64kSize =>
        AlignedLink(d.table, Number(D.PageTableWord(d.reg)));
        MapLargePages(memory, ttb, plan, d.base, d.count, d.table, d.reg);
    }
  }

  lemma AlignedLink(table: T.Word, l1: T.Word)
    requires l1 < 1024
    ensures table % 1024 == 0 ==> T.LinkEntry(table, l1) == table + l1
  {
  }

  /** A whole memory map from empty tables, in memory that otherwise holds anything, under conditions on
      the regions alone: every address of a region goes to itself with what the builder achieved for
      that region, every other one faults. */
  method MapAll(memory: array<T.Word>, ttb: nat, regions: seq<Described>)
    requires T.Separate(Shapes(regions), ttb, memory.Length) && T.TablesEmpty(memory[..], ttb, Shapes(regions))
    modifies memory
    ensures forall k, va: T.Word :: 0 <= k < |regions| && Shape(regions[k]).Covers(va) ==>
      Carries(T.Walk(memory[..], ttb, va), va, regions[k].reg.size, D.Built(regions[k].reg))
    ensures forall va: T.Word :: (forall k :: 0 <= k < |regions| ==> !Shape(regions[k]).Covers(va)) ==>
      T.Walk(memory[..], ttb, va) == T.Fault
  {
    hide Shape, Carries, D.Built, T.Walk, T.Follows, T.PlanFits, T.CallFits, T.Separate, T.TablesEmpty;
    ghost var calls := Shapes(regions);
    T.EmptyTables(memory[..], ttb, calls, 0);
    ghost var plan := T.PlanOf(calls);
    T.PlanBounds(plan, ttb, memory.Length, 0);
    forall va: T.Word
      ensures T.Walk(memory[..], ttb, va) == T.Fault
    {
      T.EmptyTables(memory[..], ttb, calls, va);
    }
    for n := 0 to |regions|
      invariant T.Follows(memory[..], ttb, plan)
      invariant forall k, va: T.Word :: 0 <= k < n && Shape(regions[k]).Covers(va) ==>
        Carries(T.Walk(memory[..], ttb, va), va, regions[k].reg.size, D.Built(regions[k].reg))
      invariant forall va: T.Word :: (forall k :: 0 <= k < n ==> !Shape(regions[k]).Covers(va)) ==>
        T.Walk(memory[..], ttb, va) == T.Fault
    {
      T.CallFitsPlan(calls, ttb, memory.Length, n);
      ApartFromEarlier(regions, ttb, memory.Length, n);
      MapRegion(memory, ttb, plan, regions[n]);
    }
  }

  lemma ApartFromEarlier(regions: seq<Described>, ttb: nat, size: nat, n: nat)
    requires T.Separate(Shapes(regions), ttb, size) && n < |regions|
    ensures forall k, va: T.Word :: 0 <= k < n && Shape(regions[k]).Covers(va) ==> !Shape(regions[n]).Covers(va)
  {
    hide Shape, T.Separate;
    forall k, va: T.Word | 0 <= k < n && Shape(regions[k]).Covers(va)
      ensures !Shape(regions[n]).Covers(va)
    {
      T.EitherOrder(Shapes(regions), ttb, size, k, n);
      assert T.Disjoint(Shapes(regions)[k], Shapes(regions)[n]);
    }
  }
}
