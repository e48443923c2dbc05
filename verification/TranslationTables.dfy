/** The three table writers of core_ca.h against the short-descriptor translation table walk
    (ARM Architecture Reference Manual, ARMv7-A and ARMv7-R edition, DDI 0406C, section B3.5). */
module TranslationTables {
  import opened Bits

  type Word = x: int | 0 <= x < 0x1_0000_0000

  /** Physical memory as words: `m[i]` is the word at byte address 4 * i. */
  type Words = seq<Word>

  /** `level1` and `level2` are the attribute bits of the words that the walk went through. */
  datatype Translation = Fault | Unpredictable | Mapped(pa: int, level1: int, level2: int)

  // ---- the hardware walk -------------------------------------------------------------------

  function SectionIndex(va: Word): (s: nat)
    ensures s < 4096
  {
    va / 0x10_0000
  }

  function PageIndex(va: Word): (j: nat)
    ensures j < 256
  {
    va / 0x1000 % 256
  }

  /** Where the walk looks for the first-level table: TTBR0 holds the base in units of 16 KB, so the
      walk finds a table exactly when it is aligned to that. */
  function TableBase(ttb: nat): (b: nat)
    ensures b <= ttb && (b == ttb <==> ttb % 4096 == 0)
  {
    ttb / 4096 * 4096
  }

  /** Word index of the second-level table that a first-level page word points to. */
  function TableAt(l1: Word): (t: nat)
    ensures t % 256 == 0
  {
    l1 / 1024 * 256
  }

  /** First of the sixteen entries around entry `j`. */
  function Block(j: nat): (b: nat)
    ensures b <= j < b + 16
    ensures j < 256 ==> b + 16 <= 256
  {
    j / 16 * 16
  }

  /** All sixteen copies of a 64 KB entry must agree. */
  predicate Replicated(m: Words, table: nat, j: nat)
    requires table + 256 <= |m| && j < 256
  {
    forall i :: table + Block(j) <= i < table + Block(j) + 16 ==> m[i] == m[table + j]
  }

  function WalkPage(m: Words, l1: Word, va: Word): Translation
    requires TableAt(l1) + 256 <= |m|
  {
    var l2 := m[TableAt(l1) + PageIndex(va)];
    if l2 / 2 % 2 == 1 then
      Mapped(l2 / 0x1000 * 0x1000 + va % 0x1000, l1 % 1024, l2 % 0x1000)
    else if l2 % 4 == 1 then
      if Replicated(m, TableAt(l1), PageIndex(va))
      then Mapped(l2 / 0x1_0000 * 0x1_0000 + va % 0x1_0000, l1 % 1024, l2 % 0x1_0000)
      else Unpredictable
    else Fault
  }

  /** A table outside memory aborts, type 3 is reserved, and supersections are not used here. */
  function Walk(m: Words, ttb: nat, va: Word): Translation
    requires ttb + 4096 <= |m|
  {
    var l1 := m[TableBase(ttb) + SectionIndex(va)];
    if l1 % 4 == 2 then
      if l1 / 0x4_0000 % 2 == 0 then
        Mapped(l1 / 0x10_0000 * 0x10_0000 + va % 0x10_0000, l1 % 0x10_0000, 0)
      else Unpredictable
    else if l1 % 4 == 1 && TableAt(l1) + 256 <= |m| then WalkPage(m, l1, va)
    else Fault
  }

  // ---- calls and what they ask for ----------------------------------------------------------

  datatype Call =
    | SectionCall(base: Word, count: nat, l1: Word)
    | Page4kCall(base: Word, count: nat, l1: Word, table: Word, l2: Word)
    | Page64kCall(base: Word, count: nat, l1: Word, table: Word, l2: Word)
  {
    /** Table entries, at the level the call maps, that the call stores. */
    function Stores(): nat { if Page64kCall? then 16 * count else count }

    predicate Covers(va: Word) {
      if SectionCall? then SectionIndex(base) <= SectionIndex(va) < SectionIndex(base) + count
      else SectionIndex(va) == SectionIndex(base) && PageIndex(base) <= PageIndex(va) < PageIndex(base) + Stores()
    }

    /** Identity, with the attributes of the call's descriptors; a descriptor of type 0 unmaps. */
    function Target(va: Word): Translation {
      if (if SectionCall? then l1 else l2) % 4 == 0 then Fault
      else Mapped(va, l1, if SectionCall? then 0 else l2)
    }
  }

  // ---- the writers --------------------------------------------------------------------------

  /** The `k`-th value of an entry that grows by `step` with 32-bit wrap-around. */
  function Nth(entry: Word, step: Word, k: nat): Word { (entry + k * step) % 0x1_0000_0000 }

  lemma NthNext(entry: Word, step: Word, k: nat)
    ensures (Nth(entry, step, k) + step) % 0x1_0000_0000 == Nth(entry, step, k + 1)
    ensures Nth(entry, step, 0) == entry
  {
    assert (k + 1) * step == k * step + step;
  }

  function FilledAt(m: Words, start: nat, n: nat, copies: nat, entry: Word, step: Word, i: nat): Word
    requires start + n <= |m| && copies > 0 && i < |m|
  {
    if start <= i < start + n then Nth(entry, step, (i - start) / copies) else m[i]
  }

  /** `n` stores from `start` on, each value stored `copies` times, growing by `step` modulo 2^32. */
  function Filled(m: Words, start: nat, n: nat, copies: nat, entry: Word, step: Word): (r: Words)
    requires start + n <= |m| && copies > 0
    ensures |r| == |m|
  {
    seq(|m|, i requires 0 <= i < |m| => FilledAt(m, start, n, copies, entry, step, i))
  }

  lemma FilledIs(r: Words, m: Words, start: nat, n: nat, copies: nat, entry: Word, step: Word)
    requires |r| == |m| && start + n <= |m| && copies > 0
    requires forall k :: 0 <= k < |m| ==>
      r[k] == if start <= k < start + n then Nth(entry, step, (k - start) / copies) else m[k]
    ensures r == Filled(m, start, n, copies, entry, step)
  {
    hide Nth;
  }

  /** A base address joined with the attribute bits of a descriptor, for each kind of entry. */
  function SectionEntry(base: Word, l1: Word): Word
    requires l1 < 0x10_0000
  {
    base / 0x10_0000 * 0x10_0000 + l1
  }

  function LinkEntry(table: Word, l1: Word): Word
    requires l1 < 0x400
  {
    table / 0x400 * 0x400 + l1
  }

  function SmallEntry(base: Word, l2: Word): Word
    requires l2 < 0x1000
  {
    base / 0x1000 * 0x1000 + l2
  }

  function LargeEntry(base: Word, l2: Word): Word
    requires l2 < 0x1_0000
  {
    base / 0x1_0000 * 0x1_0000 + l2
  }

  lemma EntryJoins(a: Word, low: nat)
    ensures low < 0x10_0000 ==> Or(And(a, 0xFFF0_0000), low) == SectionEntry(a, low)
    ensures low < 0x1_0000 ==> Or(And(a, 0xFFFF_0000), low) == LargeEntry(a, low)
    ensures low < 0x1000 ==> Or(And(a, 0xFFFF_F000), low) == SmallEntry(a, low)
    ensures low < 0x400 ==> Or(And(a, 0xFFFF_FC00), low) == LinkEntry(a, low)
  {
    Pow2Values();
    if low < 0x10_0000 { MaskJoins(a, low, 20, 0x10_0000, 0xFFF0_0000); }
    if low < 0x1_0000 { MaskJoins(a, low, 16, 0x1_0000, 0xFFFF_0000); }
    if low < 0x1000 { MaskJoins(a, low, 12, 0x1000, 0xFFFF_F000); }
    if low < 0x400 { MaskJoins(a, low, 10, 0x400, 0xFFFF_FC00); }
  }

  method TTSection(memory: array<Word>, ttb: nat, base: Word, count: nat, l1: Word)
    requires ttb + 4096 <= memory.Length && SectionIndex(base) + count <= 4096 && l1 < 0x10_0000
    modifies memory
    ensures memory[..] == Filled(old(memory[..]), ttb + SectionIndex(base), count, 1,
                                 SectionEntry(base, l1), 0x10_0000)
  {
    hide And, Or, Nth, Filled, SectionEntry;
    EntryJoins(base, l1);
    var offset := base / 0x10_0000;
    var entry := Or(And(base, 0xFFF0_0000), l1);
    ghost var first := entry;
    NthNext(first, 0x10_0000, 0);
    var p := ttb + offset;
    for i := 0 to count
      invariant p == ttb + offset + i
      invariant entry == Nth(first, 0x10_0000, i)
      invariant forall k :: 0 <= k < memory.Length ==>
        memory[k] == if ttb + offset <= k < ttb + offset + i then Nth(first, 0x10_0000, (k - ttb - offset) / 1) else old(memory[k])
    {
      memory[p] := entry;
      p := p + 1;
      entry := (entry + 0x10_0000) % 0x1_0000_0000;
      NthNext(first, 0x10_0000, i);
    }
    FilledIs(memory[..], old(memory[..]), ttb + offset, count, 1, first, 0x10_0000);
  }

  method TTPage4k(memory: array<Word>, ttb: nat, base: Word, count: nat, l1: Word, table: Word, l2: Word)
    requires ttb + 4096 <= memory.Length && table % 4 == 0 && table / 4 + 256 <= memory.Length
    requires PageIndex(base) + count <= 256 && l1 < 1024 && l2 < 0x1000
    modifies memory
    ensures memory[..] == Filled(
      old(memory[..])[ttb + SectionIndex(base) := LinkEntry(table, l1)],
      table / 4 + PageIndex(base), count, 1, SmallEntry(base, l2), 0x1000)
  {
    hide And, Or, Nth, Filled, SectionIndex, PageIndex, SmallEntry, LargeEntry, LinkEntry;
    EntryJoins(table, l1);
    EntryJoins(base, l2);
    PageField(base);
    var offset := base / 0x10_0000;
    var entry := Or(And(table, 0xFFFF_FC00), l1);
    memory[ttb + offset] := entry;
    var offset2 := And(base, 0xFF000) / 0x1000;
    var entry2 := Or(And(base, 0xFFFF_F000), l2);
    var p := table / 4 + offset2;
    ghost var first, start, before := entry2, p, memory[..];
    NthNext(first, 0x1000, 0);
    for i := 0 to count
      invariant p == start + i
      invariant entry2 == Nth(first, 0x1000, i)
      invariant forall k :: 0 <= k < memory.Length ==>
        memory[k] == if start <= k < start + i then Nth(first, 0x1000, (k - start) / 1) else before[k]
    {
      memory[p] := entry2;
      p := p + 1;
      entry2 := (entry2 + 0x1000) % 0x1_0000_0000;
      NthNext(first, 0x1000, i);
    }
    FilledIs(memory[..], before, start, count, 1, first, 0x1000);
  }

  method TTPage64k(memory: array<Word>, ttb: nat, base: Word, count: nat, l1: Word, table: Word, l2: Word)
    requires ttb + 4096 <= memory.Length && table % 4 == 0 && table / 4 + 256 <= memory.Length
    requires PageIndex(base) + 16 * count <= 256 && l1 < 1024 && l2 < 0x1_0000
    modifies memory
    ensures memory[..] == Filled(
      old(memory[..])[ttb + SectionIndex(base) := LinkEntry(table, l1)],
      table / 4 + PageIndex(base), 16 * count, 16, LargeEntry(base, l2), 0x1_0000)
  {
    hide And, Or, Nth, Filled, SectionIndex, PageIndex, SmallEntry, LargeEntry, LinkEntry;
    EntryJoins(table, l1);
    EntryJoins(base, l2);
    PageField(base);
    var offset := base / 0x10_0000;
    var entry := Or(And(table, 0xFFFF_FC00), l1);
    memory[ttb + offset] := entry;
    var offset2 := And(base, 0xFF000) / 0x1000;
    var entry2 := Or(And(base, 0xFFFF_0000), l2);
    var p := table / 4 + offset2;
    ghost var first, start, before := entry2, p, memory[..];
    NthNext(first, 0x1_0000, 0);
    for i := 0 to count
      invariant p == start + 16 * i
      invariant entry2 == Nth(first, 0x1_0000, i)
      invariant forall k :: 0 <= k < memory.Length ==>
        memory[k] == if start <= k < start + 16 * i then Nth(first, 0x1_0000, (k - start) / 16) else before[k]
    {
      ghost var outer := memory[..];
      for j := 0 to 16
        invariant p == start + 16 * i + j
        invariant forall k :: 0 <= k < memory.Length ==>
          memory[k] == if start + 16 * i <= k < start + 16 * i + j then entry2 else outer[k]
      {
        memory[p] := entry2;
        p := p + 1;
      }
      entry2 := (entry2 + 0x1_0000) % 0x1_0000_0000;
      NthNext(first, 0x1_0000, i);
    }
    FilledIs(memory[..], before, start, 16 * count, 16, first, 0x1_0000);
  }

  /** The first-level word drops the low bits of the table's address, so the walk looks where the
      pages were stored exactly when the table is 1 KB aligned. */
  lemma AlignedTable(table: Word)
    requires table % 4 == 0
    ensures TableAt(table) == table / 4 <==> table % 1024 == 0
  {
    var k, r := table / 1024, table % 1024;
    DivModUnique(table, 4, 256 * k + r / 4, 0);
  }

  lemma TableAligned(table: Word)
    requires table % 1024 == 0
    ensures table % 4 == 0 && TableAt(table) == table / 4
  {
    DivModUnique(table, 4, 256 * (table / 1024), 0);
    AlignedTable(table);
  }

  /** `(base & 0xff000) >> 12` is the second-level index. */
  lemma PageField(base: Word)
    ensures And(base, 0xFF000) / 0x1000 == PageIndex(base) && base / 0x10_0000 == SectionIndex(base)
  {
    hide And, Shl;
    Pow2Values();
    ShlIsProduct(0xFF, 12);
    AndField(base, 12, 8);
  }

  // ---- planned memory maps ------------------------------------------------------------------

  /** What a megabyte is used for over a whole run: sections, or pages through one fixed
      first-level word, each 64 KB block holding either 4 KB pages or one 64 KB page. */
  datatype Use = Sections | Pages(l1: Word, large: seq<bool>)

  /** Second-level tables lie in memory, apart from the first-level table and from each other. */
  ghost predicate PlanFits(plan: seq<Use>, ttb: nat, size: nat) {
    && |plan| == 4096 && ttb + 4096 <= size && ttb % 4096 == 0
    && (forall s :: 0 <= s < 4096 && plan[s].Pages? ==>
          && plan[s].l1 % 4 == 1 && |plan[s].large| == 16 && TableAt(plan[s].l1) + 256 <= size
          && (TableAt(plan[s].l1) + 256 <= ttb || ttb + 4096 <= TableAt(plan[s].l1)))
    && (forall s, t :: 0 <= s < t < 4096 && plan[s].Pages? && plan[t].Pages? ==>
          TableAt(plan[s].l1) != TableAt(plan[t].l1))
  }

  /** The call stays in its table and its descriptors have the type and width of its size. */
  predicate CallSized(c: Call) {
    match c
    case SectionCall(base, count, l1) =>
      && SectionIndex(base) + count <= 4096 && l1 < 0x10_0000
      && (l1 % 4 == 0 || (l1 % 4 == 2 && l1 / 0x4_0000 % 2 == 0))
    case Page4kCall(base, count, l1, table, l2) =>
      && table % 1024 == 0 && l1 < 1024
      && PageIndex(base) + count <= 256 && l2 < 0x1000 && (l2 % 4 == 0 || l2 / 2 % 2 == 1)
    case Page64kCall(base, count, l1, table, l2) =>
      && table % 1024 == 0 && l1 < 1024
      && PageIndex(base) % 16 == 0 && PageIndex(base) + 16 * count <= 256
      && l2 < 0x1_0000 && l2 % 4 <= 1
  }

  /** A page call links the word that the plan has for its megabyte. */
  predicate CallLinks(c: Call, plan: seq<Use>)
    requires |plan| == 4096 && CallSized(c)
  {
    c.SectionCall? ||
      var use := plan[SectionIndex(c.base)]; use.Pages? && use.l1 == LinkEntry(c.table, c.l1)
  }

  /** The call maps what the plan has for it: megabytes of sections, or blocks of its page size. */
  ghost predicate CallStays(c: Call, plan: seq<Use>)
    requires |plan| == 4096 && CallSized(c) && CallLinks(c, plan)
    requires forall s :: 0 <= s < 4096 && plan[s].Pages? ==> |plan[s].large| == 16
  {
    if c.SectionCall? then
      forall s :: SectionIndex(c.base) <= s < SectionIndex(c.base) + c.count ==> plan[s].Sections?
    else
      forall j :: PageIndex(c.base) <= j < PageIndex(c.base) + c.Stores() ==>
        (plan[SectionIndex(c.base)].large[j / 16] <==> c.Page64kCall?)
  }

  ghost predicate CallFits(c: Call, plan: seq<Use>)
    requires |plan| == 4096
    requires forall s :: 0 <= s < 4096 && plan[s].Pages? ==> |plan[s].large| == 16
  {
    CallSized(c) && CallLinks(c, plan) && CallStays(c, plan)
  }

  ghost predicate TableFollows(m: Words, table: nat, large: seq<bool>)
    requires table + 256 <= |m| && |large| == 16
  {
    forall i :: table <= i < table + 256 && m[i] % 4 == 1 ==> large[(i - table) / 16] && Replicated(m, table, i - table)
  }

  ghost predicate TableFaults(m: Words, table: nat)
    requires table + 256 <= |m|
  {
    forall i :: table <= i < table + 256 ==> m[i] % 4 == 0
  }

  /** One megabyte: its first-level word is unset or is what the plan says, and a table that is
      not yet linked holds only faults. */
  ghost predicate SlotFollows(m: Words, at: nat, use: Use)
    requires at < |m|
    requires use.Pages? ==> |use.large| == 16 && TableAt(use.l1) + 256 <= |m|
  {
    match use
    case Sections => m[at] % 4 == 0 || (m[at] % 4 == 2 && m[at] / 0x4_0000 % 2 == 0)
    case Pages(l1, large) =>
      && (m[at] == l1 || (m[at] % 4 == 0 && TableFaults(m, TableAt(l1))))
      && TableFollows(m, TableAt(l1), large)
  }

  /** Memory reached by planned calls. */
  ghost predicate Follows(m: Words, ttb: nat, plan: seq<Use>)
    requires PlanFits(plan, ttb, |m|)
  {
    forall s :: 0 <= s < 4096 ==> SlotFollows(m, ttb + s, plan[s])
  }

  /** The second-level stores of a page call. */
  function PageStores(m: Words, table: nat, c: Call): (r: Words)
    requires table + 256 <= |m| && !c.SectionCall? && PageIndex(c.base) + c.Stores() <= 256
    requires c.l2 < if c.Page4kCall? then 0x1000 else 0x1_0000
    ensures |r| == |m|
  {
    if c.Page4kCall? then
      Filled(m, table + PageIndex(c.base), c.count, 1, SmallEntry(c.base, c.l2), 0x1000)
    else
      Filled(m, table + PageIndex(c.base), 16 * c.count, 16, LargeEntry(c.base, c.l2), 0x1_0000)
  }

  /** The stores of a call lie in memory and its descriptors leave the address fields free. */
  predicate Writable(c: Call, ttb: nat, size: nat) {
    && ttb + 4096 <= size
    && (c.SectionCall? ==> SectionIndex(c.base) + c.count <= 4096 && c.l1 < 0x10_0000)
    && (!c.SectionCall? ==> c.table % 1024 == 0 && c.table / 4 + 256 <= size && PageIndex(c.base) + c.Stores() <= 256)
    && (!c.SectionCall? ==> c.l1 < 1024 && c.l2 < if c.Page4kCall? then 0x1000 else 0x1_0000)
  }

  /** Memory after a call: what the writers' contracts say, as one function of the call. */
  function Apply(m: Words, ttb: nat, c: Call): (r: Words)
    requires Writable(c, ttb, |m|)
    ensures |r| == |m|
  {
    if c.SectionCall? then
      Filled(m, ttb + SectionIndex(c.base), c.count, 1, SectionEntry(c.base, c.l1), 0x10_0000)
    else
      PageStores(m[ttb + SectionIndex(c.base) := LinkEntry(c.table, c.l1)], c.table / 4, c)
  }

  lemma PlanBounds(plan: seq<Use>, ttb: nat, size: nat, s: nat)
    requires PlanFits(plan, ttb, size)
    ensures ttb + 4096 <= size && |plan| == 4096
    ensures s < 4096 && plan[s].Pages? ==>
      && TableAt(plan[s].l1) + 256 <= size
      && (TableAt(plan[s].l1) + 256 <= ttb || ttb + 4096 <= TableAt(plan[s].l1))
  {
    hide TableAt;
  }

  lemma PlanPair(plan: seq<Use>, ttb: nat, size: nat, s: nat, t: nat)
    requires PlanFits(plan, ttb, size) && s < 4096 && t < 4096 && t != s && plan[s].Pages? && plan[t].Pages?
    ensures TableAt(plan[s].l1) != TableAt(plan[t].l1)
  {
    hide TableAt;
    assert s < t || t < s;
  }

  lemma PageWritable(c: Call, link: Word, ttb: nat, size: nat)
    requires !c.SectionCall? && CallSized(c) && link == LinkEntry(c.table, c.l1)
    requires ttb + 4096 <= size && TableAt(link) + 256 <= size
    ensures Writable(c, ttb, size)
  {
    hide PageIndex, SectionIndex, TableAt, LinkEntry;
    LinkFits(c.table, c.l1, size);
  }

  lemma LinkFits(table: Word, l1: Word, size: nat)
    requires l1 < 1024 && table % 1024 == 0 && TableAt(LinkEntry(table, l1)) + 256 <= size
    ensures table / 4 + 256 <= size
  {
    hide TableAt, LinkEntry;
    TableAligned(table);
    LinkWord(table, l1);
  }

  lemma FitsApply(c: Call, plan: seq<Use>, ttb: nat, size: nat)
    requires PlanFits(plan, ttb, size) && CallFits(c, plan)
    ensures Writable(c, ttb, size)
  {
    hide PlanFits, CallStays, SectionIndex, PageIndex, TableAt, LinkEntry;
    PlanBounds(plan, ttb, size, SectionIndex(c.base));
    if !c.SectionCall? {
      hide Writable;
      PageWritable(c, plan[SectionIndex(c.base)].l1, ttb, size);
    }
  }

  // ---- one call: identity on its region, nothing else moves ---------------------------------

  /** A walk depends on its first-level word, its second-level word and, for a 64 KB entry, the
      sixteen words around it. */
  lemma SameWalk(m: Words, m': Words, ttb: nat, va: Word)
    requires |m| == |m'| && ttb + 4096 <= |m| && ttb % 4096 == 0
    requires m'[ttb + SectionIndex(va)] == m[ttb + SectionIndex(va)]
    requires var l1 := m[ttb + SectionIndex(va)];
      l1 % 4 == 1 && TableAt(l1) + 256 <= |m| ==>
        var t, j := TableAt(l1), PageIndex(va);
        && m'[t + j] == m[t + j]
        && (m[t + j] % 4 == 1 ==> forall i :: t + Block(j) <= i < t + Block(j) + 16 ==> m'[i] == m[i])
    ensures Walk(m', ttb, va) == Walk(m, ttb, va)
  {
    hide SectionIndex, PageIndex, TableAt;
  }

  lemma SameTable(m: Words, m': Words, table: nat, large: seq<bool>)
    requires |m| == |m'| && table + 256 <= |m| && |large| == 16
    requires forall i :: table <= i < table + 256 ==> m'[i] == m[i]
    requires TableFollows(m, table, large)
    ensures TableFollows(m', table, large)
  {
    forall i | table <= i < table + 256 && m'[i] % 4 == 1
      ensures large[(i - table) / 16] && Replicated(m', table, i - table)
    {
      assert m[i] % 4 == 1;
      assert Replicated(m, table, i - table);
    }
  }

  /** A megabyte keeps to the plan when its first-level word and its table keep their values. */
  lemma SameSlot(m: Words, m': Words, at: nat, use: Use)
    requires |m| == |m'| && at < |m| && m'[at] == m[at]
    requires use.Pages? ==> |use.large| == 16 && TableAt(use.l1) + 256 <= |m|
    requires use.Pages? ==> forall i :: TableAt(use.l1) <= i < TableAt(use.l1) + 256 ==> m'[i] == m[i]
    requires SlotFollows(m, at, use)
    ensures SlotFollows(m', at, use)
  {
    hide TableFollows, TableAt;
    if use.Pages? {
      SameTable(m, m', TableAt(use.l1), use.large);
    }
  }

  /** Linking a table that the plan names keeps the plan ... */
  lemma LinkFollows(m: Words, ttb: nat, plan: seq<Use>, s: nat)
    requires PlanFits(plan, ttb, |m|) && Follows(m, ttb, plan)
    requires s < 4096 && plan[s].Pages?
    ensures Follows(m[ttb + s := plan[s].l1], ttb, plan)
  {
    var m' := m[ttb + s := plan[s].l1];
    forall t | 0 <= t < 4096
      ensures SlotFollows(m', ttb + t, plan[t])
    {
      assert SlotFollows(m, ttb + t, plan[t]);
      if t != s {
        SameSlot(m, m', ttb + t, plan[t]);
      }
    }
  }

  /** ... and changes no translation. */
  lemma LinkWalk(m: Words, ttb: nat, plan: seq<Use>, s: nat, va: Word)
    requires PlanFits(plan, ttb, |m|) && Follows(m, ttb, plan)
    requires s < 4096 && plan[s].Pages?
    ensures Walk(m[ttb + s := plan[s].l1], ttb, va) == Walk(m, ttb, va)
  {
    hide TableFollows, SectionIndex, PageIndex, TableAt, TableFaults, Walk;
    var m' := m[ttb + s := plan[s].l1];
    var t := SectionIndex(va);
    assert SlotFollows(m, ttb + s, plan[s]);
    PlanBounds(plan, ttb, |m|, s);
    if t == s && m[ttb + s] != plan[s].l1 {
      FaultsThroughLink(m, m', ttb, plan[s].l1, va);
    } else if t == s {
      assert m' == m;
    } else {
      PlanBounds(plan, ttb, |m|, t);
      SameSlotWalk(m, m', ttb, plan, va);
    }
  }

  /** A link to a table of faults faults, as its absence did. */
  lemma FaultsThroughLink(m: Words, m': Words, ttb: nat, l1: Word, va: Word)
    requires ttb + 4096 <= |m| == |m'| && ttb % 4096 == 0 && l1 % 4 == 1 && TableAt(l1) + 256 <= |m|
    requires m[ttb + SectionIndex(va)] % 4 == 0 && m'[ttb + SectionIndex(va)] == l1
    requires TableAt(l1) + 256 <= ttb || ttb + 4096 <= TableAt(l1)
    requires TableFaults(m, TableAt(l1)) && forall i :: TableAt(l1) <= i < TableAt(l1) + 256 ==> m'[i] == m[i]
    ensures Walk(m', ttb, va) == Fault == Walk(m, ttb, va)
  {
    hide TableAt, SectionIndex, PageIndex, Replicated;
    assert m'[TableAt(l1) + PageIndex(va)] % 4 == 0;
  }

  lemma NthSection(base: Word, k: nat, l1: Word)
    requires SectionIndex(base) + k < 4096 && l1 < 0x10_0000
    ensures Nth(SectionEntry(base, l1), 0x10_0000, k) == (SectionIndex(base) + k) * 0x10_0000 + l1
  {
  }

  /** The fields of a first-level section word. */
  lemma SectionWord(s: nat, l1: Word)
    requires s < 4096 && l1 < 0x10_0000
    ensures var w := s * 0x10_0000 + l1;
      && w < 0x1_0000_0000 && w % 4 == l1 % 4 && w / 0x4_0000 % 2 == l1 / 0x4_0000 % 2
      && w / 0x10_0000 == s && w % 0x10_0000 == l1
  {
    var w, h := s * 0x10_0000 + l1, l1 / 0x4_0000;
    DivModUnique(w, 4, s * 0x4_0000 + l1 / 4, l1 % 4);
    DivModUnique(w, 0x4_0000, s * 4 + h, l1 % 0x4_0000);
    DivModUnique(s * 4 + h, 2, s * 2 + h / 2, h % 2);
    DivModUnique(w, 0x10_0000, s, l1);
  }

  lemma SectionFollows(m: Words, ttb: nat, plan: seq<Use>, c: Call)
    requires PlanFits(plan, ttb, |m|) && Follows(m, ttb, plan) && c.SectionCall? && CallFits(c, plan)
    requires Writable(c, ttb, |m|)
    ensures Follows(Apply(m, ttb, c), ttb, plan)
  {
    hide TableFollows, TableAt, SectionIndex, Nth;
    var m' := Apply(m, ttb, c);
    forall s | 0 <= s < 4096
      ensures SlotFollows(m', ttb + s, plan[s])
    {
      assert SlotFollows(m, ttb + s, plan[s]);
      if SectionIndex(c.base) <= s < SectionIndex(c.base) + c.count {
        NthSection(c.base, s - SectionIndex(c.base), c.l1);
        SectionWord(s, c.l1);
        assert m'[ttb + s] == s * 0x10_0000 + c.l1;
      } else {
        SameSlot(m, m', ttb + s, plan[s]);
      }
    }
  }

  /** A planned megabyte translates as before when its first-level word and its table keep
      their values. */
  lemma SameSlotWalk(m: Words, m': Words, ttb: nat, plan: seq<Use>, va: Word)
    requires PlanFits(plan, ttb, |m|) && Follows(m, ttb, plan) && |m'| == |m|
    requires m'[ttb + SectionIndex(va)] == m[ttb + SectionIndex(va)]
    requires var use := plan[SectionIndex(va)];
      use.Pages? ==> forall i :: TableAt(use.l1) <= i < TableAt(use.l1) + 256 ==> m'[i] == m[i]
    ensures Walk(m', ttb, va) == Walk(m, ttb, va)
  {
    hide TableFollows, TableAt, SectionIndex, PageIndex, Block, Replicated, Walk;
    var s := SectionIndex(va);
    assert SlotFollows(m, ttb + s, plan[s]);
    SameWalk(m, m', ttb, va);
  }

  lemma SectionMiss(m: Words, ttb: nat, plan: seq<Use>, c: Call, va: Word)
    requires PlanFits(plan, ttb, |m|) && Follows(m, ttb, plan) && c.SectionCall? && CallFits(c, plan)
    requires Writable(c, ttb, |m|)
    requires !c.Covers(va)
    ensures Walk(Apply(m, ttb, c), ttb, va) == Walk(m, ttb, va)
  {
    hide Follows, TableAt, SectionIndex, PageIndex, Walk, Nth;
    SameSlotWalk(m, Apply(m, ttb, c), ttb, plan, va);
  }

  lemma AddressSplits(va: Word)
    ensures va == SectionIndex(va) * 0x10_0000 + va % 0x10_0000
  {
  }

  lemma SectionHit(m: Words, ttb: nat, plan: seq<Use>, c: Call, va: Word)
    requires PlanFits(plan, ttb, |m|) && c.SectionCall? && CallFits(c, plan) && c.Covers(va)
    requires Writable(c, ttb, |m|)
    ensures Walk(Apply(m, ttb, c), ttb, va) == c.Target(va)
  {
    hide Nth, WalkPage, TableAt, SectionIndex;
    var s := SectionIndex(va);
    NthSection(c.base, s - SectionIndex(c.base), c.l1);
    SectionWord(s, c.l1);
    assert Apply(m, ttb, c)[ttb + s] == s * 0x10_0000 + c.l1;
    AddressSplits(va);
  }

  lemma LinkWord(table: Word, l1: Word)
    requires l1 < 1024
    ensures var e := LinkEntry(table, l1);
      e < 0x1_0000_0000 && TableAt(e) == TableAt(table) && e % 1024 == l1 && e % 4 == l1 % 4
  {
    var e, h := LinkEntry(table, l1), table / 1024;
    DivModUnique(e, 1024, h, l1);
    DivModUnique(e, 4, h * 256 + l1 / 4, l1 % 4);
  }

  lemma NthBelow(entry: Word, step: Word, k: nat)
    requires entry + k * step < 0x1_0000_0000
    ensures Nth(entry, step, k) == entry + k * step
  {
  }

  /** The type bits of an entry, above its attribute bits. */
  lemma TypeBits(w: int, h: int, l: int)
    requires l >= 0 && w == 4 * h + l
    ensures w % 4 == l % 4 && w / 2 % 2 == l / 2 % 2
  {
    var a, b := h + l / 4, l % 4;
    DivModUnique(w, 4, a, b);
    DivModUnique(w, 2, 2 * a + b / 2, b % 2);
    DivModUnique(2 * a + b / 2, 2, a, b / 2);
    DivModUnique(l, 2, 2 * (l / 4) + b / 2, b % 2);
    DivModUnique(2 * (l / 4) + b / 2, 2, l / 4, b / 2);
  }

  /** The fields of a second-level word for a 4 KB page. */
  lemma SmallWord(base: Word, k: nat, l2: Word)
    requires PageIndex(base) + k < 256 && l2 < 0x1000
    ensures var w := Nth(SmallEntry(base, l2), 0x1000, k);
      && w / 0x1000 == base / 0x1000 + k && w % 0x1000 == l2
      && w % 4 == l2 % 4 && w / 2 % 2 == l2 / 2 % 2
  {
    hide Nth;
    var h := base / 0x1000 + k;
    assert h < 0x10_0000;
    hide PageIndex;
    var w := h * 0x1000 + l2;
    NthBelow(SmallEntry(base, l2), 0x1000, k);
    DivModUnique(w, 0x1000, h, l2);
    TypeBits(w, h * 0x400, l2);
  }

  /** The fields of a second-level word for a 64 KB page. */
  lemma LargeWord(base: Word, k: nat, l2: Word)
    requires PageIndex(base) % 16 == 0 && PageIndex(base) + 16 * k < 256 && l2 < 0x1_0000
    ensures var w := Nth(LargeEntry(base, l2), 0x1_0000, k);
      && w / 0x1_0000 == base / 0x1_0000 + k && w % 0x1_0000 == l2
      && w % 4 == l2 % 4 && w / 2 % 2 == l2 / 2 % 2
  {
    hide Nth, PageIndex;
    BlockAligned(base);
    var h := base / 0x1_0000 + k;
    BlockBelow(base / 0x1_0000, k);
    var w := h * 0x1_0000 + l2;
    NthBelow(LargeEntry(base, l2), 0x1_0000, k);
    DivModUnique(w, 0x1_0000, h, l2);
    TypeBits(w, h * 0x4000, l2);
  }

  lemma BlockBelow(b: nat, k: nat)
    requires b < 0x1_0000 && b % 16 + k < 16
    ensures b + k < 0x1_0000
  {
  }

  /** Entries of one block share their block number. */
  lemma SameBlock(j: nat, i: nat)
    requires Block(j) <= i < Block(j) + 16
    ensures i / 16 == j / 16 && Block(i) == Block(j)
  {
  }

  lemma SmallTable(m: Words, table: nat, large: seq<bool>, base: Word, count: nat, l2: Word)
    requires table + 256 <= |m| && |large| == 16 && TableFollows(m, table, large)
    requires PageIndex(base) + count <= 256 && l2 < 0x1000 && l2 % 4 != 1
    requires forall j :: PageIndex(base) <= j < PageIndex(base) + count ==> !large[j / 16]
    ensures TableFollows(Filled(m, table + PageIndex(base), count, 1, SmallEntry(base, l2), 0x1000), table, large)
  {
    hide PageIndex, Nth, Block;
    var j0 := PageIndex(base);
    var m' := Filled(m, table + j0, count, 1, SmallEntry(base, l2), 0x1000);
    forall i | table <= i < table + 256 && m'[i] % 4 == 1
      ensures large[(i - table) / 16] && Replicated(m', table, i - table)
    {
      var j := i - table;
      if j0 <= j < j0 + count {
        SmallWord(base, j - j0, l2);
        assert false;
      }
      assert m[i] % 4 == 1;
      forall k | table + Block(j) <= k < table + Block(j) + 16
        ensures m'[k] == m'[i]
      {
        SameBlock(j, k - table);
      }
    }
  }

  /** A run of 64 KB entries fills whole blocks with one value each, or leaves them alone. */
  lemma FilledBlock(m: Words, table: nat, j0: nat, count: nat, entry: Word, step: Word, j: nat, i: nat)
    requires table + 256 <= |m| && j0 % 16 == 0 && j0 + 16 * count <= 256 && j < 256 && i < 256 && i / 16 == j / 16
    ensures var f := Filled(m, table + j0, 16 * count, 16, entry, step);
      if j0 <= j < j0 + 16 * count then f[table + i] == f[table + j]
      else f[table + i] == m[table + i] && f[table + j] == m[table + j]
  {
    hide Nth;
    SameRun(j0 / 16, count, j, i);
    assert 16 * (j0 / 16) == j0;
  }

  lemma LargeTable(m: Words, table: nat, large: seq<bool>, base: Word, count: nat, l2: Word)
    requires table + 256 <= |m| && |large| == 16 && TableFollows(m, table, large)
    requires PageIndex(base) % 16 == 0 && PageIndex(base) + 16 * count <= 256 && l2 < 0x1_0000
    requires forall j :: PageIndex(base) <= j < PageIndex(base) + 16 * count ==> large[j / 16]
    ensures TableFollows(
      Filled(m, table + PageIndex(base), 16 * count, 16, LargeEntry(base, l2), 0x1_0000), table, large)
  {
    hide PageIndex, Nth, Block, Filled, LargeEntry;
    var j0 := PageIndex(base);
    BlockAligned(base);
    var m' := Filled(m, table + j0, 16 * count, 16, LargeEntry(base, l2), 0x1_0000);
    forall i | table <= i < table + 256 && m'[i] % 4 == 1
      ensures large[(i - table) / 16] && Replicated(m', table, i - table)
    {
      var j := i - table;
      FilledBlock(m, table, j0, count, LargeEntry(base, l2), 0x1_0000, j, j);
      if !(j0 <= j < j0 + 16 * count) {
        assert m[i] % 4 == 1;
      }
      forall k | table + Block(j) <= k < table + Block(j) + 16
        ensures m'[k] == m'[i]
      {
        SameBlock(j, k - table);
        FilledBlock(m, table, j0, count, LargeEntry(base, l2), 0x1_0000, j, k - table);
      }
    }
  }

  /** A run of whole blocks holds all of a block or none of it, at the same distance in blocks. */
  lemma SameRun(b0: nat, count: nat, j: nat, i: nat)
    requires i / 16 == j / 16
    ensures 16 * b0 <= j < 16 * b0 + 16 * count <==> 16 * b0 <= i < 16 * b0 + 16 * count
    ensures 16 * b0 <= j ==> (i - 16 * b0) / 16 == (j - 16 * b0) / 16
  {
    if 16 * b0 <= j {
      DivModUnique(i - 16 * b0, 16, i / 16 - b0, i % 16);
      DivModUnique(j - 16 * b0, 16, j / 16 - b0, j % 16);
    }
  }

  /** A base whose page begins a block; its low twelve bits do no harm. */
  lemma BlockAligned(base: Word)
    requires PageIndex(base) % 16 == 0
    ensures base / 0x1000 == base / 0x1_0000 * 16
    ensures PageIndex(base) == base / 0x1_0000 % 16 * 16
  {
    var p := base / 0x1000;
    var h, q := p / 16, p % 16;
    DivModUnique(base, 0x1_0000, h, q * 0x1000 + base % 0x1000);
    DivModUnique(p, 256, h / 16, h % 16 * 16 + q);
    DivModUnique(h % 16 * 16 + q, 16, h % 16, q);
  }

  // ---- page calls ---------------------------------------------------------------------------

  /** The first-level store of a page call, and the second-level stores that follow it. */
  lemma PageCallSplits(m: Words, ttb: nat, plan: seq<Use>, c: Call) returns (linked: Words)
    requires PlanFits(plan, ttb, |m|) && Follows(m, ttb, plan) && !c.SectionCall? && CallFits(c, plan)
    requires Writable(c, ttb, |m|)
    ensures TableAt(c.table) == c.table / 4
    ensures |linked| == |m| && Follows(linked, ttb, plan)
    ensures linked[ttb + SectionIndex(c.base)] == plan[SectionIndex(c.base)].l1
    ensures forall va :: Walk(linked, ttb, va) == Walk(m, ttb, va)
    ensures TableAt(plan[SectionIndex(c.base)].l1) == TableAt(c.table)
    ensures plan[SectionIndex(c.base)].l1 % 1024 == c.l1
    ensures Apply(m, ttb, c) == PageStores(linked, TableAt(c.table), c)
  {
    hide TableAt, SectionIndex, PageIndex, Follows, Walk, PageStores, PlanFits, LinkEntry;
    TableAligned(c.table);
    LinkWord(c.table, c.l1);
    var s := SectionIndex(c.base);
    PlanBounds(plan, ttb, |m|, s);
    linked := m[ttb + s := plan[s].l1];
    LinkFollows(m, ttb, plan, s);
    forall va: Word
      ensures Walk(linked, ttb, va) == Walk(m, ttb, va)
    {
      LinkWalk(m, ttb, plan, s, va);
    }
  }

  lemma LinkedSlot(m: Words, at: nat, use: Use)
    requires use.Pages? && at < |m| && |use.large| == 16 && TableAt(use.l1) + 256 <= |m|
    requires m[at] == use.l1 && TableFollows(m, TableAt(use.l1), use.large)
    ensures SlotFollows(m, at, use)
  {
  }

  /** Stores inside one table leave the first level and every other table alone. */
  lemma ApartFrom(m: Words, m': Words, ttb: nat, plan: seq<Use>, s: nat, t: nat)
    requires PlanFits(plan, ttb, |m|) && |m'| == |m| && s < 4096 && t < 4096 && t != s && plan[s].Pages?
    requires forall i :: 0 <= i < |m| && !(TableAt(plan[s].l1) <= i < TableAt(plan[s].l1) + 256) ==> m'[i] == m[i]
    ensures m'[ttb + t] == m[ttb + t]
    ensures plan[t].Pages? ==> forall i :: TableAt(plan[t].l1) <= i < TableAt(plan[t].l1) + 256 ==> m'[i] == m[i]
  {
    hide TableAt, PlanFits;
    PlanBounds(plan, ttb, |m|, s);
    PlanBounds(plan, ttb, |m|, t);
    if plan[t].Pages? {
      PlanPair(plan, ttb, |m|, s, t);
    }
  }

  lemma LinkedTable(m: Words, ttb: nat, plan: seq<Use>, s: nat)
    requires PlanFits(plan, ttb, |m|) && Follows(m, ttb, plan) && s < 4096 && plan[s].Pages?
    ensures |plan[s].large| == 16 && TableAt(plan[s].l1) + 256 <= |m|
    ensures TableFollows(m, TableAt(plan[s].l1), plan[s].large)
  {
    hide TableAt, TableFollows;
    assert SlotFollows(m, ttb + s, plan[s]);
  }

  /** Stores inside one planned table keep the plan if they keep that table in order. */
  lemma TableStoresFollow(m: Words, m': Words, ttb: nat, plan: seq<Use>, s: nat)
    requires PlanFits(plan, ttb, |m|) && Follows(m, ttb, plan) && |m'| == |m|
    requires s < 4096 && plan[s].Pages? && m[ttb + s] == plan[s].l1
    requires forall i :: 0 <= i < |m| && !(TableAt(plan[s].l1) <= i < TableAt(plan[s].l1) + 256) ==> m'[i] == m[i]
    requires TableFollows(m', TableAt(plan[s].l1), plan[s].large)
    ensures Follows(m', ttb, plan)
  {
    hide TableFollows, TableAt, SlotFollows;
    forall t | 0 <= t < 4096
      ensures SlotFollows(m', ttb + t, plan[t])
    {
      if t != s {
        assert SlotFollows(m, ttb + t, plan[t]);
        ApartFrom(m, m', ttb, plan, s, t);
        SameSlot(m, m', ttb + t, plan[t]);
      } else {
        LinkedSlot(m', ttb + s, plan[s]);
      }
    }
  }

  /** ... and move no translation outside that megabyte. */
  lemma TableStoresMiss(m: Words, m': Words, ttb: nat, plan: seq<Use>, s: nat, va: Word)
    requires PlanFits(plan, ttb, |m|) && Follows(m, ttb, plan) && |m'| == |m|
    requires s < 4096 && plan[s].Pages? && SectionIndex(va) != s
    requires forall i :: 0 <= i < |m| && !(TableAt(plan[s].l1) <= i < TableAt(plan[s].l1) + 256) ==> m'[i] == m[i]
    ensures Walk(m', ttb, va) == Walk(m, ttb, va)
  {
    hide TableAt, SectionIndex, Walk, Follows;
    ApartFrom(m, m', ttb, plan, s, SectionIndex(va));
    SameSlotWalk(m, m', ttb, plan, va);
  }

  lemma PageSplits(va: Word)
    ensures va / 0x1000 == SectionIndex(va) * 256 + PageIndex(va)
  {
    DivModUnique(va / 0x1000, 256, va / 0x10_0000, va / 0x1000 % 256);
  }

  /** The walk through a page link, in terms of the entry it reaches. */
  lemma LinkedWalk(m: Words, ttb: nat, e: Word, table: nat, va: Word)
    requires ttb + 4096 <= |m| && ttb % 4096 == 0 && table + 256 <= |m|
    requires m[ttb + SectionIndex(va)] == e && e % 4 == 1 && TableAt(e) == table
    ensures Walk(m, ttb, va) == WalkPage(m, e, va)
  {
    hide TableAt, SectionIndex, WalkPage;
  }

  /** A 4 KB entry translates its page to itself. */
  lemma SmallHit(m: Words, ttb: nat, e: Word, table: nat, c: Call, va: Word)
    requires ttb + 4096 <= |m| && ttb % 4096 == 0 && table + 256 <= |m| && c.Page4kCall? && c.Covers(va)
    requires m[ttb + SectionIndex(va)] == e && e % 4 == 1 && e % 1024 == c.l1 && TableAt(e) == table
    requires c.l2 < 0x1000 && (c.l2 % 4 == 0 || c.l2 / 2 % 2 == 1) && PageIndex(c.base) + c.count <= 256
    requires m[table + PageIndex(va)] == Nth(SmallEntry(c.base, c.l2), 0x1000, PageIndex(va) - PageIndex(c.base))
    ensures Walk(m, ttb, va) == c.Target(va)
  {
    hide Nth, TableAt, SectionIndex, PageIndex, Walk, SmallEntry, Replicated;
    LinkedWalk(m, ttb, e, table, va);
    SmallWord(c.base, PageIndex(va) - PageIndex(c.base), c.l2);
    PageSplits(va);
    PageSplits(c.base);
    assert va == va / 0x1000 * 0x1000 + va % 0x1000;
  }

  lemma LowType(l: Word)
    requires l % 4 <= 1
    ensures l / 2 % 2 == 0
  {
  }

  /** A block of sixteen 64 KB entries translates its page to itself. */
  lemma LargeHit(m: Words, ttb: nat, e: Word, table: nat, c: Call, va: Word)
    requires ttb + 4096 <= |m| && ttb % 4096 == 0 && table + 256 <= |m| && c.Page64kCall? && c.Covers(va)
    requires m[ttb + SectionIndex(va)] == e && e % 4 == 1 && e % 1024 == c.l1 && TableAt(e) == table
    requires PageIndex(c.base) % 16 == 0 && c.l2 < 0x1_0000 && c.l2 % 4 <= 1 && PageIndex(c.base) + 16 * c.count <= 256
    requires m[table + PageIndex(va)] ==
      Nth(LargeEntry(c.base, c.l2), 0x1_0000, (PageIndex(va) - PageIndex(c.base)) / 16)
    requires m[table + PageIndex(va)] % 4 == 1 ==> Replicated(m, table, PageIndex(va))
    ensures Walk(m, ttb, va) == c.Target(va)
  {
    hide Nth, TableAt, SectionIndex, PageIndex, Replicated, Walk, LargeEntry;
    LinkedWalk(m, ttb, e, table, va);
    var k := (PageIndex(va) - PageIndex(c.base)) / 16;
    LargeWord(c.base, k, c.l2);
    BlockOf(c.base, va, k);
    LowType(c.l2);
    assert va == va / 0x1_0000 * 0x1_0000 + va % 0x1_0000;
  }

  lemma BlockOf(base: Word, va: Word, k: nat)
    requires PageIndex(base) % 16 == 0 && SectionIndex(va) == SectionIndex(base)
    requires PageIndex(va) >= PageIndex(base) && k == (PageIndex(va) - PageIndex(base)) / 16
    ensures va / 0x1_0000 == base / 0x1_0000 + k
  {
    hide SectionIndex, PageIndex;
    PageSplits(va);
    PageSplits(base);
    BlockAligned(base);
    var h := base / 0x1_0000;
    assert va / 0x1000 == h * 16 + (PageIndex(va) - PageIndex(base));
    DivModUnique(va, 0x1_0000, h + k, (va / 0x1000 - (h + k) * 16) * 0x1000 + va % 0x1000);
  }

  /** The stores of a page call leave an entry that it does not cover alone, and with a 64 KB entry the
      block around it: small calls keep out of such blocks and large calls fill whole ones. */
  lemma StoresMiss(m: Words, table: nat, c: Call, large: seq<bool>, j: nat)
    requires table + 256 <= |m| && |large| == 16 && TableFollows(m, table, large) && j < 256
    requires !c.SectionCall? && PageIndex(c.base) + c.Stores() <= 256
    requires c.l2 < if c.Page4kCall? then 0x1000 else 0x1_0000
    requires !(PageIndex(c.base) <= j < PageIndex(c.base) + c.Stores())
    requires c.Page4kCall? ==> forall i :: PageIndex(c.base) <= i < PageIndex(c.base) + c.count ==> !large[i / 16]
    requires c.Page64kCall? ==> PageIndex(c.base) % 16 == 0
    ensures var m' := PageStores(m, table, c);
      && m'[table + j] == m[table + j]
      && (m[table + j] % 4 == 1 ==> forall i :: table + Block(j) <= i < table + Block(j) + 16 ==> m'[i] == m[i])
  {
    hide PageIndex, Nth, Block, SmallEntry, LargeEntry;
    var m', j0 := PageStores(m, table, c), PageIndex(c.base);
    if m[table + j] % 4 == 1 {
      assert large[j / 16] by {
        assert table <= table + j < table + 256;
      }
      forall i | table + Block(j) <= i < table + Block(j) + 16
        ensures m'[i] == m[i]
      {
        SameBlock(j, i - table);
        if c.Page64kCall? {
          BlockAligned(c.base);
          FilledBlock(m, table, j0, c.count, LargeEntry(c.base, c.l2), 0x1_0000, j, i - table);
        }
      }
    }
  }

  /** Pages of the same megabyte that a call does not cover translate as before. */
  lemma PageMiss(m: Words, ttb: nat, plan: seq<Use>, c: Call, va: Word)
    requires PlanFits(plan, ttb, |m|) && Follows(m, ttb, plan) && !c.SectionCall? && CallFits(c, plan)
    requires Writable(c, ttb, |m|)
    requires SectionIndex(va) == SectionIndex(c.base) && !c.Covers(va)
    requires var e := plan[SectionIndex(va)].l1; m[ttb + SectionIndex(va)] == e && TableAt(e) == TableAt(c.table)
    ensures Walk(PageStores(m, TableAt(c.table), c), ttb, va) == Walk(m, ttb, va)
  {
    hide TableAt, SectionIndex, PageIndex, Walk, TableFollows, PageStores, Block;
    var s, t := SectionIndex(va), TableAt(c.table);
    assert SlotFollows(m, ttb + s, plan[s]);
    StoresMiss(m, t, c, plan[s].large, PageIndex(va));
    OnlyTable(m, t, c);
    SameWalk(m, PageStores(m, t, c), ttb, va);
  }

  lemma OnlyTable(m: Words, table: nat, c: Call)
    requires table + 256 <= |m| && !c.SectionCall? && PageIndex(c.base) + c.Stores() <= 256
    requires c.l2 < if c.Page4kCall? then 0x1000 else 0x1_0000
    ensures forall i :: 0 <= i < |m| && !(table <= i < table + 256) ==> PageStores(m, table, c)[i] == m[i]
  {
    hide Nth, SmallEntry, LargeEntry;
  }

  lemma PageWalk(m: Words, ttb: nat, plan: seq<Use>, c: Call, va: Word)
    requires PlanFits(plan, ttb, |m|) && Follows(m, ttb, plan) && !c.SectionCall? && CallFits(c, plan)
    requires Writable(c, ttb, |m|)
    ensures Walk(Apply(m, ttb, c), ttb, va) == if c.Covers(va) then c.Target(va) else Walk(m, ttb, va)
  {
    hide TableAt, SectionIndex, PageIndex, Walk, Nth, Follows, Block, Apply;
    var linked := PageCallSplits(m, ttb, plan, c);
    var s, t := SectionIndex(c.base), TableAt(c.table);
    var m' := Apply(m, ttb, c);
    if SectionIndex(va) != s {
      TableStoresMiss(linked, m', ttb, plan, s, va);
    } else if !c.Covers(va) {
      PageMiss(linked, ttb, plan, c, va);
    } else if c.Page4kCall? {
      SmallHit(m', ttb, plan[s].l1, t, c, va);
    } else {
      PageFollows(m, ttb, plan, c);
      LinkedBlock(m', ttb, plan, s, PageIndex(va));
      LargeHit(m', ttb, plan[s].l1, t, c, va);
    }
  }

  lemma LinkedBlock(m: Words, ttb: nat, plan: seq<Use>, s: nat, j: nat)
    requires PlanFits(plan, ttb, |m|) && Follows(m, ttb, plan) && s < 4096 && plan[s].Pages? && j < 256
    ensures m[TableAt(plan[s].l1) + j] % 4 == 1 ==> Replicated(m, TableAt(plan[s].l1), j)
  {
    hide TableAt, Replicated;
    assert SlotFollows(m, ttb + s, plan[s]);
  }

  lemma PageFollows(m: Words, ttb: nat, plan: seq<Use>, c: Call)
    requires PlanFits(plan, ttb, |m|) && Follows(m, ttb, plan) && !c.SectionCall? && CallFits(c, plan)
    requires Writable(c, ttb, |m|)
    ensures Follows(Apply(m, ttb, c), ttb, plan)
  {
    hide TableAt, SectionIndex, PageIndex, Nth, Walk, Apply, TableFollows, Follows;
    hide Filled, SmallEntry, LargeEntry, LinkEntry;
    var linked := PageCallSplits(m, ttb, plan, c);
    var s, t := SectionIndex(c.base), TableAt(c.table);
    LinkedTable(linked, ttb, plan, s);
    OnlyTable(linked, t, c);
    if c.Page4kCall? {
      SmallTable(linked, t, plan[s].large, c.base, c.count, c.l2);
    } else {
      LargeTable(linked, t, plan[s].large, c.base, c.count, c.l2);
    }
    TableStoresFollow(linked, Apply(m, ttb, c), ttb, plan, s);
  }

  /** Every planned call keeps the plan, maps its own region to itself with its own attributes,
      and leaves the translation of every other address as it was. */
  lemma CallIsOverride(m: Words, ttb: nat, plan: seq<Use>, c: Call, va: Word)
    requires PlanFits(plan, ttb, |m|) && Follows(m, ttb, plan) && CallFits(c, plan)
    ensures Writable(c, ttb, |m|)
    ensures Follows(Apply(m, ttb, c), ttb, plan)
    ensures Walk(Apply(m, ttb, c), ttb, va) == if c.Covers(va) then c.Target(va) else Walk(m, ttb, va)
  {
    hide TableAt, SectionIndex, PageIndex, Walk, Follows, Apply, Writable, PlanFits, CallFits;
    FitsApply(c, plan, ttb, |m|);
    if c.SectionCall? {
      SectionFollows(m, ttb, plan, c);
      if c.Covers(va) { SectionHit(m, ttb, plan, c, va); } else { SectionMiss(m, ttb, plan, c, va); }
    } else {
      PageFollows(m, ttb, plan, c);
      PageWalk(m, ttb, plan, c, va);
    }
  }

  // ---- whole runs ---------------------------------------------------------------------------

  ghost predicate AllFit(calls: seq<Call>, plan: seq<Use>, ttb: nat, size: nat) {
    PlanFits(plan, ttb, size) && forall c :: c in calls ==> CallFits(c, plan)
  }

  /** Memory after a sequence of calls. */
  ghost function Run(m: Words, ttb: nat, calls: seq<Call>): (r: Words)
    requires forall c :: c in calls ==> Writable(c, ttb, |m|)
    ensures |r| == |m|
  {
    if calls == [] then m else Apply(Run(m, ttb, calls[..|calls| - 1]), ttb, calls[|calls| - 1])
  }

  lemma AllWritable(calls: seq<Call>, plan: seq<Use>, ttb: nat, size: nat)
    requires AllFit(calls, plan, ttb, size)
    ensures forall c :: c in calls ==> Writable(c, ttb, size)
  {
    forall c | c in calls
      ensures Writable(c, ttb, size)
    {
      FitsApply(c, plan, ttb, size);
    }
  }

  /** Each writer does to memory what `Apply` says of its call. */
  method Store(memory: array<Word>, ttb: nat, c: Call)
    requires Writable(c, ttb, memory.Length)
    modifies memory
    ensures memory[..] == Apply(old(memory[..]), ttb, c)
  {
    hide Apply, Writable;
    match c {
      case SectionCall(_, _, _) => StoreSections(memory, ttb, c);
      case Page4kCall(_, _, _, _, _) => StoreSmallPages(memory, ttb, c);
      case Page64kCall(_, _, _, _, _) => StoreLargePages(memory, ttb, c);
    }
  }

  method StoreSections(memory: array<Word>, ttb: nat, c: Call)
    requires Writable(c, ttb, memory.Length) && c.SectionCall?
    modifies memory
    ensures memory[..] == Apply(old(memory[..]), ttb, c)
  {
    hide SectionIndex, Filled, SectionEntry;
    TTSection(memory, ttb, c.base, c.count, c.l1);
  }

  method StoreSmallPages(memory: array<Word>, ttb: nat, c: Call)
    requires Writable(c, ttb, memory.Length) && c.Page4kCall?
    modifies memory
    ensures memory[..] == Apply(old(memory[..]), ttb, c)
  {
    hide SectionIndex, PageIndex, Filled, SmallEntry, LinkEntry;
    TableAligned(c.table);
    TTPage4k(memory, ttb, c.base, c.count, c.l1, c.table, c.l2);
  }

  method StoreLargePages(memory: array<Word>, ttb: nat, c: Call)
    requires Writable(c, ttb, memory.Length) && c.Page64kCall?
    modifies memory
    ensures memory[..] == Apply(old(memory[..]), ttb, c)
  {
    hide SectionIndex, PageIndex, Filled, LargeEntry, LinkEntry;
    TableAligned(c.table);
    TTPage64k(memory, ttb, c.base, c.count, c.l1, c.table, c.l2);
  }

  /** A planned call, performed by its writer: its region becomes the identity with its own
      attributes and the walk of every other address stays as it was. */
  method Perform(memory: array<Word>, ttb: nat, ghost plan: seq<Use>, c: Call)
    requires PlanFits(plan, ttb, memory.Length) && Follows(memory[..], ttb, plan) && CallFits(c, plan)
    modifies memory
    ensures Follows(memory[..], ttb, plan)
    ensures forall va: Word ::
      Walk(memory[..], ttb, va) == if c.Covers(va) then c.Target(va) else Walk(old(memory[..]), ttb, va)
  {
    hide CallFits, Walk, Follows, Apply;
    ghost var before := memory[..];
    FitsApply(c, plan, ttb, memory.Length);
    Store(memory, ttb, c);
    CallIsOverride(before, ttb, plan, c, 0);
    forall va: Word
      ensures Walk(memory[..], ttb, va) == if c.Covers(va) then c.Target(va) else Walk(before, ttb, va)
    {
      CallIsOverride(before, ttb, plan, c, va);
    }
  }

  /** The last call that covers an address decides its translation; none leaves it as it was. */
  function Latest(before: Translation, calls: seq<Call>, va: Word): Translation {
    if calls == [] then before
    else
      var last := calls[|calls| - 1];
      if last.Covers(va) then last.Target(va) else Latest(before, calls[..|calls| - 1], va)
  }

  /** From any planned memory, whatever else it holds and maps already, the hardware walk after any
      planned sequence of calls is exactly the abstract memory map. */
  lemma {:induction false} WalkAfterRun(m: Words, ttb: nat, plan: seq<Use>, calls: seq<Call>, va: Word)
    requires AllFit(calls, plan, ttb, |m|) && Follows(m, ttb, plan)
    ensures forall c :: c in calls ==> Writable(c, ttb, |m|)
    ensures Follows(Run(m, ttb, calls), ttb, plan)
    ensures Walk(Run(m, ttb, calls), ttb, va) == Latest(Walk(m, ttb, va), calls, va)
  {
    hide TableAt, SectionIndex, PageIndex, Apply, Writable, Follows, Walk;
    AllWritable(calls, plan, ttb, |m|);
    if calls != [] {
      var rest := calls[..|calls| - 1];
      WalkAfterRun(m, ttb, plan, rest, va);
      CallIsOverride(Run(m, ttb, rest), ttb, plan, calls[|calls| - 1], va);
    }
  }

  lemma {:induction false} LatestOfDisjoint(before: Translation, calls: seq<Call>, k: nat, va: Word)
    requires k < |calls| && calls[k].Covers(va)
    requires forall j :: 0 <= j < |calls| && j != k ==> !calls[j].Covers(va)
    ensures Latest(before, calls, va) == calls[k].Target(va)
  {
    if k < |calls| - 1 {
      LatestOfDisjoint(before, calls[..|calls| - 1], k, va);
    }
  }

  lemma {:induction false} LatestOfUnmapped(before: Translation, calls: seq<Call>, va: Word)
    requires forall j :: 0 <= j < |calls| ==> !calls[j].Covers(va)
    ensures Latest(before, calls, va) == before
  {
    if calls != [] {
      LatestOfUnmapped(before, calls[..|calls| - 1], va);
    }
  }

  /** Under any plan: an address that one call covers goes to itself with the attributes of that call,
      and an address of no call keeps its translation. */
  lemma PlannedIdentityMap(m: Words, ttb: nat, plan: seq<Use>, calls: seq<Call>, va: Word)
    requires AllFit(calls, plan, ttb, |m|) && Follows(m, ttb, plan)
    requires forall j, k :: 0 <= j < k < |calls| && calls[j].Covers(va) ==> !calls[k].Covers(va)
    ensures forall c :: c in calls ==> Writable(c, ttb, |m|)
    ensures forall k :: 0 <= k < |calls| && calls[k].Covers(va) ==>
      Walk(Run(m, ttb, calls), ttb, va) == calls[k].Target(va)
    ensures (forall k :: 0 <= k < |calls| ==> !calls[k].Covers(va)) ==>
      Walk(Run(m, ttb, calls), ttb, va) == Walk(m, ttb, va)
  {
    hide Walk, Run, Writable, Follows;
    WalkAfterRun(m, ttb, plan, calls, va);
    if k :| 0 <= k < |calls| && calls[k].Covers(va) {
      LatestOfDisjoint(Walk(m, ttb, va), calls, k, va);
    } else {
      LatestOfUnmapped(Walk(m, ttb, va), calls, va);
    }
  }

  // ---- a plan from the calls alone ----------------------------------------------------------

  /** One call by itself: its stores lie in memory, its descriptors have the type of its size, and a
      page call has pages, an aligned base and a table apart from the first level. */
  predicate Sound(c: Call, ttb: nat, size: nat) {
    && Writable(c, ttb, size)
    && match c
       case SectionCall(base, count, l1) => l1 % 4 == 0 || (l1 % 4 == 2 && l1 / 0x4_0000 % 2 == 0)
       case Page4kCall(base, count, l1, table, l2) =>
         && count > 0 && l1 % 4 == 1 && (l2 % 4 == 0 || l2 / 2 % 2 == 1)
         && (TableAt(table) + 256 <= ttb || ttb + 4096 <= TableAt(table))
       case Page64kCall(base, count, l1, table, l2) =>
         && count > 0 && l1 % 4 == 1 && l2 % 4 <= 1 && PageIndex(base) % 16 == 0
         && (TableAt(table) + 256 <= ttb || ttb + 4096 <= TableAt(table))
  }

  ghost predicate Disjoint(c: Call, d: Call) {
    forall va: Word :: !(c.Covers(va) && d.Covers(va))
  }

  /** Page calls of one megabyte share its table and first-level word; those of two megabytes do not. */
  predicate TablesAgree(c: Call, d: Call) {
    !c.SectionCall? && !d.SectionCall? ==>
      if SectionIndex(c.base) == SectionIndex(d.base) then c.table == d.table && c.l1 == d.l1
      else TableAt(c.table) != TableAt(d.table)
  }

  /** What a caller can check of a sequence of calls: an aligned first-level table, sound calls,
      disjoint regions and tables that agree. */
  ghost predicate Separate(calls: seq<Call>, ttb: nat, size: nat) {
    && ttb % 4096 == 0 && ttb + 4096 <= size
    && (forall k :: 0 <= k < |calls| ==> Sound(calls[k], ttb, size))
    && (forall j, k :: 0 <= j < k < |calls| ==> Disjoint(calls[j], calls[k]) && TablesAgree(calls[j], calls[k]))
  }

  predicate PageOf(c: Call, s: nat) { !c.SectionCall? && SectionIndex(c.base) == s }

  /** A 64 KB page call of megabyte `s` holds block `b`. */
  predicate HoldsBlock(c: Call, s: nat, b: nat) {
    PageOf(c, s) && c.Page64kCall? && PageIndex(c.base) <= 16 * b < PageIndex(c.base) + 16 * c.count
  }

  ghost predicate UsesPages(calls: seq<Call>, s: nat) {
    exists k :: 0 <= k < |calls| && PageOf(calls[k], s)
  }

  /** Some page call of the megabyte; they all agree on what the plan needs. */
  ghost function PageCallOf(calls: seq<Call>, s: nat): (k: nat)
    requires UsesPages(calls, s)
    ensures k < |calls| && PageOf(calls[k], s)
  {
    var k :| 0 <= k < |calls| && PageOf(calls[k], s);
    k
  }

  ghost predicate UsesBlock(calls: seq<Call>, s: nat, b: nat) {
    exists k :: 0 <= k < |calls| && HoldsBlock(calls[k], s, b)
  }

  ghost function LinkOf(c: Call): Word
    requires c.SectionCall? || c.l1 < 1024
  {
    if c.SectionCall? then 0 else LinkEntry(c.table, c.l1)
  }

  ghost function UseOf(calls: seq<Call>, s: nat): Use
    requires forall k :: 0 <= k < |calls| ==> calls[k].SectionCall? || calls[k].l1 < 1024
  {
    if UsesPages(calls, s)
    then Pages(LinkOf(calls[PageCallOf(calls, s)]), seq(16, b requires 0 <= b < 16 => UsesBlock(calls, s, b)))
    else Sections
  }

  ghost function PlanOf(calls: seq<Call>): (plan: seq<Use>)
    requires forall k :: 0 <= k < |calls| ==> calls[k].SectionCall? || calls[k].l1 < 1024
    ensures |plan| == 4096
  {
    seq(4096, s requires 0 <= s < 4096 => UseOf(calls, s))
  }

  lemma SoundLinks(calls: seq<Call>, ttb: nat, size: nat)
    requires Separate(calls, ttb, size)
    ensures forall k :: 0 <= k < |calls| ==> calls[k].SectionCall? || calls[k].l1 < 1024
  {
    forall k | 0 <= k < |calls|
      ensures calls[k].SectionCall? || calls[k].l1 < 1024
    {
      assert Sound(calls[k], ttb, size);
    }
  }

  /** The pair conditions, whichever call comes first. */
  lemma EitherOrder(calls: seq<Call>, ttb: nat, size: nat, j: nat, k: nat)
    requires Separate(calls, ttb, size) && j < |calls| && k < |calls|
    ensures TablesAgree(calls[j], calls[k])
    ensures j != k ==> Disjoint(calls[j], calls[k])
  {
    hide TableAt, SectionIndex, PageIndex, Sound;
    if j > k {
      assert Disjoint(calls[k], calls[j]) && TablesAgree(calls[k], calls[j]);
      forall va: Word
        ensures !(calls[j].Covers(va) && calls[k].Covers(va))
      {
      }
    }
  }

  lemma LinkFields(c: Call, ttb: nat, size: nat)
    requires Sound(c, ttb, size) && !c.SectionCall?
    ensures LinkOf(c) % 4 == 1 && TableAt(LinkOf(c)) == TableAt(c.table)
  {
    LinkWord(c.table, c.l1);
  }

  lemma PlanOfFits(calls: seq<Call>, ttb: nat, size: nat)
    requires Separate(calls, ttb, size)
    ensures forall k :: 0 <= k < |calls| ==> calls[k].SectionCall? || calls[k].l1 < 1024
    ensures PlanFits(PlanOf(calls), ttb, size)
  {
    hide TableAt, SectionIndex, LinkOf, Sound, Disjoint;
    SoundLinks(calls, ttb, size);
    var plan := PlanOf(calls);
    forall s | 0 <= s < 4096 && plan[s].Pages?
      ensures plan[s].l1 % 4 == 1 && |plan[s].large| == 16 && TableAt(plan[s].l1) + 256 <= size
      ensures TableAt(plan[s].l1) + 256 <= ttb || ttb + 4096 <= TableAt(plan[s].l1)
    {
      SoundTable(calls[PageCallOf(calls, s)], ttb, size);
    }
    forall s, t | 0 <= s < t < 4096 && plan[s].Pages? && plan[t].Pages?
      ensures TableAt(plan[s].l1) != TableAt(plan[t].l1)
    {
      var j, k := PageCallOf(calls, s), PageCallOf(calls, t);
      SoundTable(calls[j], ttb, size);
      SoundTable(calls[k], ttb, size);
      EitherOrder(calls, ttb, size, j, k);
    }
  }

  lemma SoundTable(c: Call, ttb: nat, size: nat)
    requires Sound(c, ttb, size) && !c.SectionCall?
    ensures c.l1 < 1024 && LinkOf(c) % 4 == 1 && TableAt(LinkOf(c)) == TableAt(c.table)
    ensures TableAt(c.table) + 256 <= size
    ensures TableAt(c.table) + 256 <= ttb || ttb + 4096 <= TableAt(c.table)
  {
    LinkFields(c, ttb, size);
  }

  lemma PageAddress(s: nat, j: nat) returns (va: Word)
    requires s < 4096 && j < 256
    ensures SectionIndex(va) == s && PageIndex(va) == j
  {
    va := s * 0x10_0000 + j * 0x1000;
    DivModUnique(va, 0x10_0000, s, j * 0x1000);
    DivModUnique(va, 0x1000, s * 256 + j, 0);
    DivModUnique(s * 256 + j, 256, s, j);
  }

  lemma CallFitsPlan(calls: seq<Call>, ttb: nat, size: nat, k: nat)
    requires Separate(calls, ttb, size) && k < |calls|
    ensures forall i :: 0 <= i < |calls| ==> calls[i].SectionCall? || calls[i].l1 < 1024
    ensures PlanFits(PlanOf(calls), ttb, size) && CallFits(calls[k], PlanOf(calls))
  {
    hide TableAt, SectionIndex, PageIndex, PlanFits;
    PlanOfFits(calls, ttb, size);
    var c := calls[k];
    assert Sound(c, ttb, size);
    if c.SectionCall? {
      SectionsStay(calls, ttb, size, k);
    } else {
      SharedLink(calls, ttb, size, k);
      if c.Page4kCall? {
        SmallBlocks(calls, ttb, size, k);
      } else {
        LargeBlocks(calls, ttb, size, k);
      }
    }
  }

  /** A megabyte of a section call has no page call. */
  lemma SectionsStay(calls: seq<Call>, ttb: nat, size: nat, k: nat)
    requires Separate(calls, ttb, size) && k < |calls| && calls[k].SectionCall?
    ensures forall s :: SectionIndex(calls[k].base) <= s < SectionIndex(calls[k].base) + calls[k].count ==>
      !UsesPages(calls, s)
  {
    hide TableAt, SectionIndex, PageIndex;
    forall s | SectionIndex(calls[k].base) <= s < SectionIndex(calls[k].base) + calls[k].count
      ensures !UsesPages(calls, s)
    {
      if UsesPages(calls, s) {
        var j := PageCallOf(calls, s);
        assert Sound(calls[j], ttb, size);
        EitherOrder(calls, ttb, size, j, k);
        var met := calls[j].Covers(calls[j].base) && calls[k].Covers(calls[j].base);
        assert false;
      }
    }
  }

  lemma SharedLink(calls: seq<Call>, ttb: nat, size: nat, k: nat)
    requires Separate(calls, ttb, size) && k < |calls| && !calls[k].SectionCall?
    ensures forall i :: 0 <= i < |calls| ==> calls[i].SectionCall? || calls[i].l1 < 1024
    ensures var use := UseOf(calls, SectionIndex(calls[k].base)); use.Pages? && use.l1 == LinkOf(calls[k])
  {
    hide TableAt, SectionIndex, PageIndex, Disjoint, Sound;
    SoundLinks(calls, ttb, size);
    var s := SectionIndex(calls[k].base);
    assert PageOf(calls[k], s);
    EitherOrder(calls, ttb, size, PageCallOf(calls, s), k);
  }

  /** No block of a 4 KB call belongs to a 64 KB call: the two would meet in it. */
  lemma SmallBlocks(calls: seq<Call>, ttb: nat, size: nat, k: nat)
    requires Separate(calls, ttb, size) && k < |calls| && calls[k].Page4kCall?
    ensures var c := calls[k];
      forall j :: PageIndex(c.base) <= j < PageIndex(c.base) + c.count ==> !UsesBlock(calls, SectionIndex(c.base), j / 16)
  {
    hide TableAt, SectionIndex, PageIndex;
    var c := calls[k];
    var s := SectionIndex(c.base);
    assert Sound(c, ttb, size);
    forall j | PageIndex(c.base) <= j < PageIndex(c.base) + c.count
      ensures !UsesBlock(calls, s, j / 16)
    {
      if i :| 0 <= i < |calls| && HoldsBlock(calls[i], s, j / 16) {
        assert Sound(calls[i], ttb, size);
        BlockAligned(calls[i].base);
        EitherOrder(calls, ttb, size, i, k);
        var va := PageAddress(s, j);
        var met := c.Covers(va) && calls[i].Covers(va);
        assert false;
      }
    }
  }

  lemma LargeBlocks(calls: seq<Call>, ttb: nat, size: nat, k: nat)
    requires Separate(calls, ttb, size) && k < |calls| && calls[k].Page64kCall?
    ensures var c := calls[k];
      forall j :: PageIndex(c.base) <= j < PageIndex(c.base) + 16 * c.count ==>
        UsesBlock(calls, SectionIndex(c.base), j / 16)
  {
    hide TableAt, SectionIndex, PageIndex;
    var c := calls[k];
    assert Sound(c, ttb, size);
    BlockAligned(c.base);
    forall j | PageIndex(c.base) <= j < PageIndex(c.base) + 16 * c.count
      ensures UsesBlock(calls, SectionIndex(c.base), j / 16)
    {
      assert HoldsBlock(c, SectionIndex(c.base), j / 16);
    }
  }

  ghost predicate LevelFaults(m: Words, ttb: nat)
    requires ttb + 4096 <= |m|
  {
    forall i :: ttb <= i < ttb + 4096 ==> m[i] % 4 == 0
  }

  ghost predicate CallTableFaults(m: Words, c: Call) {
    c.SectionCall? || (TableAt(c.table) + 256 <= |m| && TableFaults(m, TableAt(c.table)))
  }

  /** The first-level table and the second-level tables that the calls name hold only faults; the rest
      of memory may hold anything. */
  ghost predicate TablesEmpty(m: Words, ttb: nat, calls: seq<Call>)
    requires ttb + 4096 <= |m|
  {
    && LevelFaults(m, ttb)
    && forall k :: 0 <= k < |calls| ==> CallTableFaults(m, calls[k])
  }

  lemma EmptySlot(m: Words, at: nat, use: Use)
    requires at < |m| && m[at] % 4 == 0
    requires use.Pages? ==>
      |use.large| == 16 && TableAt(use.l1) + 256 <= |m| && TableFaults(m, TableAt(use.l1))
    ensures SlotFollows(m, at, use)
  {
    hide TableAt;
  }

  /** Empty tables keep to the plan made from the calls, and map nothing. */
  lemma EmptyTables(m: Words, ttb: nat, calls: seq<Call>, va: Word)
    requires Separate(calls, ttb, |m|) && TablesEmpty(m, ttb, calls)
    ensures forall k :: 0 <= k < |calls| ==> calls[k].SectionCall? || calls[k].l1 < 1024
    ensures PlanFits(PlanOf(calls), ttb, |m|) && Follows(m, ttb, PlanOf(calls))
    ensures Walk(m, ttb, va) == Fault
  {
    hide TableAt, SectionIndex, PageIndex, LinkOf, Sound, TableFaults, SlotFollows, TablesAgree, Disjoint;
    PlanOfFits(calls, ttb, |m|);
    var plan := PlanOf(calls);
    forall s | 0 <= s < 4096
      ensures SlotFollows(m, ttb + s, plan[s])
    {
      if plan[s].Pages? {
        SoundTable(calls[PageCallOf(calls, s)], ttb, |m|);
      }
      EmptySlot(m, ttb + s, plan[s]);
    }
  }

  /** The identity map, from conditions on the calls alone: from empty tables, in memory that otherwise
      holds anything, every address of a call goes to itself with the attributes of that call, and
      every other address faults. */
  lemma IdentityMap(m: Words, ttb: nat, calls: seq<Call>, va: Word)
    requires Separate(calls, ttb, |m|) && TablesEmpty(m, ttb, calls)
    ensures forall c :: c in calls ==> Writable(c, ttb, |m|)
    ensures forall k :: 0 <= k < |calls| && calls[k].Covers(va) ==>
      Walk(Run(m, ttb, calls), ttb, va) == calls[k].Target(va)
    ensures (forall k :: 0 <= k < |calls| ==> !calls[k].Covers(va)) ==>
      Walk(Run(m, ttb, calls), ttb, va) == Fault
  {
    hide Walk, Run, Writable, Sound, TablesAgree, TableAt, SectionIndex, PageIndex;
    hide PlanFits, CallFits, Follows, TablesEmpty;
    EmptyTables(m, ttb, calls, va);
    forall k | 0 <= k < |calls|
      ensures CallFits(calls[k], PlanOf(calls))
    {
      CallFitsPlan(calls, ttb, |m|, k);
    }
    forall j, k | 0 <= j < k < |calls| && calls[j].Covers(va)
      ensures !calls[k].Covers(va)
    {
      assert Disjoint(calls[j], calls[k]);
    }
    PlannedIdentityMap(m, ttb, PlanOf(calls), calls, va);
  }

  /** The first-level alignment is needed: a section written into a table elsewhere is not found, or
      another section's entry is found in its place. */
  lemma SectionFoundExactly(m: Words, ttb: nat, c: Call, va: Word)
    requires Writable(c, ttb, |m|) && forall i :: TableBase(ttb) <= i < ttb + 4096 ==> m[i] % 4 == 0
    requires c.SectionCall? && c.l1 % 4 == 2 && c.l1 / 0x4_0000 % 2 == 0 && c.Covers(va)
    ensures Walk(Apply(m, ttb, c), ttb, va) == c.Target(va) <==> ttb % 4096 == 0
  {
    hide Nth, WalkPage, TableAt, SectionIndex;
    var m', at := Apply(m, ttb, c), TableBase(ttb) + SectionIndex(va);
    AddressSplits(va);
    if SectionIndex(c.base) <= at - ttb < SectionIndex(c.base) + c.count {
      NthSection(c.base, at - ttb - SectionIndex(c.base), c.l1);
      SectionWord(at - ttb, c.l1);
      assert m'[at] == (at - ttb) * 0x10_0000 + c.l1;
    } else {
      assert m'[at] == m[at];
    }
  }

  /** Consecutive values of a growing entry differ, and all have its type. */
  lemma NthSteps(entry: Word, k: nat)
    ensures Nth(entry, 0x1_0000, k) % 4 == entry % 4
    ensures Nth(entry, 0x1_0000, k + 1) != Nth(entry, 0x1_0000, k)
  {
    NthNext(entry, 0x1_0000, k);
    hide Nth;
    NthType(entry, k);
  }

  lemma NthType(entry: Word, k: nat)
    ensures Nth(entry, 0x1_0000, k) % 4 == entry % 4
  {
    var x := entry + k * 0x1_0000;
    var q, w := x / 0x1_0000_0000, x % 0x1_0000_0000;
    assert x == 0x1_0000_0000 * q + w;
    KeepsType(entry, entry / 4, entry % 4, k, q, w);
  }

  lemma KeepsType(e: int, h: int, l: int, k: int, q: int, w: int)
    requires e == 4 * h + l && 0 <= l < 4 && e + k * 0x1_0000 == 0x1_0000_0000 * q + w
    ensures w % 4 == l
  {
    DivModUnique(w, 4, h + k * 0x4000 - q * 0x4000_0000, l);
  }

  lemma LargeType(base: Word, l2: Word)
    requires l2 < 0x1_0000
    ensures LargeEntry(base, l2) % 4 == l2 % 4
  {
    TypeBits(LargeEntry(base, l2), base / 0x1_0000 * 0x4000, l2);
  }

  /** A run of sixteen-fold entries that begins inside a block leaves no block replicated: each block it
      reaches holds the seam between two of its values, or between one and what was there. */
  lemma SeamInBlock(m: Words, table: nat, j0: nat, count: nat, entry: Word, j: nat)
    requires table + 256 <= |m| && j0 + 16 * count <= 256 && j0 <= j < j0 + 16 * count && j0 % 16 != 0 && entry % 4 == 1
    requires forall i :: table <= i < table + 256 ==> m[i] % 4 == 0
    ensures !Replicated(Filled(m, table + j0, 16 * count, 16, entry, 0x1_0000), table, j)
  {
    hide Nth;
    var f := Filled(m, table + j0, 16 * count, 16, entry, 0x1_0000);
    var x := Block(j) + j0 % 16;
    Seam(j0, j);
    if x - 1 < j0 {
      NthSteps(entry, (j - j0) / 16);
      assert f[table + x - 1] % 4 == 0;
    } else if j0 + 16 * count <= x {
      NthSteps(entry, (j - j0) / 16);
      assert f[table + x] % 4 == 0;
    } else {
      NthSteps(entry, (x - 1 - j0) / 16);
      assert f[table + x] != f[table + x - 1];
    }
  }

  lemma Seam(j0: nat, j: nat)
    requires j0 <= j < 256 && j0 % 16 != 0
    ensures var x := Block(j) + j0 % 16;
      Block(j) <= x - 1 && x < Block(j) + 16 && (x > j0 ==> (x - j0) / 16 == (x - 1 - j0) / 16 + 1)
  {
    var x := Block(j) + j0 % 16;
    var d := j / 16 - j0 / 16;
    assert x - j0 == 16 * d;
    if x > j0 {
      DivModUnique(x - j0, 16, d, 0);
      DivModUnique(x - 1 - j0, 16, d - 1, 15);
    }
  }

  /** The alignment of a 64 KB base is needed too: in an otherwise empty map its pages are found exactly
      when the base's page begins a block, whatever its low twelve bits. */
  lemma LargeFoundExactly(m: Words, ttb: nat, c: Call, va: Word)
    requires Writable(c, ttb, |m|) && ttb % 4096 == 0 && LevelFaults(m, ttb) && CallTableFaults(m, c)
    requires c.Page64kCall? && c.l1 % 4 == 1 && c.l2 % 4 == 1 && c.Covers(va)
    requires TableAt(c.table) + 256 <= ttb || ttb + 4096 <= TableAt(c.table)
    ensures Walk(Apply(m, ttb, c), ttb, va) == c.Target(va) <==> PageIndex(c.base) % 16 == 0
  {
    hide Walk, Apply, TableAt, SectionIndex, PageIndex, Separate, Run, Writable;
    if PageIndex(c.base) % 16 == 0 {
      AloneIsSeparate(c, ttb, |m|);
      OneCall(m, ttb, c);
      IdentityMap(m, ttb, [c], va);
      assert [c][0].Covers(va);
    } else {
      LargeMisaligned(m, ttb, c, va);
    }
  }

  lemma AloneIsSeparate(c: Call, ttb: nat, size: nat)
    requires Sound(c, ttb, size) && ttb % 4096 == 0
    ensures Separate([c], ttb, size)
  {
    hide Sound;
    SoundFits(c, ttb, size);
  }

  lemma SoundFits(c: Call, ttb: nat, size: nat)
    requires Sound(c, ttb, size)
    ensures ttb + 4096 <= size
  {
  }

  lemma OneCall(m: Words, ttb: nat, c: Call)
    requires Writable(c, ttb, |m|)
    ensures Run(m, ttb, [c]) == Apply(m, ttb, c)
  {
    hide Apply, Writable;
    assert [c][..0] == [];
    assert Run(m, ttb, [c][..0]) == m;
  }

  lemma LargeMisaligned(m: Words, ttb: nat, c: Call, va: Word)
    requires Writable(c, ttb, |m|) && ttb % 4096 == 0 && CallTableFaults(m, c)
    requires c.Page64kCall? && c.l1 % 4 == 1 && c.l2 % 4 == 1 && c.Covers(va) && PageIndex(c.base) % 16 != 0
    requires TableAt(c.table) + 256 <= ttb || ttb + 4096 <= TableAt(c.table)
    ensures Walk(Apply(m, ttb, c), ttb, va) == Unpredictable
  {
    hide TableAt, SectionIndex, PageIndex, Walk, LinkEntry, Replicated, Apply;
    LinkWord(c.table, c.l1);
    MisalignedEntries(m, ttb, c, va);
    LinkedWalk(Apply(m, ttb, c), ttb, LinkEntry(c.table, c.l1), TableAt(c.table), va);
    LowType(Apply(m, ttb, c)[TableAt(c.table) + PageIndex(va)]);
  }

  lemma MisalignedEntries(m: Words, ttb: nat, c: Call, va: Word)
    requires Writable(c, ttb, |m|) && CallTableFaults(m, c)
    requires c.Page64kCall? && c.l2 % 4 == 1 && c.Covers(va) && PageIndex(c.base) % 16 != 0
    requires TableAt(c.table) + 256 <= ttb || ttb + 4096 <= TableAt(c.table)
    ensures var m', t := Apply(m, ttb, c), TableAt(c.table);
      && t + 256 <= |m| && m'[ttb + SectionIndex(va)] == LinkEntry(c.table, c.l1)
      && m'[t + PageIndex(va)] % 4 == 1 && !Replicated(m', t, PageIndex(va))
  {
    hide TableAt, SectionIndex, PageIndex, Nth, LargeEntry, LinkEntry, Replicated;
    var j0, t := PageIndex(c.base), TableAt(c.table);
    TableAligned(c.table);
    var linked, entry := m[ttb + SectionIndex(c.base) := LinkEntry(c.table, c.l1)], LargeEntry(c.base, c.l2);
    var m' := Apply(m, ttb, c);
    assert m' == Filled(linked, t + j0, 16 * c.count, 16, entry, 0x1_0000);
    LargeType(c.base, c.l2);
    hide Apply, Filled;
    RunEntries(linked, t, j0, c.count, entry, PageIndex(va), ttb + SectionIndex(va));
  }

  lemma RunEntries(m: Words, table: nat, j0: nat, count: nat, entry: Word, j: nat, other: nat)
    requires table + 256 <= |m| && j0 + 16 * count <= 256 && j0 <= j < j0 + 16 * count && j0 % 16 != 0 && entry % 4 == 1
    requires forall i :: table <= i < table + 256 ==> m[i] % 4 == 0
    requires other < |m| && !(table <= other < table + 256)
    ensures var f := Filled(m, table + j0, 16 * count, 16, entry, 0x1_0000);
      f[other] == m[other] && f[table + j] % 4 == 1 && !Replicated(f, table, j)
  {
    hide Nth, Replicated;
    SeamInBlock(m, table, j0, count, entry, j);
    NthType(entry, (j - j0) / 16);
  }

  // ---- the definitions in numbers -----------------------------------------------------------

  /** The addresses of a call: whole megabytes, or pages of 4 KB or 64 KB, from its base on. A 64 KB call
      begins at its base's own 4 KB page, which is its 64 KB block where that begins one. */
  lemma CoversMeaning(c: Call, va: Word)
    ensures c.SectionCall? ==>
      var start := c.base / 0x10_0000 * 0x10_0000;
      c.Covers(va) <==> start <= va < start + c.count * 0x10_0000
    ensures c.Page4kCall? && c.base / 0x1000 % 256 + c.count <= 256 ==>
      var start := c.base / 0x1000 * 0x1000;
      c.Covers(va) <==> start <= va < start + c.count * 0x1000
    ensures c.Page64kCall? && c.base / 0x1000 % 256 + 16 * c.count <= 256 ==>
      var start := c.base / 0x1000 * 0x1000;
      (c.Covers(va) <==> start <= va < start + c.count * 0x1_0000) &&
      (c.base / 0x1000 % 16 == 0 ==> start == c.base / 0x1_0000 * 0x1_0000)
  {
    if c.SectionCall? {
      Within(va, 0x10_0000, c.base / 0x10_0000, c.count);
    } else {
      if c.base / 0x1000 % 256 + c.Stores() <= 256 {
        PagesCovered(c, va);
      }
      Within(va, 0x1000, c.base / 0x1000, c.Stores());
      if c.base / 0x1000 % 16 == 0 {
        BlockStart(c.base);
      }
    }
  }

  lemma PagesCovered(c: Call, va: Word)
    requires !c.SectionCall? && c.base / 0x1000 % 256 + c.Stores() <= 256
    ensures c.Covers(va) <==> c.base / 0x1000 <= va / 0x1000 < c.base / 0x1000 + c.Stores()
  {
    hide SectionIndex, PageIndex;
    PageSplits(va);
    PageSplits(c.base);
  }

  lemma BlockStart(base: Word)
    requires base / 0x1000 % 16 == 0
    ensures base / 0x1000 * 0x1000 == base / 0x1_0000 * 0x1_0000
  {
    DivModUnique(base, 0x1_0000, base / 0x1000 / 16, base % 0x1000);
  }

  /** Whole units from the `k`-th on. */
  lemma Within(va: nat, unit: nat, k: nat, n: nat)
    requires unit > 0
    ensures k <= va / unit < k + n <==> k * unit <= va < k * unit + n * unit
  {
    var q, r := va / unit, va % unit;
    assert va == unit * q + r;
    assert (k + n) * unit == k * unit + n * unit;
    if k <= q {
      MulMono(unit, k, q);
    } else {
      MulMono(unit, q + 1, k);
    }
    if k + n <= q {
      MulMono(unit, k + n, q);
    } else {
      MulMono(unit, q + 1, k + n);
    }
  }

  lemma TargetMeaning(c: Call, va: Word)
    ensures c.SectionCall? ==> c.Target(va) == if c.l1 % 4 == 0 then Fault else Mapped(va, c.l1, 0)
    ensures !c.SectionCall? ==> c.Target(va) == if c.l2 % 4 == 0 then Fault else Mapped(va, c.l1, c.l2)
  {
  }

  /** The walk of section B3.5 from a 16 KB aligned table: the entry of the megabyte, a section or a
      link to 256 entries, and a small page or one of sixteen equal entries of a large page. */
  lemma WalkMeaning(m: Words, ttb: nat, va: Word)
    requires ttb % 4096 == 0 && ttb + 4096 <= |m|
    ensures var first := m[ttb + va / 0x10_0000];
      && (first % 4 == 0 ==> Walk(m, ttb, va) == Fault)
      && (first % 4 == 2 && first / 0x4_0000 % 2 == 0 ==>
            Walk(m, ttb, va) == Mapped(first / 0x10_0000 * 0x10_0000 + va % 0x10_0000, first % 0x10_0000, 0))
    ensures var first := m[ttb + va / 0x10_0000];
      var table, j := first / 1024 * 256, va / 0x1000 % 256;
      first % 4 == 1 && table + 256 <= |m| ==>
        var second := m[table + j];
        && (second % 4 == 0 ==> Walk(m, ttb, va) == Fault)
        && (second % 4 >= 2 ==>
              Walk(m, ttb, va) == Mapped(second / 0x1000 * 0x1000 + va % 0x1000, first % 1024, second % 0x1000))
        && (second % 4 == 1 && (forall i :: table + j / 16 * 16 <= i < table + j / 16 * 16 + 16 ==> m[i] == second) ==>
              Walk(m, ttb, va) == Mapped(second / 0x1_0000 * 0x1_0000 + va % 0x1_0000, first % 1024, second % 0x1_0000))
        && (second % 4 == 1 && (exists i :: table + j / 16 * 16 <= i < table + j / 16 * 16 + 16 && m[i] != second) ==>
              Walk(m, ttb, va) == Unpredictable)
  {
    hide WalkPage;
    var first := m[ttb + va / 0x10_0000];
    if first % 4 == 1 && TableAt(first) + 256 <= |m| {
      PageMeaning(m, first, va);
    }
  }

  lemma PageMeaning(m: Words, l1: Word, va: Word)
    requires TableAt(l1) + 256 <= |m|
    ensures var table, j := l1 / 1024 * 256, va / 0x1000 % 256;
      var second := m[table + j];
      && (second % 4 == 0 ==> WalkPage(m, l1, va) == Fault)
      && (second % 4 >= 2 ==>
            WalkPage(m, l1, va) == Mapped(second / 0x1000 * 0x1000 + va % 0x1000, l1 % 1024, second % 0x1000))
      && (second % 4 == 1 && (forall i :: table + j / 16 * 16 <= i < table + j / 16 * 16 + 16 ==> m[i] == second) ==>
            WalkPage(m, l1, va) == Mapped(second / 0x1_0000 * 0x1_0000 + va % 0x1_0000, l1 % 1024, second % 0x1_0000))
      && (second % 4 == 1 && (exists i :: table + j / 16 * 16 <= i < table + j / 16 * 16 + 16 && m[i] != second) ==>
            WalkPage(m, l1, va) == Unpredictable)
  {
    var table, j := TableAt(l1), PageIndex(va);
    var second := m[table + j];
    TypeOf(second);
    CopiesAgree(m, table, j);
  }

  lemma TypeOf(w: Word)
    ensures w / 2 % 2 == 1 <==> w % 4 >= 2
  {
  }

  lemma CopiesAgree(m: Words, table: nat, j: nat)
    requires table + 256 <= |m| && j < 256
    ensures Replicated(m, table, j) <==>
      forall i :: table + j / 16 * 16 <= i < table + j / 16 * 16 + 16 ==> m[i] == m[table + j]
  {
  }

  /** What the writers' contracts say of one word of memory, and of the entries that they join. */
  lemma FilledMeaning(m: Words, start: nat, n: nat, copies: nat, entry: Word, step: Word, i: nat)
    requires start + n <= |m| && copies > 0 && i < |m|
    ensures Filled(m, start, n, copies, entry, step)[i] ==
      if start <= i < start + n then (entry + (i - start) / copies * step) % 0x1_0000_0000 else m[i]
  {
  }

  lemma EntryMeaning(base: Word, low: nat)
    ensures low < 0x10_0000 ==> SectionEntry(base, low) == base - base % 0x10_0000 + low
    ensures low < 0x1_0000 ==> LargeEntry(base, low) == base - base % 0x1_0000 + low
    ensures low < 0x1000 ==> SmallEntry(base, low) == base - base % 0x1000 + low
    ensures low < 0x400 ==> LinkEntry(base, low) == base - base % 0x400 + low
  {
  }

  /** One more call, for the memory and for the abstract map. */
  lemma OneMoreCall(m: Words, ttb: nat, calls: seq<Call>, c: Call, before: Translation, va: Word)
    requires forall d :: d in calls + [c] ==> Writable(d, ttb, |m|)
    ensures Run(m, ttb, []) == m && Latest(before, [], va) == before
    ensures (forall d :: d in calls ==> Writable(d, ttb, |m|)) && Writable(c, ttb, |m|)
    ensures Run(m, ttb, calls + [c]) == Apply(Run(m, ttb, calls), ttb, c)
    ensures Latest(before, calls + [c], va) == if c.Covers(va) then c.Target(va) else Latest(before, calls, va)
  {
    hide Apply, Writable;
    assert (calls + [c])[..|calls|] == calls;
  }

  // ---- a map in numbers ---------------------------------------------------------------------

  const MEGABYTES := SectionCall(0x4000_0000, 2, 0x5C0E)
  const SMALL_PAGES := Page4kCall(0x8000_0000, 16, 1, 0x8000, 0x176)
  const LARGE_PAGES := Page64kCall(0x8001_0000, 2, 1, 0x8000, 0x5035)

  /** Two megabytes, sixteen 4 KB pages and two 64 KB pages behind them, from tables of faults at
      addresses 0x4000 and 0x8000: what the walk finds anywhere. */
  lemma MapInNumbers(m: Words, va: Word)
    requires |m| >= 0x2100 && forall i :: 0x1000 <= i < 0x2100 ==> m[i] % 4 == 0
    ensures var calls := [MEGABYTES, SMALL_PAGES, LARGE_PAGES];
      && Separate(calls, 0x1000, |m|) && TablesEmpty(m, 0x1000, calls)
      && (forall c :: c in calls ==> Writable(c, 0x1000, |m|))
      && Walk(Run(m, 0x1000, calls), 0x1000, va) ==
           if 0x4000_0000 <= va < 0x4020_0000 then Mapped(va, 0x5C0E, 0)
           else if 0x8000_0000 <= va < 0x8001_0000 then Mapped(va, 1, 0x176)
           else if 0x8001_0000 <= va < 0x8003_0000 then Mapped(va, 1, 0x5035)
           else Fault
  {
    hide Walk, Run, Sound, Disjoint, TablesAgree, TableFaults, Writable;
    var calls := [MEGABYTES, SMALL_PAGES, LARGE_PAGES];
    NumbersSound(|m|);
    NumbersDisjoint();
    NumbersCover(va);
    assert CallTableFaults(m, MEGABYTES) && CallTableFaults(m, SMALL_PAGES) && CallTableFaults(m, LARGE_PAGES) by {
      EmptyAt(m, 0x2000);
    }
    hide Separate, TablesEmpty;
    IdentityMap(m, 0x1000, calls, va);
    assert calls[0] == MEGABYTES && calls[1] == SMALL_PAGES && calls[2] == LARGE_PAGES;
  }

  lemma EmptyAt(m: Words, table: nat)
    requires table + 256 <= |m| && forall i :: table <= i < table + 256 ==> m[i] % 4 == 0
    ensures TableFaults(m, table)
  {
  }

  lemma NumbersSound(size: nat)
    requires size >= 0x2100
    ensures Sound(MEGABYTES, 0x1000, size) && Sound(SMALL_PAGES, 0x1000, size) && Sound(LARGE_PAGES, 0x1000, size)
    ensures TablesAgree(MEGABYTES, SMALL_PAGES) && TablesAgree(MEGABYTES, LARGE_PAGES) && TablesAgree(SMALL_PAGES, LARGE_PAGES)
  {
  }

  lemma NumbersCover(va: Word)
    ensures MEGABYTES.Covers(va) <==> 0x4000_0000 <= va < 0x4020_0000
    ensures SMALL_PAGES.Covers(va) <==> 0x8000_0000 <= va < 0x8001_0000
    ensures LARGE_PAGES.Covers(va) <==> 0x8001_0000 <= va < 0x8003_0000
  {
    CoversMeaning(MEGABYTES, va);
    CoversMeaning(SMALL_PAGES, va);
    CoversMeaning(LARGE_PAGES, va);
  }

  lemma NumbersDisjoint()
    ensures Disjoint(MEGABYTES, SMALL_PAGES) && Disjoint(MEGABYTES, LARGE_PAGES) && Disjoint(SMALL_PAGES, LARGE_PAGES)
  {
    forall va: Word
      ensures !(MEGABYTES.Covers(va) && SMALL_PAGES.Covers(va)) && !(MEGABYTES.Covers(va) && LARGE_PAGES.Covers(va))
      ensures !(SMALL_PAGES.Covers(va) && LARGE_PAGES.Covers(va))
    {
      NumbersCover(va);
    }
  }
}
