/** Cortex-A short-descriptor format: the attribute setters of core_ca.h, the two
    descriptor builders, and the decoding that the hardware applies to the words they build
    (ARM Architecture Reference Manual, ARMv7-A and ARMv7-R edition, DDI 0406C, section B3.5.1
    for the formats, B3.7.1 for the simplified access permissions and B3.8.2 for TEX, C and B). */
module Descriptors {

  type Word = bv32

  datatype RegionSize = SectionSize | Page4kSize | Page64kSize
  datatype MemoryKind = Normal | Device | SharedDevice | NonSharedDevice | StronglyOrdered
  datatype Cacheability = NonCacheable | WbWa | Wt | WbNoWa
  datatype Access = NoAccess | ReadWrite | Read

  /** The attributes a caller asks for. The two-valued enumerations of the source are booleans. */
  datatype Region = Region(
    size: RegionSize, mem: MemoryKind, domain: bv8, inner: Cacheability, outer: Cacheability,
    ecc: bool, nonExecute: bool, nonGlobal: bool, nonSecure: bool,
    priv: Access, user: Access, shared: bool)

  // ---- what the hardware reads ------------------------------------------------------------

  datatype Grant = Grant(priv: Access, user: Access)

  /** `ReservedMemory` stands for every TEX, C, B combination no setter here means to produce. */
  datatype Memory = StrongMemory | SharedDeviceMemory | PrivateDeviceMemory
    | NormalMemory(outer: Cacheability, inner: Cacheability) | ReservedMemory

  datatype Attributes = Attributes(
    memory: Memory, nonExecute: bool, domain: Word, ecc: bool, grant: Grant,
    shared: bool, nonGlobal: bool, nonSecure: bool)

  function Policy(code: Word): Cacheability {
    if code == 0 then NonCacheable else if code == 1 then WbWa else if code == 2 then Wt else WbNoWa
  }

  function DecodeMemory(tex: Word, cb: Word): Memory {
    if tex & 4 == 4 then NormalMemory(Policy(tex & 3), Policy(cb))
    else if tex == 0 && cb == 0 then StrongMemory
    else if tex == 0 && cb == 1 then SharedDeviceMemory
    else if tex == 2 && cb == 0 then PrivateDeviceMemory
    else ReservedMemory
  }

  /** Simplified access model: AP[0] is the access flag, AP[1] admits user mode, AP[2] denies writes. */
  function DecodeAccess(ap2: Word, ap: Word): Grant {
    if ap & 1 == 0 then Grant(NoAccess, NoAccess)
    else
      var level := if ap2 == 1 then Read else ReadWrite;
      Grant(level, if ap & 2 == 2 then level else NoAccess)
  }

  /** Full access model, for AFE = 0: AP[2:0] as one number. */
  function DecodeFullAccess(ap2: Word, ap: Word): Grant {
    if ap2 == 0 then
      if ap == 0 then Grant(NoAccess, NoAccess) else if ap == 1 then Grant(ReadWrite, NoAccess)
      else if ap == 2 then Grant(ReadWrite, Read) else Grant(ReadWrite, ReadWrite)
    else if ap == 1 then Grant(Read, NoAccess)
    else if ap == 2 || ap == 3 then Grant(Read, Read)
    else Grant(NoAccess, NoAccess)
  }

  function DecodeSection(w: Word): Attributes {
    Attributes(DecodeMemory((w >> 12) & 7, (w >> 2) & 3), (w >> 4) & 1 == 1, (w >> 5) & 0xF,
               (w >> 9) & 1 == 1, DecodeAccess((w >> 15) & 1, (w >> 10) & 3),
               (w >> 16) & 1 == 1, (w >> 17) & 1 == 1, (w >> 19) & 1 == 1)
  }

  function DecodeSmallPage(l1: Word, w: Word): Attributes {
    Attributes(DecodeMemory((w >> 6) & 7, (w >> 2) & 3), w & 1 == 1, (l1 >> 5) & 0xF,
               (l1 >> 9) & 1 == 1, DecodeAccess((w >> 9) & 1, (w >> 4) & 3),
               (w >> 10) & 1 == 1, (w >> 11) & 1 == 1, (l1 >> 3) & 1 == 1)
  }

  function DecodeLargePage(l1: Word, w: Word): Attributes {
    Attributes(DecodeMemory((w >> 12) & 7, (w >> 2) & 3), (w >> 15) & 1 == 1, (l1 >> 5) & 0xF,
               (l1 >> 9) & 1 == 1, DecodeAccess((w >> 9) & 1, (w >> 4) & 3),
               (w >> 10) & 1 == 1, (w >> 11) & 1 == 1, (l1 >> 3) & 1 == 1)
  }

  /** The rows of the access permission tables of section B3.7.1, simplified and full, ... */
  lemma AccessRows()
    ensures DecodeAccess(0, 0) == Grant(NoAccess, NoAccess) && DecodeAccess(1, 0) == Grant(NoAccess, NoAccess)
    ensures DecodeAccess(0, 1) == Grant(ReadWrite, NoAccess) && DecodeAccess(0, 3) == Grant(ReadWrite, ReadWrite)
    ensures DecodeAccess(1, 1) == Grant(Read, NoAccess) && DecodeAccess(1, 3) == Grant(Read, Read)
    ensures DecodeAccess(0, 2) == DecodeAccess(1, 2) == Grant(NoAccess, NoAccess)
    ensures DecodeFullAccess(0, 0) == Grant(NoAccess, NoAccess) && DecodeFullAccess(0, 1) == Grant(ReadWrite, NoAccess)
    ensures DecodeFullAccess(0, 2) == Grant(ReadWrite, Read) && DecodeFullAccess(0, 3) == Grant(ReadWrite, ReadWrite)
    ensures DecodeFullAccess(1, 1) == Grant(Read, NoAccess)
    ensures DecodeFullAccess(1, 2) == DecodeFullAccess(1, 3) == Grant(Read, Read)
    ensures DecodeFullAccess(1, 0) == Grant(NoAccess, NoAccess)
  {
  }

  /** ... and of the memory attribute tables of section B3.8.2. */
  lemma MemoryRows(cb: Word)
    requires cb <= 3
    ensures DecodeMemory(0, 0) == StrongMemory && DecodeMemory(0, 1) == SharedDeviceMemory
    ensures DecodeMemory(2, 0) == PrivateDeviceMemory
    ensures DecodeMemory(0, 2) == DecodeMemory(0, 3) == DecodeMemory(1, cb) == DecodeMemory(3, cb) == ReservedMemory
    ensures cb != 0 ==> DecodeMemory(2, cb) == ReservedMemory
    ensures DecodeMemory(4, cb) == NormalMemory(NonCacheable, Policy(cb)) && DecodeMemory(5, cb) == NormalMemory(WbWa, Policy(cb))
    ensures DecodeMemory(6, cb) == NormalMemory(Wt, Policy(cb)) && DecodeMemory(7, cb) == NormalMemory(WbNoWa, Policy(cb))
    ensures Policy(0) == NonCacheable && Policy(1) == WbWa && Policy(2) == Wt && Policy(3) == WbNoWa
  {
  }

  /** Where a section keeps its attributes, as masks, with one word of each kind of memory ... */
  lemma SectionLayout(w: Word)
    ensures var a := DecodeSection(w);
      && (a.nonExecute <==> w & 0x10 == 0x10) && (a.ecc <==> w & 0x200 == 0x200) && a.domain << 5 == w & 0x1E0
      && (a.shared <==> w & 0x1_0000 == 0x1_0000) && (a.nonGlobal <==> w & 0x2_0000 == 0x2_0000)
      && (a.nonSecure <==> w & 0x8_0000 == 0x8_0000)
    ensures DecodeSection(w).grant.priv == NoAccess <==> w & 0x400 == 0
    ensures DecodeSection(w).grant.user == NoAccess <==> w & 0xC00 != 0xC00
    ensures w & 0x8400 == 0x8400 <==> DecodeSection(w).grant.priv == Read
    ensures DecodeSection(0x0_5C06) == Attributes(NormalMemory(WbWa, WbWa), false, 0, false, Grant(ReadWrite, ReadWrite), false, false, false)
    ensures DecodeSection(0x1_0416) == Attributes(SharedDeviceMemory, true, 0, false, Grant(ReadWrite, NoAccess), true, false, false)
    ensures DecodeSection(0x0_AFF2) == Attributes(PrivateDeviceMemory, true, 15, true, Grant(Read, Read), false, false, false)
    ensures DecodeSection(0x0_0002) == Attributes(StrongMemory, false, 0, false, Grant(NoAccess, NoAccess), false, false, false)
  {
  }

  /** ... and where the two page formats do. */
  lemma PageLayout(l1: Word, w: Word)
    ensures var a, b := DecodeSmallPage(l1, w), DecodeLargePage(l1, w);
      && (a.nonExecute <==> w & 1 == 1) && (b.nonExecute <==> w & 0x8000 == 0x8000)
      && a.domain << 5 == b.domain << 5 == l1 & 0x1E0 && (a.ecc <==> l1 & 0x200 == 0x200) && (b.ecc <==> a.ecc)
      && (a.nonSecure <==> l1 & 8 == 8) && (b.nonSecure <==> a.nonSecure)
      && (a.shared <==> w & 0x400 == 0x400) && (b.shared <==> a.shared)
      && (a.nonGlobal <==> w & 0x800 == 0x800) && (b.nonGlobal <==> a.nonGlobal)
      && (a.grant.priv == NoAccess <==> w & 0x10 == 0) && (a.grant.user == NoAccess <==> w & 0x30 != 0x30)
      && (a.grant.priv == Read <==> w & 0x210 == 0x210) && b.grant == a.grant
    ensures DecodeSmallPage(1, 0x176) == Attributes(NormalMemory(WbWa, WbWa), false, 0, false, Grant(ReadWrite, ReadWrite), false, false, false)
    ensures DecodeLargePage(1, 0x5035) == Attributes(NormalMemory(WbWa, WbWa), false, 0, false, Grant(ReadWrite, ReadWrite), false, false, false)
    ensures DecodeSmallPage(1, 0x92).memory == DecodeLargePage(1, 0x2011).memory == PrivateDeviceMemory
    ensures DecodeSmallPage(1, 0x16).memory == DecodeLargePage(1, 0x15).memory == SharedDeviceMemory
  {
  }

  // ---- what the builders achieve, and what was asked for -----------------------------------

  /** The grants AFE = 1 can express; every other pair ends as no access. */
  function Simplified(priv: Access, user: Access): Grant {
    if priv != NoAccess && (user == priv || user == NoAccess) then Grant(priv, user)
    else Grant(NoAccess, NoAccess)
  }

  /** The grants AFE = 0 can express: user mode never has more than privileged mode. */
  function Full(priv: Access, user: Access): Grant {
    if priv == ReadWrite || (priv == Read && user != ReadWrite) then Grant(priv, user)
    else Grant(NoAccess, NoAccess)
  }

  function BuiltMemory(mem: MemoryKind, outer: Cacheability, inner: Cacheability): Memory {
    match mem
    case Normal => NormalMemory(if outer == WbNoWa then WbWa else outer, inner)
    case SharedDevice => SharedDeviceMemory
    case NonSharedDevice => PrivateDeviceMemory
    case StronglyOrdered => StrongMemory
    case Device => StrongMemory
  }

  /** The builders hand privileged and user access to the setters in exchanged positions. */
  function Built(reg: Region): Attributes {
    Attributes(BuiltMemory(reg.mem, reg.outer, reg.inner), reg.nonExecute, (reg.domain & 0xF) as Word,
               reg.ecc, Simplified(reg.user, reg.priv), reg.shared, reg.nonGlobal, reg.nonSecure)
  }

  predicate HonoursMemory(got: Memory, mem: MemoryKind, outer: Cacheability, inner: Cacheability) {
    match mem
    case Normal => got == NormalMemory(outer, inner)
    case Device => got == SharedDeviceMemory || got == PrivateDeviceMemory
    case SharedDevice => got == SharedDeviceMemory
    case NonSharedDevice => got == PrivateDeviceMemory
    case StronglyOrdered => got == StrongMemory
  }

  /** The decoded attributes are exactly those the caller asked for. */
  predicate Honours(got: Attributes, reg: Region) {
    && HonoursMemory(got.memory, reg.mem, reg.outer, reg.inner)
    && got.grant == Grant(reg.priv, reg.user)
    && got.domain == reg.domain as Word
    && got.nonExecute == reg.nonExecute && got.ecc == reg.ecc
    && got.shared == reg.shared && got.nonGlobal == reg.nonGlobal && got.nonSecure == reg.nonSecure
  }

  /** What a caller can check before the call. */
  predicate Expressible(reg: Region) {
    && reg.priv == reg.user
    && reg.mem != Device
    && !(reg.mem == Normal && reg.outer == WbNoWa)
    && reg.domain < 16
  }

  /** A region comes out as requested exactly when it is expressible. */
  lemma HonouredExactlyWhenExpressible(reg: Region)
    ensures Honours(Built(reg), reg) <==> Expressible(reg)
  {
    assert (reg.domain & 0xF) as Word == reg.domain as Word <==> reg.domain < 16;
  }

  /** A region's own attributes are honoured and no others are; DEVICE leaves open which device type. */
  lemma OnlyRequestedHonoured(reg: Region, got: Attributes)
    ensures Honours(got, reg) <==>
      && got == Attributes(got.memory, reg.nonExecute, reg.domain as Word, reg.ecc, Grant(reg.priv, reg.user),
                           reg.shared, reg.nonGlobal, reg.nonSecure)
      && match reg.mem
         case Normal => got.memory == NormalMemory(reg.outer, reg.inner)
         case Device => got.memory == SharedDeviceMemory || got.memory == PrivateDeviceMemory
         case SharedDevice => got.memory == SharedDeviceMemory
         case NonSharedDevice => got.memory == PrivateDeviceMemory
         case StronglyOrdered => got.memory == StrongMemory
  {
  }

  /** What the builders' exchange of privileged and user access comes to: equal access is granted as
      asked, access for privileged mode alone is granted to nobody, access for user mode alone goes to
      privileged mode alone, and unequal access is granted to nobody. */
  lemma BuiltMeaning(reg: Region)
    ensures var grant := Built(reg).grant;
      && (grant.user != NoAccess ==> reg.priv == reg.user == grant.user == grant.priv)
      && (forall a: Access | a != NoAccess :: grant == Grant(a, NoAccess) <==> reg.user == a && reg.priv == NoAccess)
      && (forall a: Access | a != NoAccess :: grant == Grant(a, a) <==> reg.priv == reg.user == a)
    ensures var memory := Built(reg).memory;
      && (reg.mem == Normal && reg.outer != WbNoWa ==> memory == NormalMemory(reg.outer, reg.inner))
      && (reg.mem == Normal && reg.outer == WbNoWa ==> memory == NormalMemory(WbWa, reg.inner))
      && (memory == SharedDeviceMemory <==> reg.mem == SharedDevice)
      && (memory == PrivateDeviceMemory <==> reg.mem == NonSharedDevice)
      && (memory == StrongMemory <==> reg.mem == Device || reg.mem == StronglyOrdered)
    ensures var a := Built(reg);
      && a.domain == (reg.domain % 16) as Word && a.nonExecute == reg.nonExecute && a.ecc == reg.ecc
      && a.shared == reg.shared && a.nonGlobal == reg.nonGlobal && a.nonSecure == reg.nonSecure
  {
    DomainNibble(reg.domain);
    GrantMeaning(reg.priv, reg.user);
    MemoryMeaning(reg.mem, reg.outer, reg.inner);
    hide BuiltMemory, Simplified;
  }

  lemma DomainNibble(domain: bv8)
    ensures domain & 0xF == domain % 16
  {
  }

  lemma GrantMeaning(priv: Access, user: Access)
    ensures var grant := Simplified(user, priv);
      && (grant.user != NoAccess ==> priv == user == grant.user == grant.priv)
      && (forall a: Access | a != NoAccess :: grant == Grant(a, NoAccess) <==> user == a && priv == NoAccess)
      && (forall a: Access | a != NoAccess :: grant == Grant(a, a) <==> priv == user == a)
  {
  }

  lemma MemoryMeaning(mem: MemoryKind, outer: Cacheability, inner: Cacheability)
    ensures var memory := BuiltMemory(mem, outer, inner);
      && (mem == Normal && outer != WbNoWa ==> memory == NormalMemory(outer, inner))
      && (mem == Normal && outer == WbNoWa ==> memory == NormalMemory(WbWa, inner))
      && (memory == SharedDeviceMemory <==> mem == SharedDevice)
      && (memory == PrivateDeviceMemory <==> mem == NonSharedDevice)
      && (memory == StrongMemory <==> mem == Device || mem == StronglyOrdered)
  {
  }

  /** The two access models: what each grants as asked, and that it grants nothing otherwise. */
  lemma AccessModels(priv: Access, user: Access)
    ensures Simplified(priv, user) == Grant(priv, user) <==> user == priv || user == NoAccess
    ensures Simplified(priv, user) != Grant(priv, user) ==> Simplified(priv, user) == Grant(NoAccess, NoAccess)
    ensures Full(priv, user) == Grant(priv, user) <==> user == priv || user == NoAccess || priv == ReadWrite
    ensures Full(priv, user) != Grant(priv, user) ==> Full(priv, user) == Grant(NoAccess, NoAccess)
  {
  }

  /** The two policies of normal memory, then TEX, and C and B as one number, as the setters encode them. */
  function OuterCode(outer: Cacheability): (code: Word)
    ensures code <= 3
  {
    match outer case NonCacheable => 0 case WbWa => 1 case Wt => 2 case WbNoWa => 1
  }

  function InnerCode(inner: Cacheability): (code: Word)
    ensures code <= 3
  {
    match inner case NonCacheable => 0 case WbWa => 1 case Wt => 2 case WbNoWa => 3
  }

  function TexCode(mem: MemoryKind, outer: Cacheability): (tex: Word)
    ensures tex <= 7
  {
    if mem == Normal then 4 | OuterCode(outer) else if mem == NonSharedDevice then 2 else 0
  }

  function CbCode(mem: MemoryKind, inner: Cacheability): (cb: Word)
    ensures cb <= 3
  {
    if mem == Normal then InnerCode(inner) else if mem == SharedDevice then 1 else 0
  }

  lemma CodesDecode(mem: MemoryKind, outer: Cacheability, inner: Cacheability)
    ensures DecodeMemory(TexCode(mem, outer), CbCode(mem, inner)) == BuiltMemory(mem, outer, inner)
  {
  }

  function Bit(b: bool): (w: Word)
    ensures w <= 1 && (w == 1 <==> b)
  {
    if b then 1 else 0
  }

  /** Each setter frames the fields written before it, so every field survives to the end. */
  lemma SectionFields(w1: Word, w2: Word, w3: Word, w4: Word, w5: Word, w6: Word, w7: Word, w8: Word)
    requires w1 & 0xFFFF8FF3 == 0
    requires w2 & 0xFFFFFFEF == w1 & 0xFFFFFFEF && w3 & 0xFFFFFE1F == w2 & 0xFFFFFE1F
    requires w4 & 0xFFFFFDFF == w3 & 0xFFFFFDFF && w5 & 0xFFFF73FF == w4 & 0xFFFF73FF
    requires w6 & 0xFFFEFFFF == w5 & 0xFFFEFFFF && w7 & 0xFFFDFFFF == w6 & 0xFFFDFFFF
    requires w8 & 0xFFF7FFFF == w7 & 0xFFF7FFFF
    ensures var w := (w8 & 0xFFFFFFFC) | 2;
      && w & 0xFFF40003 == 2
      && (w >> 12) & 7 == (w1 >> 12) & 7 && (w >> 2) & 3 == (w1 >> 2) & 3
      && (w >> 4) & 1 == (w2 >> 4) & 1 && (w >> 5) & 0xF == (w3 >> 5) & 0xF
      && (w >> 9) & 1 == (w4 >> 9) & 1
      && (w >> 15) & 1 == (w5 >> 15) & 1 && (w >> 10) & 3 == (w5 >> 10) & 3
      && (w >> 16) & 1 == (w6 >> 16) & 1 && (w >> 17) & 1 == (w7 >> 17) & 1
      && (w >> 19) & 1 == (w8 >> 19) & 1
  {
  }

  lemma SectionFromFields(w: Word, reg: Region)
    requires DecodeMemory((w >> 12) & 7, (w >> 2) & 3) == BuiltMemory(reg.mem, reg.outer, reg.inner)
    requires DecodeAccess((w >> 15) & 1, (w >> 10) & 3) == Simplified(reg.user, reg.priv)
    requires (w >> 4) & 1 == Bit(reg.nonExecute) && (w >> 5) & 0xF == (reg.domain & 0xF) as Word
    requires (w >> 9) & 1 == Bit(reg.ecc) && (w >> 16) & 1 == Bit(reg.shared)
    requires (w >> 17) & 1 == Bit(reg.nonGlobal) && (w >> 19) & 1 == Bit(reg.nonSecure)
    ensures DecodeSection(w) == Built(reg)
  {
  }

  lemma SectionChain(w1: Word, w2: Word, w3: Word, w4: Word, w5: Word, w6: Word, w7: Word, w8: Word, reg: Region)
    requires w1 & 0xFFFF8FF3 == 0
    requires DecodeMemory((w1 >> 12) & 7, (w1 >> 2) & 3) == BuiltMemory(reg.mem, reg.outer, reg.inner)
    requires w2 & 0xFFFFFFEF == w1 & 0xFFFFFFEF && (w2 >> 4) & 1 == Bit(reg.nonExecute)
    requires w3 & 0xFFFFFE1F == w2 & 0xFFFFFE1F && (w3 >> 5) & 0xF == (reg.domain & 0xF) as Word
    requires w4 & 0xFFFFFDFF == w3 & 0xFFFFFDFF && (w4 >> 9) & 1 == Bit(reg.ecc)
    requires w5 & 0xFFFF73FF == w4 & 0xFFFF73FF
    requires DecodeAccess((w5 >> 15) & 1, (w5 >> 10) & 3) == Simplified(reg.user, reg.priv)
    requires w6 & 0xFFFEFFFF == w5 & 0xFFFEFFFF && (w6 >> 16) & 1 == Bit(reg.shared)
    requires w7 & 0xFFFDFFFF == w6 & 0xFFFDFFFF && (w7 >> 17) & 1 == Bit(reg.nonGlobal)
    requires w8 & 0xFFF7FFFF == w7 & 0xFFF7FFFF && (w8 >> 19) & 1 == Bit(reg.nonSecure)
    ensures var w := (w8 & 0xFFFFFFFC) | 2;
      w & 0xFFF40003 == 2 && DecodeSection(w) == Built(reg)
  {
    SectionFields(w1, w2, w3, w4, w5, w6, w7, w8);
    SectionFromFields((w8 & 0xFFFFFFFC) | 2, reg);
  }

  /** First-level page word: domain, parity bit and security, then the type. */
  lemma PageTableFields(w1: Word, w2: Word, w3: Word)
    requires w1 & 0xFFFFFE1F == 0
    requires w2 & 0xFFFFFDFF == w1 & 0xFFFFFDFF && w3 & 0xFFFFFFF7 == w2 & 0xFFFFFFF7
    ensures var w := (w3 & 0xFFFFFFFC) | 1;
      && w & 0xFFFFFC17 == 1
      && (w >> 5) & 0xF == (w1 >> 5) & 0xF && (w >> 9) & 1 == (w2 >> 9) & 1 && (w >> 3) & 1 == (w3 >> 3) & 1
  {
  }

  /** The first-level word of a page region: it depends on domain, parity bit and security alone. */
  function PageTableWord(reg: Region): Word {
    1 | (Bit(reg.nonSecure) << 3) | (((reg.domain & 0xF) as Word) << 5) | (Bit(reg.ecc) << 9)
  }

  lemma PageTableFromFields(w: Word, ns: Word, domain: Word, ecc: Word)
    requires ns <= 1 && domain <= 0xF && ecc <= 1 && w & 0xFFFFFC17 == 1
    requires (w >> 3) & 1 == ns && (w >> 5) & 0xF == domain && (w >> 9) & 1 == ecc
    ensures w == 1 | (ns << 3) | (domain << 5) | (ecc << 9)
  {
  }

  lemma SmallPageFields(v1: Word, v2: Word, v3: Word, v4: Word, v5: Word)
    requires v1 & 0xFFFFFE33 == 0
    requires v2 & 0xFFFFFFFE == v1 & 0xFFFFFFFE && v3 & 0xFFFFFDCF == v2 & 0xFFFFFDCF
    requires v4 & 0xFFFFFBFF == v3 & 0xFFFFFBFF && v5 & 0xFFFFF7FF == v4 & 0xFFFFF7FF
    ensures var v := (v5 & 0xFFFFFFFD) | 2;
      && v & 0xFFFFF002 == 2
      && (v >> 6) & 7 == (v1 >> 6) & 7 && (v >> 2) & 3 == (v1 >> 2) & 3
      && v & 1 == v2 & 1
      && (v >> 9) & 1 == (v3 >> 9) & 1 && (v >> 4) & 3 == (v3 >> 4) & 3
      && (v >> 10) & 1 == (v4 >> 10) & 1 && (v >> 11) & 1 == (v5 >> 11) & 1
  {
  }

  lemma LargePageFields(v1: Word, v2: Word, v3: Word, v4: Word, v5: Word)
    requires v1 & 0xFFFF8E33 == 0 && v1 & 0x1C0 == 0
    requires v2 & 0xFFFF7FFF == v1 & 0xFFFF7FFF && v3 & 0xFFFFFDCF == v2 & 0xFFFFFDCF
    requires v4 & 0xFFFFFBFF == v3 & 0xFFFFFBFF && v5 & 0xFFFFF7FF == v4 & 0xFFFFF7FF
    ensures var v := (v5 & 0xFFFFFFFC) | 1;
      && v & 0xFFFF01C3 == 1
      && (v >> 12) & 7 == (v1 >> 12) & 7 && (v >> 2) & 3 == (v1 >> 2) & 3
      && (v >> 15) & 1 == (v2 >> 15) & 1
      && (v >> 9) & 1 == (v3 >> 9) & 1 && (v >> 4) & 3 == (v3 >> 4) & 3
      && (v >> 10) & 1 == (v4 >> 10) & 1 && (v >> 11) & 1 == (v5 >> 11) & 1
  {
  }

  lemma SmallPageFromFields(l1: Word, v: Word, reg: Region)
    requires DecodeMemory((v >> 6) & 7, (v >> 2) & 3) == BuiltMemory(reg.mem, reg.outer, reg.inner)
    requires DecodeAccess((v >> 9) & 1, (v >> 4) & 3) == Simplified(reg.user, reg.priv)
    requires (l1 >> 5) & 0xF == (reg.domain & 0xF) as Word && (l1 >> 9) & 1 == Bit(reg.ecc)
    requires (l1 >> 3) & 1 == Bit(reg.nonSecure) && v & 1 == Bit(reg.nonExecute)
    requires (v >> 10) & 1 == Bit(reg.shared) && (v >> 11) & 1 == Bit(reg.nonGlobal)
    ensures DecodeSmallPage(l1, v) == Built(reg)
  {
  }

  lemma LargePageFromFields(l1: Word, v: Word, reg: Region)
    requires DecodeMemory((v >> 12) & 7, (v >> 2) & 3) == BuiltMemory(reg.mem, reg.outer, reg.inner)
    requires DecodeAccess((v >> 9) & 1, (v >> 4) & 3) == Simplified(reg.user, reg.priv)
    requires (l1 >> 5) & 0xF == (reg.domain & 0xF) as Word && (l1 >> 9) & 1 == Bit(reg.ecc)
    requires (l1 >> 3) & 1 == Bit(reg.nonSecure) && (v >> 15) & 1 == Bit(reg.nonExecute)
    requires (v >> 10) & 1 == Bit(reg.shared) && (v >> 11) & 1 == Bit(reg.nonGlobal)
    ensures DecodeLargePage(l1, v) == Built(reg)
  {
  }

  method XNSection(descriptor: Word, xn: bool) returns (result: Word)
    ensures result & 0xFFFFFFEF == descriptor & 0xFFFFFFEF && (result >> 4) & 1 == Bit(xn)
  {
    var w := descriptor & 0xFFFFFFEF;
    w := w | (Bit(xn) << 4);
    result := w;
  }

  /** Sections and page tables keep the domain in the same bits, so this is also MMU_DomainPage. */
  method DomainSection(descriptor: Word, domain: bv8) returns (result: Word)
    ensures result & 0xFFFFFE1F == descriptor & 0xFFFFFE1F
    ensures (result >> 5) & 0xF == (domain & 0xF) as Word
  {
    var w := descriptor & 0xFFFFFE1F;
    w := w | (((domain & 0xF) as Word) << 5);
    result := w;
  }

  /** Also MMU_PPage, which uses the section masks. */
  method PSection(descriptor: Word, ecc: bool) returns (result: Word)
    ensures result & 0xFFFFFDFF == descriptor & 0xFFFFFDFF && (result >> 9) & 1 == Bit(ecc)
  {
    var w := descriptor & 0xFFFFFDFF;
    w := w | (Bit(ecc) << 9);
    result := w;
  }

  /** `afe` selects the simplified model; the full model is written out as in the source. */
  method APSection(descriptor: Word, user: Access, priv: Access, afe: bool) returns (result: Word)
    ensures result & 0xFFFF73FF == descriptor & 0xFFFF73FF
    ensures afe ==> DecodeAccess((result >> 15) & 1, (result >> 10) & 3) == Simplified(priv, user)
    ensures afe && result & 0x400 == 0 ==> result & 0x8C00 == 0
    ensures !afe ==> DecodeFullAccess((result >> 15) & 1, (result >> 10) & 3) == Full(priv, user)
    ensures !afe ==> result & 0x8C00 != 0x8000 && result & 0x8C00 != 0x8800
  {
    var ap: Word := 0;
    if !afe {
      if priv == NoAccess && user == NoAccess { ap := 0; }
      else if priv == ReadWrite && user == NoAccess { ap := 1; }
      else if priv == ReadWrite && user == Read { ap := 2; }
      else if priv == ReadWrite && user == ReadWrite { ap := 3; }
      else if priv == Read && user == NoAccess { ap := 5; }
      else if priv == Read && user == Read { ap := 7; }
    } else {
      if priv == ReadWrite && user == NoAccess { ap := 1; }
      else if priv == ReadWrite && user == ReadWrite { ap := 3; }
      else if priv == Read && user == NoAccess { ap := 5; }
      else if priv == Read && user == Read { ap := 7; }
    }
    var w := descriptor & 0xFFFF73FF;
    w := w | ((ap & 3) << 10);
    w := w | (((ap & 4) >> 2) << 15);
    result := w;
  }

  method SharedSection(descriptor: Word, shared: bool) returns (result: Word)
    ensures result & 0xFFFEFFFF == descriptor & 0xFFFEFFFF && (result >> 16) & 1 == Bit(shared)
  {
    var w := descriptor & 0xFFFEFFFF;
    w := w | (Bit(shared) << 16);
    result := w;
  }

  method GlobalSection(descriptor: Word, nonGlobal: bool) returns (result: Word)
    ensures result & 0xFFFDFFFF == descriptor & 0xFFFDFFFF && (result >> 17) & 1 == Bit(nonGlobal)
  {
    var w := descriptor & 0xFFFDFFFF;
    w := w | (Bit(nonGlobal) << 17);
    result := w;
  }

  method SecureSection(descriptor: Word, nonSecure: bool) returns (result: Word)
    ensures result & 0xFFF7FFFF == descriptor & 0xFFF7FFFF && (result >> 19) & 1 == Bit(nonSecure)
  {
    var w := descriptor & 0xFFF7FFFF;
    w := w | (Bit(nonSecure) << 19);
    result := w;
  }

  /** Codes set in their fields, section layout: what is kept, what is read back, and the setter's order
      of setting them for normal memory. */
  lemma SectionCodes(d: Word, tex: Word, cb: Word)
    requires tex <= 7 && cb <= 3
    ensures var w := (d & 0xFFFF8FF3) | (tex << 12) | (cb << 2);
      w & 0xFFFF8FF3 == d & 0xFFFF8FF3 && (w >> 12) & 7 == tex && (w >> 2) & 3 == cb
  {
  }

  lemma SectionOrder(b: Word, outer: Word, cb: Word)
    requires outer <= 3 && cb <= 3
    ensures b | (1 << 14) | (cb << 2) | (outer << 12) == b | ((4 | outer) << 12) | (cb << 2)
  {
  }

  /** The same in the small-page layout. */
  lemma PageCodes(d: Word, tex: Word, cb: Word)
    requires tex <= 7 && cb <= 3
    ensures var w := (d & 0xFFFFFE33) | (tex << 6) | (cb << 2);
      w & 0xFFFFFE33 == d & 0xFFFFFE33 && (w >> 6) & 7 == tex && (w >> 2) & 3 == cb
  {
  }

  lemma PageOrder(b: Word, outer: Word, cb: Word)
    requires outer <= 3 && cb <= 3
    ensures b | (1 << 8) | (cb << 2) | (outer << 6) == b | ((4 | outer) << 6) | (cb << 2)
  {
  }

  /** The switch over the inner policy, the same in both layouts. */
  method InnerPolicy(descriptor: Word, inner: Cacheability) returns (result: Word)
    ensures result == descriptor | (InnerCode(inner) << 2)
  {
    var w := descriptor;
    match inner {
      case NonCacheable =>
      case WbWa => w := w | (1 << 2);
      case Wt => w := w | (1 << 3);
      case WbNoWa => w := w | (1 << 2) | (1 << 3);
    }
    result := w;
  }

  /** The switch over the outer policy, whose last case sets one bit twice. */
  method OuterPolicySection(descriptor: Word, outer: Cacheability) returns (result: Word)
    ensures result == descriptor | (OuterCode(outer) << 12)
  {
    var w := descriptor;
    match outer {
      case NonCacheable =>
      case WbWa => w := w | (1 << 12);
      case Wt => w := w | (1 << 13);
      case WbNoWa => w := w | (1 << 12) | (1 << 12);
    }
    result := w;
  }

  method OuterPolicyPage(descriptor: Word, outer: Cacheability) returns (result: Word)
    ensures result == descriptor | (OuterCode(outer) << 6)
  {
    var w := descriptor;
    match outer {
      case NonCacheable =>
      case WbWa => w := w | (1 << 6);
      case Wt => w := w | (1 << 7);
      case WbNoWa => w := w | (1 << 6) | (1 << 6);
    }
    result := w;
  }

  /** The section setter; DEVICE takes no branch of the source. */
  method MemorySection(descriptor: Word, mem: MemoryKind, outer: Cacheability, inner: Cacheability)
    returns (result: Word)
    ensures result & 0xFFFF8FF3 == descriptor & 0xFFFF8FF3
    ensures DecodeMemory((result >> 12) & 7, (result >> 2) & 3) == BuiltMemory(mem, outer, inner)
  {
    hide DecodeMemory, BuiltMemory, OuterCode, InnerCode;
    CodesDecode(mem, outer, inner);
    SectionCodes(descriptor, TexCode(mem, outer), CbCode(mem, inner));
    var base := descriptor & 0xFFFF8FF3;
    if mem == StronglyOrdered {
      result := base;
    } else if mem == SharedDevice {
      result := base | (1 << 2);
    } else if mem == NonSharedDevice {
      result := base | (1 << 13);
    } else if mem == Normal {
      SectionOrder(base, OuterCode(outer), InnerCode(inner));
      var normal := base | (1 << 14);
      var withInner := InnerPolicy(normal, inner);
      var withOuter := OuterPolicySection(withInner, outer);
      result := withOuter;
    } else {
      result := base;
    }
  }

  lemma XNFields(d: Word, xn: Word)
    requires xn <= 1
    ensures var w := (d & 0xFFFFFFFE) | xn; w & 0xFFFFFFFE == d & 0xFFFFFFFE && w & 1 == xn
    ensures var w := (d & 0xFFFF7FFF) | (xn << 15); w & 0xFFFF7FFF == d & 0xFFFF7FFF && (w >> 15) & 1 == xn
  {
  }

  method XNPage(descriptor: Word, xn: bool, size: RegionSize) returns (result: Word)
    ensures size == Page4kSize ==> result & 0xFFFFFFFE == descriptor & 0xFFFFFFFE && result & 1 == Bit(xn)
    ensures size != Page4kSize ==> result & 0xFFFF7FFF == descriptor & 0xFFFF7FFF && (result >> 15) & 1 == Bit(xn)
  {
    hide Bit;
    XNFields(descriptor, Bit(xn));
    if size == Page4kSize {
      result := (descriptor & 0xFFFFFFFE) | Bit(xn);
    } else {
      result := (descriptor & 0xFFFF7FFF) | (Bit(xn) << 15);
    }
  }

  method APPage(descriptor: Word, user: Access, priv: Access, afe: bool) returns (result: Word)
    ensures result & 0xFFFFFDCF == descriptor & 0xFFFFFDCF
    ensures afe ==> DecodeAccess((result >> 9) & 1, (result >> 4) & 3) == Simplified(priv, user)
    ensures afe && result & 0x10 == 0 ==> result & 0x230 == 0
    ensures !afe ==> DecodeFullAccess((result >> 9) & 1, (result >> 4) & 3) == Full(priv, user)
    ensures !afe ==> result & 0x230 != 0x200 && result & 0x230 != 0x230
  {
    var ap: Word := 0;
    if !afe {
      if priv == NoAccess && user == NoAccess { ap := 0; }
      else if priv == ReadWrite && user == NoAccess { ap := 1; }
      else if priv == ReadWrite && user == Read { ap := 2; }
      else if priv == ReadWrite && user == ReadWrite { ap := 3; }
      else if priv == Read && user == NoAccess { ap := 5; }
      else if priv == Read && user == Read { ap := 6; }
    } else {
      if priv == ReadWrite && user == NoAccess { ap := 1; }
      else if priv == ReadWrite && user == ReadWrite { ap := 3; }
      else if priv == Read && user == NoAccess { ap := 5; }
      else if priv == Read && user == Read { ap := 7; }
    }
    var w := descriptor & 0xFFFFFDCF;
    w := w | ((ap & 3) << 4);
    w := w | (((ap & 4) >> 2) << 9);
    result := w;
  }

  method SharedPage(descriptor: Word, shared: bool) returns (result: Word)
    ensures result & 0xFFFFFBFF == descriptor & 0xFFFFFBFF && (result >> 10) & 1 == Bit(shared)
  {
    var w := descriptor & 0xFFFFFBFF;
    w := w | (Bit(shared) << 10);
    result := w;
  }

  method GlobalPage(descriptor: Word, nonGlobal: bool) returns (result: Word)
    ensures result & 0xFFFFF7FF == descriptor & 0xFFFFF7FF && (result >> 11) & 1 == Bit(nonGlobal)
  {
    var w := descriptor & 0xFFFFF7FF;
    w := w | (Bit(nonGlobal) << 11);
    result := w;
  }

  method SecurePage(descriptor: Word, nonSecure: bool) returns (result: Word)
    ensures result & 0xFFFFFFF7 == descriptor & 0xFFFFFFF7 && (result >> 3) & 1 == Bit(nonSecure)
  {
    var w := descriptor & 0xFFFFFFF7;
    w := w | (Bit(nonSecure) << 3);
    result := w;
  }

  /** The 4 KB arm. */
  method MemorySmallPage(descriptor: Word, mem: MemoryKind, outer: Cacheability, inner: Cacheability)
    returns (result: Word)
    ensures result & 0xFFFFFE33 == descriptor & 0xFFFFFE33
    ensures DecodeMemory((result >> 6) & 7, (result >> 2) & 3) == BuiltMemory(mem, outer, inner)
  {
    hide DecodeMemory, BuiltMemory, OuterCode, InnerCode;
    CodesDecode(mem, outer, inner);
    PageCodes(descriptor, TexCode(mem, outer), CbCode(mem, inner));
    var base := descriptor & 0xFFFFFE33;
    if mem == StronglyOrdered {
      result := base;
    } else if mem == SharedDevice {
      result := base | (1 << 2);
    } else if mem == NonSharedDevice {
      result := base | (1 << 7);
    } else if mem == Normal {
      PageOrder(base, OuterCode(outer), InnerCode(inner));
      var normal := base | (1 << 8);
      var withInner := InnerPolicy(normal, inner);
      var withOuter := OuterPolicyPage(withInner, outer);
      result := withOuter;
    } else {
      result := base;
    }
  }

  /** Clearing the small-page field and then the section field. */
  lemma ClearedTwice(d: Word, r: Word)
    requires r & 0xFFFF8FF3 == (d & 0xFFFFFE33) & 0xFFFF8FF3
    ensures r & 0xFFFF8E33 == d & 0xFFFF8E33 && r & 0x1C0 == 0
  {
  }

  /** The 64 KB arm: the 4 KB attribute mask first, then the section layout. */
  method MemoryLargePage(descriptor: Word, mem: MemoryKind, outer: Cacheability, inner: Cacheability)
    returns (result: Word)
    ensures result & 0xFFFF8E33 == descriptor & 0xFFFF8E33 && result & 0x1C0 == 0
    ensures DecodeMemory((result >> 12) & 7, (result >> 2) & 3) == BuiltMemory(mem, outer, inner)
  {
    hide DecodeMemory, BuiltMemory;
    var base := descriptor & 0xFFFFFE33;
    result := MemorySection(base, mem, outer, inner);
    ClearedTwice(descriptor, result);
  }

  /** Both page sizes. */
  method MemoryPage(descriptor: Word, mem: MemoryKind, outer: Cacheability, inner: Cacheability, size: RegionSize)
    returns (result: Word)
    ensures size == Page64kSize ==>
      && result & 0xFFFF8E33 == descriptor & 0xFFFF8E33 && result & 0x1C0 == 0
      && DecodeMemory((result >> 12) & 7, (result >> 2) & 3) == BuiltMemory(mem, outer, inner)
    ensures size != Page64kSize ==>
      && result & 0xFFFFFE33 == descriptor & 0xFFFFFE33
      && DecodeMemory((result >> 6) & 7, (result >> 2) & 3) == BuiltMemory(mem, outer, inner)
  {
    hide DecodeMemory, BuiltMemory;
    if size == Page64kSize {
      result := MemoryLargePage(descriptor, mem, outer, inner);
    } else {
      result := MemorySmallPage(descriptor, mem, outer, inner);
    }
  }

  /** Two results of one setter on words that differ in its own field at most are equal, so a setter
      applied twice is the setter applied once. First the fields that are copied as they are, ... */
  lemma CopyingSettersIdempotent(a: Word, b: Word)
    ensures a & 0xFFFFFFEF == b & 0xFFFFFFEF && (a >> 4) & 1 == (b >> 4) & 1 ==> a == b
    ensures a & 0xFFFFFE1F == b & 0xFFFFFE1F && (a >> 5) & 0xF == (b >> 5) & 0xF ==> a == b
    ensures a & 0xFFFFFDFF == b & 0xFFFFFDFF && (a >> 9) & 1 == (b >> 9) & 1 ==> a == b
    ensures a & 0xFFFEFFFF == b & 0xFFFEFFFF && (a >> 16) & 1 == (b >> 16) & 1 ==> a == b
    ensures a & 0xFFFDFFFF == b & 0xFFFDFFFF && (a >> 17) & 1 == (b >> 17) & 1 ==> a == b
    ensures a & 0xFFF7FFFF == b & 0xFFF7FFFF && (a >> 19) & 1 == (b >> 19) & 1 ==> a == b
    ensures a & 0xFFFFFFFE == b & 0xFFFFFFFE && a & 1 == b & 1 ==> a == b
    ensures a & 0xFFFF7FFF == b & 0xFFFF7FFF && (a >> 15) & 1 == (b >> 15) & 1 ==> a == b
    ensures a & 0xFFFFFBFF == b & 0xFFFFFBFF && (a >> 10) & 1 == (b >> 10) & 1 ==> a == b
    ensures a & 0xFFFFF7FF == b & 0xFFFFF7FF && (a >> 11) & 1 == (b >> 11) & 1 ==> a == b
    ensures a & 0xFFFFFFF7 == b & 0xFFFFFFF7 && (a >> 3) & 1 == (b >> 3) & 1 ==> a == b
  {
  }

  /** ... then memory types, ... */
  lemma MemorySettersIdempotent(a: Word, b: Word)
    ensures a & 0xFFFF8FF3 == b & 0xFFFF8FF3
      && DecodeMemory((a >> 12) & 7, (a >> 2) & 3) == DecodeMemory((b >> 12) & 7, (b >> 2) & 3) != ReservedMemory
      ==> a == b
    ensures a & 0xFFFFFE33 == b & 0xFFFFFE33
      && DecodeMemory((a >> 6) & 7, (a >> 2) & 3) == DecodeMemory((b >> 6) & 7, (b >> 2) & 3) != ReservedMemory
      ==> a == b
  {
    hide DecodeMemory;
    MemoryFields(a, b);
    SmallFields(a);
    SmallFields(b);
    MemoryCodes((a >> 12) & 7, (a >> 2) & 3, (b >> 12) & 7, (b >> 2) & 3);
    MemoryCodes((a >> 6) & 7, (a >> 2) & 3, (b >> 6) & 7, (b >> 2) & 3);
  }

  /** A word is its memory fields and the rest. */
  lemma MemoryFields(a: Word, b: Word)
    ensures a & 0xFFFF8FF3 == b & 0xFFFF8FF3 && (a >> 12) & 7 == (b >> 12) & 7 && (a >> 2) & 3 == (b >> 2) & 3 ==> a == b
    ensures a & 0xFFFFFE33 == b & 0xFFFFFE33 && (a >> 6) & 7 == (b >> 6) & 7 && (a >> 2) & 3 == (b >> 2) & 3 ==> a == b
  {
  }

  lemma SmallFields(w: Word)
    ensures (w >> 12) & 7 <= 7 && (w >> 6) & 7 <= 7 && (w >> 2) & 3 <= 3
    ensures (w >> 15) & 1 <= 1 && (w >> 10) & 3 <= 3 && (w >> 9) & 1 <= 1 && (w >> 4) & 3 <= 3
  {
  }

  /** No two codes name one memory. */
  lemma MemoryCodes(tex: Word, cb: Word, tex': Word, cb': Word)
    requires tex <= 7 && tex' <= 7 && cb <= 3 && cb' <= 3
    ensures DecodeMemory(tex, cb) == DecodeMemory(tex', cb') != ReservedMemory ==> tex == tex' && cb == cb'
  {
  }

  /** ... and access permissions. In the full model sections write read-only for both levels as 7 and
      pages as 6, and neither writes the reserved 4; ... */
  lemma FullAccessSettersIdempotent(a: Word, b: Word)
    ensures a & 0xFFFF73FF == b & 0xFFFF73FF
      && a & 0x8C00 != 0x8000 && a & 0x8C00 != 0x8800 && b & 0x8C00 != 0x8000 && b & 0x8C00 != 0x8800
      && DecodeFullAccess((a >> 15) & 1, (a >> 10) & 3) == DecodeFullAccess((b >> 15) & 1, (b >> 10) & 3)
      ==> a == b
    ensures a & 0xFFFFFDCF == b & 0xFFFFFDCF
      && a & 0x230 != 0x200 && a & 0x230 != 0x230 && b & 0x230 != 0x200 && b & 0x230 != 0x230
      && DecodeFullAccess((a >> 9) & 1, (a >> 4) & 3) == DecodeFullAccess((b >> 9) & 1, (b >> 4) & 3)
      ==> a == b
  {
    hide DecodeFullAccess;
    AccessFields(a, b);
    SmallFields(a);
    SmallFields(b);
    AccessBits(a);
    AccessBits(b);
    FullAccessCodes((a >> 15) & 1, (a >> 10) & 3, (b >> 15) & 1, (b >> 10) & 3);
    FullAccessCodes((a >> 9) & 1, (a >> 4) & 3, (b >> 9) & 1, (b >> 4) & 3);
  }

  lemma AccessFields(a: Word, b: Word)
    ensures a & 0xFFFF73FF == b & 0xFFFF73FF && (a >> 15) & 1 == (b >> 15) & 1 && (a >> 10) & 3 == (b >> 10) & 3 ==> a == b
    ensures a & 0xFFFFFDCF == b & 0xFFFFFDCF && (a >> 9) & 1 == (b >> 9) & 1 && (a >> 4) & 3 == (b >> 4) & 3 ==> a == b
  {
  }

  /** The codes that the setters avoid, in the bits of a word. */
  lemma AccessBits(w: Word)
    ensures w & 0x8C00 == 0x8000 <==> (w >> 15) & 1 == 1 && (w >> 10) & 3 == 0
    ensures w & 0x8C00 == 0x8800 <==> (w >> 15) & 1 == 1 && (w >> 10) & 3 == 2
    ensures w & 0x230 == 0x200 <==> (w >> 9) & 1 == 1 && (w >> 4) & 3 == 0
    ensures w & 0x230 == 0x230 <==> (w >> 9) & 1 == 1 && (w >> 4) & 3 == 3
    ensures (w & 0x400 == 0 ==> w & 0x8C00 == 0) ==>
      (w >> 10) & 3 == 1 || (w >> 10) & 3 == 3 || ((w >> 15) & 1 == 0 && (w >> 10) & 3 == 0)
    ensures (w & 0x10 == 0 ==> w & 0x230 == 0) ==>
      (w >> 4) & 3 == 1 || (w >> 4) & 3 == 3 || ((w >> 9) & 1 == 0 && (w >> 4) & 3 == 0)
  {
  }

  /** Two codes of one grant are no access as 0 and 4, or read-only for both levels as 6 and 7. */
  lemma FullAccessCodes(ap2: Word, ap: Word, ap2': Word, ap': Word)
    requires ap2 <= 1 && ap2' <= 1 && ap <= 3 && ap' <= 3
    ensures DecodeFullAccess(ap2, ap) == DecodeFullAccess(ap2', ap') ==>
      || (ap2 == ap2' && ap == ap')
      || (ap == 0 && ap' == 0)
      || (ap2 == 1 && ap2' == 1 && ap >= 2 && ap' >= 2)
  {
  }

  /** ... in the simplified model both clear the whole field for no access. */
  lemma AccessSettersIdempotent(a: Word, b: Word)
    ensures a & 0xFFFF73FF == b & 0xFFFF73FF
      && (a & 0x400 == 0 ==> a & 0x8C00 == 0) && (b & 0x400 == 0 ==> b & 0x8C00 == 0)
      && DecodeAccess((a >> 15) & 1, (a >> 10) & 3) == DecodeAccess((b >> 15) & 1, (b >> 10) & 3)
      ==> a == b
    ensures a & 0xFFFFFDCF == b & 0xFFFFFDCF
      && (a & 0x10 == 0 ==> a & 0x230 == 0) && (b & 0x10 == 0 ==> b & 0x230 == 0)
      && DecodeAccess((a >> 9) & 1, (a >> 4) & 3) == DecodeAccess((b >> 9) & 1, (b >> 4) & 3)
      ==> a == b
  {
    hide DecodeAccess;
    AccessFields(a, b);
    SmallFields(a);
    SmallFields(b);
    AccessBits(a);
    AccessBits(b);
    if (a & 0x400 == 0 ==> a & 0x8C00 == 0) && (b & 0x400 == 0 ==> b & 0x8C00 == 0) {
      AccessCodes((a >> 15) & 1, (a >> 10) & 3, (b >> 15) & 1, (b >> 10) & 3);
    }
    if (a & 0x10 == 0 ==> a & 0x230 == 0) && (b & 0x10 == 0 ==> b & 0x230 == 0) {
      AccessCodes((a >> 9) & 1, (a >> 4) & 3, (b >> 9) & 1, (b >> 4) & 3);
    }
  }

  lemma AccessCodes(ap2: Word, ap: Word, ap2': Word, ap': Word)
    requires ap2 <= 1 && ap2' <= 1 && ap <= 3 && ap' <= 3
    requires ap == 1 || ap == 3 || (ap2 == 0 && ap == 0)
    requires ap' == 1 || ap' == 3 || (ap2' == 0 && ap' == 0)
    ensures DecodeAccess(ap2, ap) == DecodeAccess(ap2', ap') ==> ap2 == ap2' && ap == ap'
  {
  }

  /** The section word decodes to what the builder achieves, is a plain section, and leaves
      the address field free. */
  method GetSectionDescriptor(reg: Region) returns (descriptor: Word)
    ensures descriptor & 0xFFF40003 == 2
    ensures DecodeSection(descriptor) == Built(reg)
    ensures Honours(DecodeSection(descriptor), reg) <==> Expressible(reg)
    ensures var grant := DecodeSection(descriptor).grant;
      && (grant.user != NoAccess ==> reg.priv == reg.user == grant.user == grant.priv)
      && (forall a: Access | a != NoAccess :: grant == Grant(a, NoAccess) <==> reg.user == a && reg.priv == NoAccess)
      && (forall a: Access | a != NoAccess :: grant == Grant(a, a) <==> reg.priv == reg.user == a)
    ensures var memory := DecodeSection(descriptor).memory;
      && (reg.mem == Normal ==> memory == NormalMemory(if reg.outer == WbNoWa then WbWa else reg.outer, reg.inner))
      && (reg.mem == Device || reg.mem == StronglyOrdered ==> memory == StrongMemory)
      && (reg.mem == SharedDevice ==> memory == SharedDeviceMemory)
      && (reg.mem == NonSharedDevice ==> memory == PrivateDeviceMemory)
    ensures DecodeSection(descriptor).domain == (reg.domain % 16) as Word
  {
    hide DecodeSection, Built, Honours, Expressible;
    BuiltMeaning(reg);
    var w1 := MemorySection(0, reg.mem, reg.outer, reg.inner);
    var w2 := XNSection(w1, reg.nonExecute);
    var w3 := DomainSection(w2, reg.domain);
    var w4 := PSection(w3, reg.ecc);
    var w5 := APSection(w4, reg.priv, reg.user, true);
    var w6 := SharedSection(w5, reg.shared);
    var w7 := GlobalSection(w6, reg.nonGlobal);
    var w8 := SecureSection(w7, reg.nonSecure);
    descriptor := (w8 & 0xFFFFFFFC) | 2;
    SectionChain(w1, w2, w3, w4, w5, w6, w7, w8, reg);
    HonouredExactlyWhenExpressible(reg);
  }

  /** The 4 KB arm of the page builder. */
  method GetSmallPageDescriptor(reg: Region) returns (descriptor: Word, second: Word)
    ensures descriptor & 0xFFFFFC17 == 1 && second & 0xFFFFF002 == 2
    ensures descriptor == PageTableWord(reg)
    ensures DecodeSmallPage(descriptor, second) == Built(reg)
  {
    var v1 := MemoryPage(0, reg.mem, reg.outer, reg.inner, Page4kSize);
    var v2 := XNPage(v1, reg.nonExecute, Page4kSize);
    var w1 := DomainSection(0, reg.domain);
    var w2 := PSection(w1, reg.ecc);
    var v3 := APPage(v2, reg.priv, reg.user, true);
    var v4 := SharedPage(v3, reg.shared);
    var v5 := GlobalPage(v4, reg.nonGlobal);
    var w3 := SecurePage(w2, reg.nonSecure);
    descriptor := (w3 & 0xFFFFFFFC) | 1;
    second := (v5 & 0xFFFFFFFD) | 2;
    PageTableFields(w1, w2, w3);
    PageTableFromFields(descriptor, Bit(reg.nonSecure), (reg.domain & 0xF) as Word, Bit(reg.ecc));
    SmallPageFields(v1, v2, v3, v4, v5);
    SmallPageFromFields(descriptor, second, reg);
  }

  /** The 64 KB arm of the page builder. */
  method GetLargePageDescriptor(reg: Region) returns (descriptor: Word, second: Word)
    ensures descriptor & 0xFFFFFC17 == 1 && second & 0xFFFF01C3 == 1
    ensures descriptor == PageTableWord(reg)
    ensures DecodeLargePage(descriptor, second) == Built(reg)
  {
    var v1 := MemoryPage(0, reg.mem, reg.outer, reg.inner, Page64kSize);
    var v2 := XNPage(v1, reg.nonExecute, Page64kSize);
    var w1 := DomainSection(0, reg.domain);
    var w2 := PSection(w1, reg.ecc);
    var v3 := APPage(v2, reg.priv, reg.user, true);
    var v4 := SharedPage(v3, reg.shared);
    var v5 := GlobalPage(v4, reg.nonGlobal);
    var w3 := SecurePage(w2, reg.nonSecure);
    descriptor := (w3 & 0xFFFFFFFC) | 1;
    second := (v5 & 0xFFFFFFFC) | 1;
    PageTableFields(w1, w2, w3);
    PageTableFromFields(descriptor, Bit(reg.nonSecure), (reg.domain & 0xF) as Word, Bit(reg.ecc));
    LargePageFields(v1, v2, v3, v4, v5);
    LargePageFromFields(descriptor, second, reg);
  }

  /** A section request is the source's error case: both words stay zero, which is a fault. */
  method GetPageDescriptor(reg: Region) returns (descriptor: Word, second: Word)
    ensures reg.size == SectionSize ==> descriptor == 0 && second == 0
    ensures reg.size != SectionSize ==> descriptor & 0xFFFFFC17 == 1 && descriptor == PageTableWord(reg)
    ensures reg.size == Page4kSize ==>
      && second & 0xFFFFF002 == 2
      && DecodeSmallPage(descriptor, second) == Built(reg)
      && (Honours(DecodeSmallPage(descriptor, second), reg) <==> Expressible(reg))
    ensures reg.size == Page64kSize ==>
      && second & 0xFFFF01C3 == 1
      && DecodeLargePage(descriptor, second) == Built(reg)
      && (Honours(DecodeLargePage(descriptor, second), reg) <==> Expressible(reg))
    ensures reg.size != SectionSize ==>
      var got := if reg.size == Page4kSize then DecodeSmallPage(descriptor, second) else DecodeLargePage(descriptor, second);
      var grant := got.grant;
      && (grant.user != NoAccess ==> reg.priv == reg.user == grant.user == grant.priv)
      && (forall a: Access | a != NoAccess :: grant == Grant(a, NoAccess) <==> reg.user == a && reg.priv == NoAccess)
      && (forall a: Access | a != NoAccess :: grant == Grant(a, a) <==> reg.priv == reg.user == a)
      && (reg.mem == Normal ==> got.memory == NormalMemory(if reg.outer == WbNoWa then WbWa else reg.outer, reg.inner))
      && (reg.mem == Device || reg.mem == StronglyOrdered ==> got.memory == StrongMemory)
      && (reg.mem == SharedDevice ==> got.memory == SharedDeviceMemory)
      && (reg.mem == NonSharedDevice ==> got.memory == PrivateDeviceMemory)
      && got.domain == (reg.domain % 16) as Word
  {
    hide DecodeSmallPage, DecodeLargePage, Built, Honours, Expressible, PageTableWord;
    BuiltMeaning(reg);
    HonouredExactlyWhenExpressible(reg);
    match reg.size {
      case Page4kSize => descriptor, second := GetSmallPageDescriptor(reg);
      case Page64kSize => descriptor, second := GetLargePageDescriptor(reg);
      case SectionSize => descriptor, second := 0, 0;
    }
  }
}
