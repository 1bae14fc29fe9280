/** Address translation with two-level page tables (translate_address in memory.c), which in
    supervisor and user mode stands behind every access: the walk, what it leaves in memory, and
    the comparison with section 4.3.2 of the RISC-V Privileged ISA (20190608). */
module Sv32 {
  import opened Words
  import opened Options
  import opened Memory
  import opened MemoryMap
  import opened Bytes
  import opened Decode
  import opened Fields
  import opened PhysicalMemory

  // ---------------------------------------------------------------- the walk

  /** vaddr_shift: the position of the index of a level. */
  function Shift(level: nat): nat {
    if level == 0 then 22 else 12
  }

  function Root(satp: Word): Word {
    Shl32(And32(satp, 0x3F_FFFF), 12)
  }

  function EntryAddress(base: Word, level: nat, v: Word): Word {
    Add32(base, Shl32(And32(Shr32(v, Shift(level)), 0x3FF), 2))
  }

  /** paddr */
  function Frame(pte: Word): Word {
    Shl32(Shr32(pte, 10), 12)
  }

  /** xwr: bit 0 is R, bit 1 is W, bit 2 is X. */
  function Rights(pte: Word): Word {
    And32(Shr32(pte, 1), 7)
  }

  /** accessed_or_dirty_flags */
  function Flags(purpose: Purpose): Word {
    Or32(0x40, if purpose == STORE then 0x80 else 0)
  }

  function InPage(frame: Word, level: nat, v: Word): Word {
    var mask := Sub32(Shl32(1, Shift(level)), 1);
    Or32(And32(v, mask), And32(frame, Not32(mask)))
  }

  /** The walk from the table of a level.  An entry outside RAM is read through no valid pointer,
      and a pointer in the last level leaves the physical address unset: no table. */
  function WalkFrom<D>(ram: Ram<D>, base: Word, level: nat, purpose: Purpose, v: Word): Translation<D>
    requires level <= 2
    decreases 2 - level
  {
    if level == 2 then NoTable
    else
      var at := EntryAddress(base, level, v);
      if Place(ram, at, 4).None? then NoTable
      else
        var pte := RamWord(ram, at);
        if And32(pte, 1) == 0 then PageFault(ram)
        else if Rights(pte) == 0 then WalkFrom(ram, Frame(pte), level + 1, purpose, v)
        else if Rights(pte) == 2 || Rights(pte) == 6 then PageFault(ram)
        else Translated(Marked(ram, at, pte, purpose), InPage(Frame(pte), level, v))
  }

  /** The entry gets the flags that it lacks. */
  function Marked<D>(ram: Ram<D>, at: Word, pte: Word, purpose: Purpose): Ram<D> {
    if And32(pte, Flags(purpose)) != Flags(purpose) then PutWord(ram, at, Or32(pte, Flags(purpose))) else ram
  }

  function TranslateSv32<D>(ram: Ram<D>, a: Access, purpose: Purpose, v: Word): Translation<D> {
    WalkFrom(ram, Root(a.satp), 0, purpose, v)
  }

  /** translate_address, with its loop over the levels. */
  method TranslateAddress<D>(ram: Ram<D>, a: Access, purpose: Purpose, v: Word) returns (t: Translation<D>)
    ensures t == if a.privilege == 3 || a.satp < 0x8000_0000 then Translated(ram, v) else TranslateSv32(ram, a, purpose, v)
  {
    hide Root, EntryAddress, Frame, Rights, Flags, InPage, Place, RamWord, Shr32;
    if a.privilege == 3 {
      return Translated(ram, v);
    }
    ModeBit(a.satp);
    if Shr32(a.satp, 31) == 0 {
      return Translated(ram, v);
    }
    var base := Root(a.satp);
    for i := 0 to 2
      invariant TranslateSv32(ram, a, purpose, v) == WalkFrom(ram, base, i, purpose, v)
    {
      var at := EntryAddress(base, i, v);
      if Place(ram, at, 4).None? {
        return NoTable;
      }
      var pte := RamWord(ram, at);
      if And32(pte, 1) == 0 {
        return PageFault(ram);
      }
      if Rights(pte) != 0 {
        if Rights(pte) == 2 || Rights(pte) == 6 {
          return PageFault(ram);
        }
        var ram' := ram;
        if And32(pte, Flags(purpose)) != Flags(purpose) {
          ram' := PutWord(ram, at, Or32(pte, Flags(purpose)));
        }
        return Translated(ram', InPage(Frame(pte), i, v));
      }
      base := Frame(pte);
    }
    return NoTable;
  }

  lemma ModeBit(satp: Word)
    ensures Shr32(satp, 31) == 0 <==> satp < 0x8000_0000
  {
    Pow2Values();
    HighLowAt(satp, 31, 0x8000_0000);
  }

  /** The memory system with this walk behind it. */
  function Sv32System<D>(read: (D, nat, Word, Width) -> (D, Word), write: (D, nat, Word, Word, Width) -> D): System<D> {
    System((ram, a, purpose, v) => TranslateSv32(ram, a, purpose, v), read, write)
  }

  // ---------------------------------------------------------------- in numbers

  lemma RootNumber(satp: Word)
    ensures Root(satp) == satp % 0x40_0000 * 0x1000 % 0x1_0000_0000
  {
    hide And, Pow2, Scale;
    Pow2Values();
    Pow2Add(20, 2);
    AndOnesAt(satp, 22, 0x40_0000);
    ScaleAt(satp % 0x40_0000, 12, 0x1000);
  }

  lemma FrameNumber(pte: Word)
    ensures Frame(pte) == pte / 0x400 * 0x1000 % 0x1_0000_0000
  {
    hide High, Pow2, Scale;
    Pow2Values();
    HighLowAt(pte, 10, 0x400);
    ScaleAt(pte / 0x400, 12, 0x1000);
  }

  lemma FirstIndex(v: Word)
    ensures And32(Shr32(v, 22), 0x3FF) == v / 0x40_0000 < 0x400
  {
    hide And, High, Pow2;
    Pow2Values();
    Pow2Add(20, 2);
    HighLowAt(v, 22, 0x40_0000);
    AndOnesAt(v / 0x40_0000, 10, 0x400);
  }

  lemma SecondIndex(v: Word)
    ensures And32(Shr32(v, 12), 0x3FF) == v / 0x1000 % 0x400
  {
    hide And, High, Pow2;
    Pow2Values();
    HighLowAt(v, 12, 0x1000);
    AndOnesAt(v / 0x1000, 10, 0x400);
  }

  lemma TimesFour(i: Word)
    requires i < 0x400
    ensures Shl32(i, 2) == i * 4
  {
    hide Scale, Pow2;
    Pow2Values();
    ScaleAt(i, 2, 4);
  }

  /** The index of a level. */
  function IndexOf(level: nat, v: Word): (i: nat)
    ensures i < 0x400
  {
    if level == 0 then v / 0x40_0000 else v / 0x1000 % 0x400
  }

  lemma EntryNumber(base: Word, level: nat, v: Word)
    ensures IndexOf(level, v) < 0x400
    ensures EntryAddress(base, level, v) == (base + IndexOf(level, v) * 4) % 0x1_0000_0000
  {
    hide And32, Shr32, Shl32;
    FirstIndex(v);
    SecondIndex(v);
    TimesFour(IndexOf(level, v));
  }

  lemma RightsNumber(pte: Word)
    ensures And32(pte, 1) == pte % 2 && Rights(pte) == pte / 2 % 8
  {
    hide And, High, Pow2;
    Pow2Values();
    AndOnesAt(pte, 1, 2);
    HighLowAt(pte, 1, 2);
    AndOnesAt(pte / 2, 3, 8);
  }

  /** The size of the page that a leaf of a level maps. */
  function PageSize(level: nat): nat {
    if level == 0 then 0x40_0000 else 0x1000
  }

  lemma InPageNumber(frame: Word, level: nat, v: Word)
    ensures InPage(frame, level, v) == frame / PageSize(level) * PageSize(level) + v % PageSize(level)
  {
    hide And32, Or32, Shl32, Not32;
    Pow2Values();
    Pow2Add(20, 2);
    Pow2Add(22, 10);
    Pow2Add(12, 20);
    if level == 0 {
      MaskNumber(22, 0x40_0000);
      Replaced(frame, v, 22, 0x40_0000, 0x400);
    } else {
      MaskNumber(12, 0x1000);
      Replaced(frame, v, 12, 0x1000, 0x10_0000);
    }
  }

  lemma MaskNumber(k: nat, d: nat)
    requires d == Pow2(k) && 1 < d < 0x1_0000_0000
    ensures Sub32(Shl32(1, k), 1) == d - 1
  {
    hide Scale, Pow2;
    ScaleAt(1, k, d);
  }

  /** The low k digits of one word put below the others of another. */
  lemma Replaced(frame: Word, v: Word, k: nat, d: nat, rest: nat)
    requires k <= 32 && d == Pow2(k) && rest == Pow2(32 - k) && d * rest == 0x1_0000_0000 && d - 1 < 0x1_0000_0000
    ensures Or32(And32(v, d - 1), And32(frame, Not32(d - 1))) == frame / d * d + v % d
  {
    hide And, Or, High, Low, Scale, Pow2;
    AndOnesAt(v, k, d);
    UpperDigits(frame, k, d, rest);
    LowSmall(v % d, k);
    JoinedDigits(0, frame / d, k, d);
    NoCommonDigit(v % d, frame / d * d, k);
    OrDisjoint(v % d, frame / d * d);
  }

  lemma UpperDigits(frame: Word, k: nat, d: nat, rest: nat)
    requires k <= 32 && d == Pow2(k) && rest == Pow2(32 - k) && d * rest == 0x1_0000_0000 && d - 1 < 0x1_0000_0000
    ensures And32(frame, Not32(d - 1)) == frame / d * d
  {
    hide And, High, Low, Scale, Pow2;
    var ones := rest - 1;
    assert Not32(d - 1) == ones * d;
    JoinedDigits(0, ones, k, d);
    AndParts(frame, ones * d, k, d, 0, ones);
    AndZero(Low(frame, k));
    HighLowAt(frame, k, d);
    BelowRest(frame, d, rest);
    AndOnesAt(frame / d, 32 - k, rest);
  }

  lemma BelowRest(frame: Word, d: nat, rest: nat)
    requires d > 0 && d * rest == 0x1_0000_0000
    ensures frame / d < rest
  {
    if frame / d >= rest {
      TimesMonotone(d, rest, frame / d);
    }
  }

  lemma TimesMonotone(d: nat, m: nat, n: nat)
    requires m <= n
    ensures d * m <= d * n
  {
    assert d * (n - m) >= 0;
  }

  // ---------------------------------------------------------------- against the ISA

  /** The leaf that the algorithm of the ISA finds, or why it finds none: an invalid entry, a
      pointer in the last level, no memory, or an entry beyond the 32-bit addresses. */
  datatype Found = Leaf(at: Word, level: nat, pte: Word) | BadEntry | Dangling | NoEntry | Beyond

  /** The table that an entry points to. */
  function NextTable(pte: Word): nat {
    pte / 0x400 * 0x1000
  }

  /** V is clear, or W is set and R is clear. */
  predicate IsBad(pte: Word) {
    pte % 2 == 0 || (pte / 2 % 2 == 0 && pte / 4 % 2 == 1)
  }

  /** R or X is set. */
  predicate IsLeaf(pte: Word) {
    pte / 2 % 2 == 1 || pte / 8 % 2 == 1
  }

  function IsaFind<D>(ram: Ram<D>, base: nat, level: nat, v: Word): Found
    requires level <= 2
    decreases 2 - level
  {
    if level == 2 then Dangling
    else
      var at := base + IndexOf(level, v) * 4;
      if at >= 0x1_0000_0000 then Beyond
      else if Place(ram, at, 4).None? then NoEntry
      else
        var pte := RamWord(ram, at);
        if IsBad(pte) then BadEntry
        else if IsLeaf(pte) then Leaf(at, level, pte)
        else IsaFind(ram, NextTable(pte), level + 1, v)
  }

  /** Whether the rights in a leaf allow the access, by the SUM and MXR bits of mstatus. */
  predicate IsaPermits(pte: Word, purpose: Purpose, privilege: Word, sum: bool, mxr: bool) {
    var r, w, x, u := pte / 2 % 2 == 1, pte / 4 % 2 == 1, pte / 8 % 2 == 1, pte / 16 % 2 == 1;
    && (match purpose
        case FETCH => x
        case LOAD => r || (mxr && x)
        case STORE => w)
    && (if privilege == 0 then u else !u || (sum && purpose != FETCH))
  }

  /** A leaf in the first level maps four megabytes, which must be aligned. */
  predicate IsaAligned(level: nat, pte: Word) {
    level == 0 ==> pte / 0x400 % 0x400 == 0
  }

  /** The 34-bit physical address. */
  function IsaAddress(level: nat, pte: Word, v: Word): nat {
    if level == 0 then pte / 0x10_0000 * 0x40_0000 + v % 0x40_0000 else pte / 0x400 * 0x1000 + v % 0x1000
  }

  /** What the ISA makes of an address: the physical address, or none. */
  function IsaTranslation<D>(ram: Ram<D>, a: Access, purpose: Purpose, v: Word, sum: bool, mxr: bool): Option<nat> {
    match IsaFind(ram, a.satp % 0x40_0000 * 0x1000, 0, v)
    case Leaf(_, level, pte) =>
      if IsaPermits(pte, purpose, a.privilege, sum, mxr) && IsaAligned(level, pte) then Some(IsaAddress(level, pte, v)) else None
    case _ => None
  }

  /** One step of the walk in the terms of the ISA. */
  lemma RightsDigits(pte: Word)
    ensures var r, w, x := pte / 2 % 2, pte / 4 % 2, pte / 8 % 2;
            And32(pte, 1) == pte % 2 && Rights(pte) == r + 2 * w + 4 * x
  {
    hide And32, Shr32, Rights;
    RightsNumber(pte);
    DivDiv(pte, 2, 2);
    DivDiv(pte, 2, 4);
    ThreeDigits(pte / 2);
  }

  /** The tests of the walk are those of the ISA. */
  lemma TestsAre(pte: Word)
    ensures IsBad(pte) <==> And32(pte, 1) == 0 || Rights(pte) == 2 || Rights(pte) == 6
    ensures !IsBad(pte) ==> (IsLeaf(pte) <==> Rights(pte) != 0)
  {
    hide And32, Rights;
    RightsDigits(pte);
  }

  lemma ThreeDigits(n: nat)
    ensures n % 8 == n % 2 + n / 2 % 2 * 2 + n / 4 % 2 * 4
  {
    DivDiv(n, 2, 2);
    DivDiv(n, 2, 4);
    DivDiv(n, 4, 2);
  }

  lemma LeafAddress(pte: Word, level: nat, v: Word)
    requires level < 2
    ensures InPage(Frame(pte), level, v) == IsaAddress(level, pte, v) % 0x1_0000_0000
  {
    hide InPage, Frame;
    FrameNumber(pte);
    InPageNumber(Frame(pte), level, v);
    if level == 0 {
      SuperpageFrame(pte, v);
    } else {
      PageFrame(pte, v);
    }
  }

  lemma PageFrame(pte: Word, v: Word)
    ensures var frame := pte / 0x400 * 0x1000 % 0x1_0000_0000;
            frame / 0x1000 * 0x1000 + v % 0x1000 == (pte / 0x400 * 0x1000 + v % 0x1000) % 0x1_0000_0000
  {
    var n, low := pte / 0x400, v % 0x1000;
    var q, r := n / 0x10_0000, n % 0x10_0000;
    DivUnique(n * 0x1000, 0x1_0000_0000, q, r * 0x1000);
    DivUnique(r * 0x1000, 0x1000, r, 0);
    DivUnique(n * 0x1000 + low, 0x1_0000_0000, q, r * 0x1000 + low);
  }

  lemma SuperpageFrame(pte: Word, v: Word)
    ensures var frame := pte / 0x400 * 0x1000 % 0x1_0000_0000;
            frame / 0x40_0000 * 0x40_0000 + v % 0x40_0000 == (pte / 0x10_0000 * 0x40_0000 + v % 0x40_0000) % 0x1_0000_0000
  {
    var n, low := pte / 0x400, v % 0x40_0000;
    var q, r := n / 0x10_0000, n % 0x10_0000;
    DivUnique(n * 0x1000, 0x1_0000_0000, q, r * 0x1000);
    DivDiv(pte, 0x400, 0x400);
    var high, rest := r / 0x400, r % 0x400;
    DivUnique(r * 0x1000, 0x40_0000, high, rest * 0x1000);
    DivUnique(n, 0x400, q * 0x400 + high, rest);
    DivUnique((q * 0x400 + high) * 0x40_0000 + low, 0x1_0000_0000, q, high * 0x40_0000 + low);
  }

  lemma NextIsFrame(pte: Word)
    ensures Frame(pte) == NextTable(pte) % 0x1_0000_0000
  {
    hide Frame;
    FrameNumber(pte);
  }

  lemma EntryBelow(base: nat, level: nat, v: Word)
    ensures var at := base + IndexOf(level, v) * 4; at < 0x1_0000_0000 ==> EntryAddress(base % 0x1_0000_0000, level, v) == at
  {
    hide EntryAddress, IndexOf;
    EntryNumber(base % 0x1_0000_0000, level, v);
  }

  /** The walk of the emulator from a table is that of the ISA, but for two things that it does
      not check: the rights in the leaf, and the alignment of a superpage. */
  lemma {:induction false} WalkIs<D>(ram: Ram<D>, base: nat, level: nat, purpose: Purpose, v: Word)
    requires level <= 2
    ensures var walked := WalkFrom(ram, base % 0x1_0000_0000, level, purpose, v);
            match IsaFind(ram, base, level, v)
            case Leaf(at, level', pte) =>
              walked == Translated(Marked(ram, at, pte, purpose), IsaAddress(level', pte, v) % 0x1_0000_0000)
            case BadEntry => walked == PageFault(ram)
            case Dangling => walked == NoTable
            case NoEntry => walked == NoTable
            case Beyond => true
    decreases 2 - level
  {
    hide And32, Rights, Frame, InPage, EntryAddress, Marked, Place, RamWord, IsaAddress, IsBad, IsLeaf, IndexOf, NextTable;
    if level < 2 {
      EntryBelow(base, level, v);
      var at := base + IndexOf(level, v) * 4;
      if at < 0x1_0000_0000 && Place(ram, at as Word, 4).Some? {
        var pte := RamWord(ram, at);
        TestsAre(pte);
        NextIsFrame(pte);
        LeafAddress(pte, level, v);
        WalkIs(ram, NextTable(pte), level + 1, purpose, v);
      }
    }
  }

  /** Translation against the ISA, for every page table in RAM below 4 GB: wherever the ISA
      translates, the emulator translates alike; wherever the emulator raises a page fault, so
      does the ISA; and where the emulator translates, the ISA does exactly if the leaf permits
      the access and is aligned. */
  lemma TranslatesAsIsa<D>(ram: Ram<D>, a: Access, purpose: Purpose, v: Word, sum: bool, mxr: bool)
    requires var f := IsaFind(ram, a.satp % 0x40_0000 * 0x1000, 0, v); f.Leaf? || f.BadEntry? || f.Dangling?
    ensures var isa, t := IsaTranslation(ram, a, purpose, v, sum, mxr), TranslateSv32(ram, a, purpose, v);
            && (isa.Some? ==> t.Translated? && t.paddr == isa.value % 0x1_0000_0000)
            && (t.PageFault? ==> isa.None? && t.ram == ram)
            && (t.Translated? ==>
                  var leaf := IsaFind(ram, a.satp % 0x40_0000 * 0x1000, 0, v);
                  && leaf.Leaf? && t.ram == Marked(ram, leaf.at, leaf.pte, purpose)
                  && (isa.Some? <==> IsaPermits(leaf.pte, purpose, a.privilege, sum, mxr) && IsaAligned(leaf.level, leaf.pte)))
  {
    hide WalkFrom, IsaFind, Marked, IsaPermits, IsaAligned, IsaAddress, Root;
    RootNumber(a.satp);
    WalkIs(ram, a.satp % 0x40_0000 * 0x1000, 0, purpose, v);
  }

  /** The rights are not checked: from user mode a page of the supervisor, with U clear, is
      translated, where the ISA raises a page fault. */
  lemma SupervisorPageFromUser<D>(ram: Ram<D>, a: Access, purpose: Purpose, v: Word, sum: bool, mxr: bool)
    requires a.privilege == 0
    requires var f := IsaFind(ram, a.satp % 0x40_0000 * 0x1000, 0, v); f.Leaf? && f.pte / 16 % 2 == 0
    ensures IsaTranslation(ram, a, purpose, v, sum, mxr).None? && TranslateSv32(ram, a, purpose, v).Translated?
  {
    hide WalkFrom, IsaFind, Marked, IsaAddress, Root;
    RootNumber(a.satp);
    WalkIs(ram, a.satp % 0x40_0000 * 0x1000, 0, purpose, v);
  }

  // ---------------------------------------------------------------- what the walk leaves

  lemma PlacedOne(k: nat, d: nat, i: nat)
    requires d == Pow2(k)
    ensures Bit(d, i) <==> i == k
  {
    hide Bit, Pow2;
    ScaleOfOne(k);
    ScaleBit(1, k, i);
    if i >= k {
      OneBit(i - k);
    }
  }

  lemma FlagBits(purpose: Purpose, i: nat)
    ensures Bit(Flags(purpose), i) <==> i == 6 || (purpose == STORE && i == 7)
  {
    hide Bit, Or, Pow2;
    Pow2Values();
    OrBit(0x40, if purpose == STORE then 0x80 else 0, i);
    PlacedOne(6, 0x40, i);
    PlacedOne(7, 0x80, i);
    ZeroBit(i);
  }

  /** The word that a walk leaves in the leaf: A is set, for a store D as well, and every other
      bit is as it was. */
  lemma MarkedBits<D>(ram: Ram<D>, at: Word, pte: Word, purpose: Purpose, i: nat)
    requires Place(ram, at, 4).Some? && RamWord(ram, at) == pte && i < 32
    ensures Bit(RamWord(Marked(ram, at, pte, purpose), at), i) <==>
            Bit(pte, i) || i == 6 || (purpose == STORE && i == 7)
  {
    hide Bit, And, Or, Place, RamWord, PutWord, Flags;
    FlagBits(purpose, i);
    if And32(pte, Flags(purpose)) != Flags(purpose) {
      PutReadsBack(ram, at, Or32(pte, Flags(purpose)));
      OrBit(pte, Flags(purpose), i);
    } else {
      AndBit(pte, Flags(purpose), i);
    }
  }

  /** And no other word of RAM changes, nor a range or device. */
  lemma MarkedElsewhere<D>(ram: Ram<D>, at: Word, pte: Word, purpose: Purpose, q: Word)
    ensures Apart(at, 4, q, 4) ==> RamWord(Marked(ram, at, pte, purpose), q) == RamWord(ram, q)
    ensures var ram' := Marked(ram, at, pte, purpose);
            Place(ram', q, 4) == Place(ram, q, 4) && ram'.ranges == ram.ranges && ram'.devices == ram.devices
  {
    hide And32, Or32, Place, RamWord, PutWord, Flags;
    PutKeepsPlaces(ram, at, Or32(pte, Flags(purpose)), q, 4);
    if Apart(at, 4, q, 4) {
      PutElsewhere(ram, at, Or32(pte, Flags(purpose)), q);
    }
  }

  // ---------------------------------------------------------------- walking again

  /** Two entries that differ at most in bits 6 and 7 are read alike. */
  predicate AlikeBut67(p: Word, q: Word) {
    forall i: nat :: i < 32 && i != 6 && i != 7 ==> Bit(p, i) == Bit(q, i)
  }

  lemma AlikeFields(p: Word, q: Word)
    requires AlikeBut67(p, q)
    ensures And32(p, 1) == And32(q, 1) && Rights(p) == Rights(q) && Frame(p) == Frame(q)
  {
    hide And32, Rights, Frame, Bit, Low, High;
    forall i: nat | i < 6
      ensures Bit(Low(p, 6), i) == Bit(Low(q, 6), i)
    {
      LowBit(p, 6, i);
      LowBit(q, 6, i);
    }
    LowSmall(p, 6);
    LowSmall(q, 6);
    SameBits(Low(p, 6), Low(q, 6), 6);
    forall i: nat | i < 32
      ensures Bit(High(p, 10), i) == Bit(High(q, 10), i)
    {
      HighBit(p, 10, i);
      HighBit(q, 10, i);
      NoBitAbove(p, i + 10);
      NoBitAbove(q, i + 10);
    }
    SameWords(High(p, 10), High(q, 10));
    LowSixFields(p, q);
    FrameNumber(p);
    FrameNumber(q);
    Pow2Values();
    HighLowAt(p, 10, 0x400);
    HighLowAt(q, 10, 0x400);
  }

  lemma NoBitAbove(p: Word, i: nat)
    ensures i >= 32 ==> !Bit(p, i)
  {
    hide Bit, Low;
    WordDigits();
    LowSmall(p, 32);
    LowBit(p, 32, i);
  }

  lemma LowSixFields(p: Word, q: Word)
    requires Low(p, 6) == Low(q, 6)
    ensures And32(p, 1) == And32(q, 1) && Rights(p) == Rights(q)
  {
    hide And32, Rights, Low;
    RightsNumber(p);
    RightsNumber(q);
    Pow2Values();
    HighLowAt(p, 6, 64);
    HighLowAt(q, 6, 64);
    DivDiv(p, 2, 8);
    LowSix(p);
    LowSix(q);
  }

  lemma LowSix(p: Word)
    ensures p % 64 % 2 == p % 2 && p % 64 / 2 % 8 == p / 2 % 8
  {
    DivDiv(p, 2, 32);
    var q, r := p / 64, p % 64;
    DivUnique(p, 2, q * 32 + r / 2, r % 2);
    DivUnique(q * 32 + r / 2, 8, q * 4 + r / 2 / 8, r / 2 % 8);
  }

  lemma MarkedAlike<D>(ram: Ram<D>, at: Word, pte: Word, purpose: Purpose)
    requires Place(ram, at, 4).Some? && RamWord(ram, at) == pte
    ensures AlikeBut67(pte, RamWord(Marked(ram, at, pte, purpose), at))
  {
    hide Bit, Marked, Place, RamWord;
    forall i: nat | i < 32 && i != 6 && i != 7
      ensures Bit(pte, i) == Bit(RamWord(Marked(ram, at, pte, purpose), at), i)
    {
      MarkedBits(ram, at, pte, purpose, i);
    }
  }

  /** An entry that was marked for an access needs no more marks for it, or for a weaker one. */
  lemma NoMoreMarks<D>(ram: Ram<D>, at: Word, pte: Word, purpose: Purpose, again: Purpose)
    requires Place(ram, at, 4).Some? && RamWord(ram, at) == pte && (again == STORE ==> purpose == STORE)
    ensures var ram' := Marked(ram, at, pte, purpose); Marked(ram', at, RamWord(ram', at), again) == ram'
  {
    hide Bit, And, Place, RamWord, PutWord, Flags;
    var ram' := Marked(ram, at, pte, purpose);
    var now := RamWord(ram', at);
    forall i: nat | i < 32
      ensures Bit(And32(now, Flags(again)), i) == Bit(Flags(again), i)
    {
      AndBit(now, Flags(again), i);
      FlagBits(again, i);
      hide Marked;
      MarkedBits(ram, at, pte, purpose, i);
    }
    SameWords(And32(now, Flags(again)), Flags(again));
  }

  /** Entries lie at multiples of four. */
  lemma EntryAligned(base: Word, level: nat, v: Word)
    requires base % 4 == 0
    ensures EntryAddress(base, level, v) % 4 == 0
  {
    hide EntryAddress, IndexOf;
    EntryNumber(base, level, v);
    var n := base + IndexOf(level, v) * 4;
    DivDiv(n, 4, 0x4000_0000);
  }

  lemma PagesAligned(n: nat)
    ensures n * 0x1000 % 0x1_0000_0000 % 4 == 0
  {
    DivUnique(n * 0x1000, 4, n * 0x400, 0);
    DivDiv(n * 0x1000, 4, 0x4000_0000);
  }

  lemma FrameAligned(pte: Word)
    ensures Frame(pte) % 4 == 0
  {
    hide Frame;
    FrameNumber(pte);
    PagesAligned(pte / 0x400);
  }

  lemma RootAligned(satp: Word)
    ensures Root(satp) % 4 == 0
  {
    hide Root;
    RootNumber(satp);
    PagesAligned(satp % 0x40_0000);
  }

  /** Where the leaf of a walk lies, in the emulator's own terms. */
  lemma {:induction false} WalkAgainFrom<D>(ram: Ram<D>, base: Word, level: nat, purpose: Purpose, again: Purpose, v: Word)
    requires level <= 2 && base % 4 == 0 && (again == STORE ==> purpose == STORE)
    requires WalkFrom(ram, base, level, purpose, v).Translated?
    ensures var t := WalkFrom(ram, base, level, purpose, v);
            && WalkFrom(t.ram, base, level, again, v) == t
            && (forall q: Word :: q % 4 == 0 ==> AlikeBut67(RamWord(ram, q), RamWord(t.ram, q)))
            && forall q: Word :: Place(t.ram, q, 4) == Place(ram, q, 4)
    decreases 2 - level
  {
    hide And32, Rights, Frame, InPage, EntryAddress, Marked, Place, RamWord, Bit;
    var at := EntryAddress(base, level, v);
    var pte := RamWord(ram, at);
    EntryAligned(base, level, v);
    if Rights(pte) == 0 {
      FrameAligned(pte);
      WalkAgainFrom(ram, Frame(pte), level + 1, purpose, again, v);
      AlikeFields(pte, RamWord(WalkFrom(ram, base, level, purpose, v).ram, at));
    } else {
      LeafAgain(ram, at, pte, purpose, again);
    }
  }

  lemma LeafAgain<D>(ram: Ram<D>, at: Word, pte: Word, purpose: Purpose, again: Purpose)
    requires Place(ram, at, 4).Some? && RamWord(ram, at) == pte && at % 4 == 0 && (again == STORE ==> purpose == STORE)
    ensures var ram' := Marked(ram, at, pte, purpose);
            var now := RamWord(ram', at);
            && Marked(ram', at, now, again) == ram'
            && And32(now, 1) == And32(pte, 1) && Rights(now) == Rights(pte) && Frame(now) == Frame(pte)
            && (forall q: Word :: q % 4 == 0 ==> AlikeBut67(RamWord(ram, q), RamWord(ram', q)))
            && forall q: Word :: Place(ram', q, 4) == Place(ram, q, 4)
  {
    hide And32, Rights, Frame, Marked, Place, RamWord, Bit;
    NoMoreMarks(ram, at, pte, purpose, again);
    MarkedAlike(ram, at, pte, purpose);
    AlikeFields(pte, RamWord(Marked(ram, at, pte, purpose), at));
    forall q: Word
      ensures Place(Marked(ram, at, pte, purpose), q, 4) == Place(ram, q, 4)
      ensures q % 4 == 0 ==> AlikeBut67(RamWord(ram, q), RamWord(Marked(ram, at, pte, purpose), q))
    {
      MarkedElsewhere(ram, at, pte, purpose, q);
    }
  }

  /** Translation is stable: once an address is translated, translating it again for the same
      access, or for a load or fetch after a store, gives the same physical address and leaves
      memory as it is. */
  lemma TranslateAgain<D>(ram: Ram<D>, a: Access, purpose: Purpose, again: Purpose, v: Word)
    requires TranslateSv32(ram, a, purpose, v).Translated? && (again == STORE ==> purpose == STORE)
    ensures var t := TranslateSv32(ram, a, purpose, v); TranslateSv32(t.ram, a, again, v) == t
  {
    hide WalkFrom, Root;
    RootAligned(a.satp);
    WalkAgainFrom(ram, Root(a.satp), 0, purpose, again, v);
  }

  // ---------------------------------------------------------------- pages

  lemma SameIndices(v: Word, v': Word)
    requires v / 0x1000 == v' / 0x1000
    ensures v / 0x40_0000 == v' / 0x40_0000
  {
    DivDiv(v, 0x1000, 0x400);
    DivDiv(v', 0x1000, 0x400);
  }

  lemma {:induction false} SamePageFrom<D>(ram: Ram<D>, base: Word, level: nat, purpose: Purpose, v: Word, v': Word)
    requires level <= 2 && v / 0x1000 == v' / 0x1000
    ensures var t, t' := WalkFrom(ram, base, level, purpose, v), WalkFrom(ram, base, level, purpose, v');
            && (t.Translated? <==> t'.Translated?) && (t.PageFault? <==> t'.PageFault?)
            && (t.Translated? ==> t.ram == t'.ram && t'.paddr - t.paddr == v' - v)
    decreases 2 - level
  {
    hide And32, Rights, Frame, InPage, EntryAddress, Marked, Place, RamWord;
    if level < 2 {
      SameEntry(base, level, v, v');
      var at := EntryAddress(base, level, v);
      var pte := RamWord(ram, at);
      SameOffset(Frame(pte), level, v, v');
      SamePageFrom(ram, Frame(pte), level + 1, purpose, v, v');
    }
  }

  lemma SameEntry(base: Word, level: nat, v: Word, v': Word)
    requires v / 0x1000 == v' / 0x1000
    ensures EntryAddress(base, level, v) == EntryAddress(base, level, v')
  {
    hide EntryAddress;
    SameIndices(v, v');
    EntryNumber(base, level, v);
    EntryNumber(base, level, v');
  }

  lemma SameOffset(frame: Word, level: nat, v: Word, v': Word)
    requires v / 0x1000 == v' / 0x1000
    ensures InPage(frame, level, v') - InPage(frame, level, v) == v' - v
  {
    hide InPage;
    SameIndices(v, v');
    InPageNumber(frame, level, v);
    InPageNumber(frame, level, v');
  }

  /** Addresses of one page are translated alike, to one page, at the same distance. */
  lemma SamePage<D>(ram: Ram<D>, a: Access, purpose: Purpose, v: Word, v': Word)
    requires v / 0x1000 == v' / 0x1000
    ensures var t, t' := TranslateSv32(ram, a, purpose, v), TranslateSv32(ram, a, purpose, v');
            && (t.Translated? <==> t'.Translated?) && (t.PageFault? <==> t'.PageFault?)
            && (t.Translated? ==> t.ram == t'.ram && t'.paddr - t.paddr == v' - v)
  {
    hide WalkFrom, Root;
    SamePageFrom(ram, Root(a.satp), 0, purpose, v, v');
  }
}
