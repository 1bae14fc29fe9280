/** Which address an access reaches (memory.c), from the privilege and satp of the hart: fetches,
    loads and stores as whole steps over RAM and devices, with the page-table walk as it comes
    out. */
module Translation {
  import opened Words
  import opened Options
  import opened Memory
  import opened MemoryMap
  import opened Bytes
  import opened PhysicalMemory
  import opened Decode
  import opened Opcodes
  import opened HartSpec
  import opened Runs
  import opened Traps
  import opened TrapEntry
  import opened Conformance
  import opened Accesses

  /** In machine mode, and elsewhere while bit 31 of satp is clear, an address is physical. */
  predicate Untranslated<M>(h: Hart<M>): (r: bool)
    requires h.Shaped()
    ensures r <==> Bare(h.Access())
  {
    h.privilege == 3 || h.csr[0x180] < 0x8000_0000
  }

  /** What an access of a hart finds for an address; all others walk the page tables, with the
      privilege and the satp of the hart. */
  function Physical<D>(sys: System<D>, h: Hart<Ram<D>>, ram: Ram<D>, purpose: Purpose, address: Word): Translation<D>
    requires h.Shaped()
  {
    if Untranslated(h) then Translated(ram, address)
    else sys.translate(ram, Memory.Access.Access(h.privilege, h.csr[0x180]), purpose, address)
  }

  lemma PhysicalIs<D>(sys: System<D>, h: Hart<Ram<D>>, ram: Ram<D>, purpose: Purpose, address: Word)
    requires h.Shaped()
    ensures Translate(sys, ram, h.Access(), purpose, address) == Physical(sys, h, ram, purpose, address)
  {
  }

  // ---------------------------------------------------------------- fetches

  /** A fetch translates the pc: a page fault is a trap of cause 12 with the pc as its value; an
      address in RAM gives the word there; one in no range is a trap of cause 0; and any other
      ends the run. */
  lemma FetchStep<D>(sys: System<D>, h: Hart<Ram<D>>)
    requires Boundary(h) && h.life == Live
    ensures var h' := Step(RamBus(sys), h);
            match Physical(sys, h, h.mem, FETCH, h.pc)
            case PageFault(r) => Recorded(h, h', 12, h.pc) && h'.mem == r && h'.x == h.x
            case NoTable => h'.life == Crashed
            case Translated(r, p) =>
              if Lookup(r.ranges, p).None? then Recorded(h, h', 0, 0) && h'.mem == r && h'.x == h.x
              else if Place(r, p, 4).None? then h'.life == Crashed
              else FetchOf(RamBus(sys), h) == Fetched(r, RamWord(r, p)) && PointerOf(RamBus(sys), h) == p
  {
    hide Recorded, Physical, RamWord, TakeTrap, Translate, Add32, Lookup, Place, Execute;
    PhysicalIs(sys, h, h.mem, FETCH, h.pc);
    match Physical(sys, h, h.mem, FETCH, h.pc) {
      case PageFault(r) =>
        FetchRecords(RamBus(sys), h, r);
        TrapKeeps(Fault(h.(pc := Add32(h.pc, 4)), r, CAUSE_FETCH_PAGE_FAULT, h.pc), CAUSE_FETCH_PAGE_FAULT, h.pc);
      case NoTable =>
      case Translated(r, p) =>
        if Lookup(r.ranges, p).None? {
          UnmappedRecords(RamBus(sys), h, r);
          TrapKeeps(h.(pc := Add32(h.pc, 4), mem := r), h.pendingException, h.pendingTval);
        }
    }
  }

  // ---------------------------------------------------------------- loads

  /** The number of bytes of a load or store. */
  function ByteCount(op: Op): nat {
    if op == LB || op == LBU || op == SB then 1 else if op == LH || op == LHU || op == SH then 2 else 4
  }

  lemma CountIsSize(op: Op)
    requires KindOf(op) == LoadKind || KindOf(op) == StoreKind
    ensures ByteCount(op) == Size(WidthOf(op))
  {
  }

  /** A byte as a signed number. */
  function SignedByte(b: int): int {
    if b < 0x80 then b else b - 0x100
  }

  /** What a load makes of its bytes, lowest first. */
  predicate LoadsBytes(op: Op, s: seq<Byte>, r: Word) {
    match op
    case LBU => |s| == 1 && r == Number(s)
    case LB => |s| == 1 && Signed(r) == SignedByte(s[0])
    case LHU => |s| == 2 && r == Number(s)
    case LH => |s| == 2 && Signed(r) == s[0] + SignedByte(s[1]) * 0x100
    case _ => |s| == 4 && r == Number(s)
  }

  /** Little-endian bytes. */
  function Number(s: seq<Byte>): int {
    if s == [] then 0 else s[0] + 0x100 * Number(s[1..])
  }

  lemma NumberOf(s: seq<Byte>)
    ensures |s| == 1 ==> Number(s) == s[0]
    ensures |s| == 2 ==> var b0: int, b1: int := s[0], s[1]; Number(s) == b0 + b1 * 0x100
    ensures |s| == 4 ==>
      var b0: int, b1: int, b2: int, b3: int := s[0], s[1], s[2], s[3];
      Number(s) == b0 + b1 * 0x100 + b2 * 0x1_0000 + b3 * 0x100_0000
  {
    if |s| == 1 {
    } else if |s| == 2 {
      assert Number(s[1..]) == s[1];
    } else if |s| == 4 {
      assert Number(s[1..][1..][1..]) == s[3];
    }
  }

  /** n bytes at a place in RAM. */
  function BytesAt<D>(ram: Ram<D>, p: Word, n: nat): (s: seq<Byte>)
    requires Place(ram, p, n).Some?
    ensures |s| == n
  {
    var (i, o) := Place(ram, p, n).value;
    ram.contents[i][o..o + n]
  }

  lemma ValueIsNumber(bytes: seq<Byte>, o: nat, width: Width)
    requires o + Size(width) <= |bytes|
    ensures ValueAt(bytes, o, width) == Number(bytes[o..o + Size(width)])
  {
    NumberOf(bytes[o..o + Size(width)]);
  }

  lemma ResultOfBytes(op: Op, bytes: seq<Byte>, o: nat, r: Word)
    requires KindOf(op) == LoadKind && o + Size(WidthOf(op)) <= |bytes|
    ensures LoadResult(op, ValueAt(bytes, o, WidthOf(op)), r) ==> LoadsBytes(op, bytes[o..o + ByteCount(op)], r)
  {
    hide KindOf, Signed;
    LoadOps(op);
    NumberOf(bytes[o..o + ByteCount(op)]);
  }

  /** The address that a load accesses. */
  function LoadAddress<M>(h: Hart<M>, w: Word): Word
    requires h.Shaped()
  {
    (h.x[Rs1(w)] + GetIImm(w)) % 0x1_0000_0000
  }

  function StoreAddress<M>(h: Hart<M>, w: Word): Word
    requires h.Shaped()
  {
    (h.x[Rs1(w)] + GetSImm(w)) % 0x1_0000_0000
  }

  /** A load that faults or finds no memory, on any bus. */
  lemma LoadFails<M>(bus: Bus<M>, h: Hart<M>, m: M, w: Word, op: Op)
    requires Boundary(h) && h.life == Live && FetchOf(bus, h) == Fetched(m, w) && IsA(w, op) && KindOf(op) == LoadKind
    ensures var h', loaded := Step(bus, h), bus.load(m, h.Access(), WidthOf(op), LoadAddress(h, w));
            && (loaded.LoadFault? ==>
                  h'.life == Live && Recorded(h, h', 13, LoadAddress(h, w)) && h'.mem == loaded.mem && h'.x == h.x)
            && (loaded.LoadUnmapped? ==> h'.life == Crashed)
  {
    hide Step, FirstMatch, IsA, Handle, Finish, LoadInto, Add32, KindOf, Recorded, WidthOf, FetchOf, PointerOf, Rs1, GetIImm;
    var h1, at := AtHandler(h, m), PointerOf(bus, h);
    EmulatorSelects(w, op);
    StepSelected(bus, h, m, w, op);
    LoadOfHandle(bus, h1, op, w, at);
    LoadFailing(bus, h1, op, w, at);
    var t := LoadInto(bus, h1, op, w, at);
    if bus.load(m, h.Access(), WidthOf(op), LoadAddress(h, w)).LoadFault? {
      FinishTraps(h, t);
      FinishKeeps(t);
    }
  }

  lemma LoadFailing<M>(bus: Bus<M>, h: Hart<M>, op: Op, w: Word, at: Word)
    requires h.Shaped() && h.life == Live
    ensures var loaded := bus.load(h.mem, h.Access(), WidthOf(op), LoadAddress(h, w));
            && (loaded.LoadFault? ==> LoadInto(bus, h, op, w, at) == Fault(h, loaded.mem, 13, LoadAddress(h, w)))
            && (loaded.LoadUnmapped? ==> LoadInto(bus, h, op, w, at).life == Crashed)
  {
    hide Rd, Rs1, GetIImm, Extended, WidthOf, ToWord, Add32;
    SumAddress(h.x[Rs1(w)], GetIImm(w));
  }

  lemma StoreFails<M>(bus: Bus<M>, h: Hart<M>, m: M, w: Word, op: Op)
    requires Boundary(h) && h.life == Live && FetchOf(bus, h) == Fetched(m, w) && IsA(w, op) && KindOf(op) == StoreKind
    ensures var h', stored := Step(bus, h),
              bus.store(m, h.Access(), WidthOf(op), StoreAddress(h, w), LowPart(WidthOf(op), h.x[Rs2(w)]));
            && (stored.StoreFault? ==>
                  h'.life == Live && Recorded(h, h', 15, StoreAddress(h, w)) && h'.mem == stored.mem && h'.x == h.x)
            && (stored.StoreUnmapped? ==> h'.life == Crashed)
  {
    hide Step, FirstMatch, IsA, Handle, Finish, StoreFrom, Add32, KindOf, Recorded, WidthOf, FetchOf, PointerOf, Rs1, Rs2;
    hide GetSImm, LowPart;
    var h1, at := AtHandler(h, m), PointerOf(bus, h);
    EmulatorSelects(w, op);
    StepSelected(bus, h, m, w, op);
    LoadOfHandle(bus, h1, op, w, at);
    StoreFailing(bus, h1, op, w);
    var t := StoreFrom(bus, h1, op, w);
    if bus.store(m, h.Access(), WidthOf(op), StoreAddress(h, w), LowPart(WidthOf(op), h.x[Rs2(w)])).StoreFault? {
      FinishTraps(h, t);
      FinishKeeps(t);
    }
  }

  lemma StoreFailing<M>(bus: Bus<M>, h: Hart<M>, op: Op, w: Word)
    requires h.Shaped() && h.life == Live && KindOf(op) == StoreKind
    ensures var stored := bus.store(h.mem, h.Access(), WidthOf(op), StoreAddress(h, w), LowPart(WidthOf(op), h.x[Rs2(w)]));
            && (stored.StoreFault? ==> StoreFrom(bus, h, op, w) == Fault(h, stored.mem, 15, StoreAddress(h, w)))
            && (stored.StoreUnmapped? ==> StoreFrom(bus, h, op, w).life == Crashed)
  {
    hide Rs1, Rs2, GetSImm, ToWord, Add32, KindOf;
    SumAddress(h.x[Rs1(w)], GetSImm(w));
    StoredIsTruncated(op, h.x[Rs2(w)]);
    hide Truncated, WidthOf, LowPart;
  }

  // ---------------------------------------------------------------- the access at its place

  /** The device behind an address, if there is one: its slot and the offset in it. */
  function DeviceAt<D>(ram: Ram<D>, p: Word): Option<(nat, Word)> {
    match Lookup(ram.ranges, p)
    case None => None
    case Some(slot) =>
      if ram.ranges[slot].isRam then None
      else
        OffsetFits(ram.ranges[slot], p);
        Some((slot, p - ram.ranges[slot].address))
  }

  lemma NotBoth<D>(ram: Ram<D>, p: Word, n: nat)
    ensures Place(ram, p, n).None? || DeviceAt(ram, p).None?
  {
    hide Lookup;
  }

  function WidthOfCount(n: nat): Width {
    if n == 1 then ByteWidth else if n == 2 then HalfWidth else WordWidth
  }

  lemma ValueFits(bytes: seq<Byte>, o: nat, width: Width)
    requires o + Size(width) <= |bytes|
    ensures var value := ValueAt(bytes, o, width); LowPart(width, value) == value
  {
    hide WordAt;
  }

  lemma FitsExtends(op: Op, value: Word)
    requires LowPart(WidthOf(op), value) == value
    ensures ExtendsRight(op, value)
  {
    hide WidthOf, Bit;
  }

  /** What the load of an instruction finds. */
  lemma LoadOutcome<D>(sys: System<D>, h: Hart<Ram<D>>, m: Ram<D>, op: Op, address: Word)
    requires h.Shaped() && KindOf(op) == LoadKind
    ensures var loaded, n := RamBus(sys).load(m, h.Access(), WidthOf(op), address), ByteCount(op);
            match Physical(sys, h, m, LOAD, address)
            case PageFault(r) => loaded == LoadFault(r)
            case NoTable => loaded == LoadUnmapped
            case Translated(r, p) =>
              && (Place(r, p, n).Some? ==>
                    var (i, o) := Place(r, p, n).value;
                    o + Size(WidthOf(op)) <= |r.contents[i]| && loaded == Loaded(r, ValueAt(r.contents[i], o, WidthOf(op))))
              && (DeviceAt(r, p).Some? ==>
                    var (slot, offset) := DeviceAt(r, p).value;
                    var (devices, value) := sys.read(r.devices, slot, offset, WidthOfCount(n));
                    loaded == Loaded(r.(devices := devices), value))
              && (Place(r, p, n).None? && DeviceAt(r, p).None? ==> loaded == LoadUnmapped)
  {
    hide KindOf, WidthOf, ByteCount, Physical, Translate, Lookup, ValueAt;
    PhysicalIs(sys, h, m, LOAD, address);
    CountIsSize(op);
    CountWidth(op);
    match Physical(sys, h, m, LOAD, address) {
      case Translated(r, p) =>
        if Lookup(r.ranges, p).Some? {
          OffsetFits(r.ranges[Lookup(r.ranges, p).value], p);
        }
      case _ =>
    }
  }

  lemma CountWidth(op: Op)
    requires KindOf(op) == LoadKind || KindOf(op) == StoreKind
    ensures WidthOfCount(ByteCount(op)) == WidthOf(op)
  {
  }

  lemma RamLoadAt<D>(sys: System<D>, h: Hart<Ram<D>>, m: Ram<D>, w: Word, op: Op, r: Ram<D>, p: Word)
    requires Boundary(h) && h.life == Live && FetchOf(RamBus(sys), h) == Fetched(m, w) && IsA(w, op) && KindOf(op) == LoadKind
    requires Physical(sys, h, m, LOAD, LoadAddress(h, w)) == Translated(r, p) && Place(r, p, ByteCount(op)).Some?
    ensures var h', at, n := Step(RamBus(sys), h), PointerOf(RamBus(sys), h), ByteCount(op);
            && h'.life == Live && h'.mem == r && h'.pc == (h.pc + 4) % 0x1_0000_0000
            && (Rd(RamWord(r, at)) == Rd(w) ==>
                  OnlyChanges(h.x, h'.x, Rd(w)) && (Rd(w) != 0 ==> LoadsBytes(op, BytesAt(r, p, n), h'.x[Rd(w)])))
  {
    hide Step, IsA, KindOf, WidthOf, FetchOf, PointerOf, Rd, OnlyChanges, LoadsBytes, Place, RamWord;
    hide Physical, Extended, LoadResult, ExtendsRight, RamBus, ByteCount, LowPart, ValueAt;
    LoadOutcome(sys, h, m, op, LoadAddress(h, w));
    CountIsSize(op);
    var (i, o) := Place(r, p, ByteCount(op)).value;
    var value := ValueAt(r.contents[i], o, WidthOf(op));
    LoadStep(RamBus(sys), h, m, w, op, r, value);
    ValueFits(r.contents[i], o, WidthOf(op));
    FitsExtends(op, value);
    RamWordOf(sys, r);
    if Rd(w) != 0 {
      ResultOfBytes(op, r.contents[i], o, Step(RamBus(sys), h).x[Rd(w)]);
    }
  }

  lemma RamWordOf<D>(sys: System<D>, r: Ram<D>)
    ensures forall at :: RamBus(sys).word(r, at) == RamWord(r, at)
  {
    hide RamWord;
  }

  lemma DeviceLoadAt<D>(sys: System<D>, h: Hart<Ram<D>>, m: Ram<D>, w: Word, op: Op, r: Ram<D>, p: Word)
    requires Boundary(h) && h.life == Live && FetchOf(RamBus(sys), h) == Fetched(m, w) && IsA(w, op) && KindOf(op) == LoadKind
    requires Physical(sys, h, m, LOAD, LoadAddress(h, w)) == Translated(r, p) && DeviceAt(r, p).Some?
    ensures var h', at := Step(RamBus(sys), h), PointerOf(RamBus(sys), h);
            var (slot, offset) := DeviceAt(r, p).value;
            var (devices, value) := sys.read(r.devices, slot, offset, WidthOfCount(ByteCount(op)));
            && h'.life == Live && h'.mem == r.(devices := devices) && h'.pc == (h.pc + 4) % 0x1_0000_0000
            && h'.x == h.SetReg(Rd(RamWord(h'.mem, at)), Extended(op, value)).x
  {
    hide Step, IsA, KindOf, WidthOf, FetchOf, PointerOf, Rd, OnlyChanges, Place, RamWord;
    hide Physical, Extended, LoadResult, ExtendsRight, RamBus, ByteCount, LowPart, DeviceAt, WidthOfCount;
    LoadOutcome(sys, h, m, op, LoadAddress(h, w));
    var (slot, offset) := DeviceAt(r, p).value;
    var (devices, value) := sys.read(r.devices, slot, offset, WidthOfCount(ByteCount(op)));
    LoadStep(RamBus(sys), h, m, w, op, r.(devices := devices), value);
    RamWordOf(sys, r.(devices := devices));
  }

  /** A load translates its address, and then a page fault is a trap of cause 13 with the
      address as its value; RAM gives the bytes there, a device its answer, and an address
      without either ends the run. */
  lemma LoadAt<D>(sys: System<D>, h: Hart<Ram<D>>, m: Ram<D>, w: Word, op: Op)
    requires Boundary(h) && h.life == Live && FetchOf(RamBus(sys), h) == Fetched(m, w) && IsA(w, op) && KindOf(op) == LoadKind
    ensures var h', at, n := Step(RamBus(sys), h), PointerOf(RamBus(sys), h), ByteCount(op);
            match Physical(sys, h, m, LOAD, LoadAddress(h, w))
            case PageFault(r) => h'.life == Live && Recorded(h, h', 13, LoadAddress(h, w)) && h'.mem == r && h'.x == h.x
            case NoTable => h'.life == Crashed
            case Translated(r, p) =>
              && (Place(r, p, n).Some? ==>
                    && h'.life == Live && h'.mem == r && h'.pc == (h.pc + 4) % 0x1_0000_0000
                    && (Rd(RamWord(r, at)) == Rd(w) ==>
                          OnlyChanges(h.x, h'.x, Rd(w)) && (Rd(w) != 0 ==> LoadsBytes(op, BytesAt(r, p, n), h'.x[Rd(w)]))))
              && (DeviceAt(r, p).Some? ==>
                    var (slot, offset) := DeviceAt(r, p).value;
                    var (devices, value) := sys.read(r.devices, slot, offset, WidthOfCount(n));
                    && h'.life == Live && h'.mem == r.(devices := devices) && h'.pc == (h.pc + 4) % 0x1_0000_0000
                    && h'.x == h.SetReg(Rd(RamWord(h'.mem, at)), Extended(op, value)).x)
              && (Place(r, p, n).None? && DeviceAt(r, p).None? ==> h'.life == Crashed)
  {
    hide Step, IsA, KindOf, Recorded, WidthOf, FetchOf, PointerOf, Rd, OnlyChanges, LoadsBytes, Place, RamWord;
    hide Physical, Extended, DeviceAt, BytesAt, LoadResult, ExtendsRight, RamBus, Untranslated, LoadAddress, ByteCount, WidthOfCount;
    hide LowPart;
    LoadOutcome(sys, h, m, op, LoadAddress(h, w));
    match Physical(sys, h, m, LOAD, LoadAddress(h, w)) {
      case Translated(r, p) =>
        if Place(r, p, ByteCount(op)).Some? {
          RamLoadAt(sys, h, m, w, op, r, p);
          NotBoth(r, p, ByteCount(op));
        } else if DeviceAt(r, p).Some? {
          DeviceLoadAt(sys, h, m, w, op, r, p);
        } else {
          LoadFails(RamBus(sys), h, m, w, op);
        }
      case _ => LoadFails(RamBus(sys), h, m, w, op);
    }
  }

  // ---------------------------------------------------------------- stores

  /** The low n bytes of a number, lowest first. */
  function LittleBytes(n: nat, value: nat): (s: seq<Byte>)
    ensures |s| == n
  {
    if n == 0 then [] else [value % 0x100] + LittleBytes(n - 1, value / 0x100)
  }

  /** RAM with other bytes at a place. */
  function PutBytes<D>(ram: Ram<D>, p: Word, s: seq<Byte>): Ram<D>
    requires Place(ram, p, |s|).Some?
  {
    var (i, o) := Place(ram, p, |s|).value;
    ram.(contents := ram.contents[i := Patched(ram.contents[i], o, s)])
  }

  lemma LowBytesAre(width: Width, value: Word)
    ensures LowBytes(width, value) == LowBytes(width, LowPart(width, value)) == LittleBytes(Size(width), value)
  {
    DivDiv(value, 0x100, 0x100);
    DivDiv(value, 0x1_0000, 0x100);
    FourBytes(value);
  }

  lemma FourBytes(value: Word)
    ensures LittleBytes(1, value) == [value % 0x100]
    ensures LittleBytes(2, value) == [value % 0x100, value / 0x100 % 0x100]
    ensures LittleBytes(4, value) ==
            [value % 0x100, value / 0x100 % 0x100, value / 0x100 / 0x100 % 0x100, value / 0x100 / 0x100 / 0x100 % 0x100]
  {
    var v1, v2, v3 := value / 0x100, value / 0x100 / 0x100, value / 0x100 / 0x100 / 0x100;
    assert LittleBytes(1, v3) == [v3 % 0x100] && LittleBytes(1, v1) == [v1 % 0x100];
    assert LittleBytes(2, v2) == [v2 % 0x100] + LittleBytes(1, v3);
    assert LittleBytes(3, v1) == [v1 % 0x100] + LittleBytes(2, v2);
  }

  /** What a store does. */
  lemma StoreOutcome<D>(sys: System<D>, h: Hart<Ram<D>>, m: Ram<D>, width: Width, address: Word, value: Word)
    requires h.Shaped()
    ensures var stored, n := RamBus(sys).store(m, h.Access(), width, address, value), Size(width);
            match Physical(sys, h, m, STORE, address)
            case PageFault(r) => stored == StoreFault(r)
            case NoTable => stored == StoreUnmapped
            case Translated(r, p) =>
              && (Place(r, p, n).Some? ==> stored == Stored(PutBytes(r, p, LittleBytes(n, value))))
              && (DeviceAt(r, p).Some? ==>
                    var (slot, offset) := DeviceAt(r, p).value;
                    stored == Stored(r.(devices := sys.write(r.devices, slot, offset, value, width))))
              && (Place(r, p, n).None? && DeviceAt(r, p).None? ==> stored == StoreUnmapped)
  {
    hide Size, Physical, Translate, Lookup, LowBytes, LittleBytes, LowPart;
    PhysicalIs(sys, h, m, STORE, address);
    LowBytesAre(width, value);
    match Physical(sys, h, m, STORE, address) {
      case Translated(r, p) =>
        if Lookup(r.ranges, p).Some? {
          OffsetFits(r.ranges[Lookup(r.ranges, p).value], p);
        }
      case _ =>
    }
  }

  /** The low part of a value has the same low bytes. */
  lemma SameLowBytes(width: Width, value: Word)
    ensures LittleBytes(Size(width), LowPart(width, value)) == LittleBytes(Size(width), value)
  {
    hide LittleBytes, LowBytes, LowPart;
    LowBytesAre(width, value);
    LowBytesAre(width, LowPart(width, value));
    hide Size;
  }

  /** A store translates its address, and then a page fault is a trap of cause 15 with the
      address as its value; RAM gets the low bytes of rs2 there and is else the same, a device
      gets their number, and an address without either ends the run. */
  lemma StoreAt<D>(sys: System<D>, h: Hart<Ram<D>>, m: Ram<D>, w: Word, op: Op)
    requires Boundary(h) && h.life == Live && FetchOf(RamBus(sys), h) == Fetched(m, w) && IsA(w, op) && KindOf(op) == StoreKind
    ensures var h', n, value := Step(RamBus(sys), h), ByteCount(op), h.x[Rs2(w)];
            match Physical(sys, h, m, STORE, StoreAddress(h, w))
            case PageFault(r) => h'.life == Live && Recorded(h, h', 15, StoreAddress(h, w)) && h'.mem == r && h'.x == h.x
            case NoTable => h'.life == Crashed
            case Translated(r, p) =>
              && (Place(r, p, n).Some? ==>
                    && h'.life == Live && h'.x == h.x && h'.pc == (h.pc + 4) % 0x1_0000_0000
                    && h'.mem == PutBytes(r, p, LittleBytes(n, value)))
              && (DeviceAt(r, p).Some? ==>
                    var (slot, offset) := DeviceAt(r, p).value;
                    var low: nat := if n == 1 then value % 0x100 else if n == 2 then value % 0x1_0000 else value;
                    && h'.life == Live && h'.x == h.x && h'.pc == (h.pc + 4) % 0x1_0000_0000
                    && h'.mem == r.(devices := sys.write(r.devices, slot, offset, low, WidthOfCount(n))))
              && (Place(r, p, n).None? && DeviceAt(r, p).None? ==> h'.life == Crashed)
  {
    hide Step, IsA, KindOf, Recorded, WidthOf, FetchOf, Place, LittleBytes, PutBytes, Rs2;
    hide Physical, DeviceAt, RamBus, Untranslated, StoreAddress, ByteCount, WidthOfCount, LowPart;
    var width, low := WidthOf(op), LowPart(WidthOf(op), h.x[Rs2(w)]);
    CountIsSize(op);
    CountWidth(op);
    LowByCount(width, h.x[Rs2(w)]);
    SameLowBytes(width, h.x[Rs2(w)]);
    StoreOutcome(sys, h, m, width, StoreAddress(h, w), low);
    hide Size;
    match Physical(sys, h, m, STORE, StoreAddress(h, w)) {
      case Translated(r, p) =>
        if Place(r, p, ByteCount(op)).Some? {
          NotBoth(r, p, ByteCount(op));
          StoreSucceeds(sys, h, m, w, op, PutBytes(r, p, LittleBytes(ByteCount(op), h.x[Rs2(w)])));
        } else if DeviceAt(r, p).Some? {
          var (slot, offset) := DeviceAt(r, p).value;
          StoreSucceeds(sys, h, m, w, op, r.(devices := sys.write(r.devices, slot, offset, low, width)));
        } else {
          StoreFails(RamBus(sys), h, m, w, op);
        }
      case _ => StoreFails(RamBus(sys), h, m, w, op);
    }
  }

  lemma LowByCount(width: Width, value: Word)
    ensures LowPart(width, value) ==
            if Size(width) == 1 then value % 0x100 else if Size(width) == 2 then value % 0x1_0000 else value
  {
  }

  lemma StoreSucceeds<D>(sys: System<D>, h: Hart<Ram<D>>, m: Ram<D>, w: Word, op: Op, m': Ram<D>)
    requires Boundary(h) && h.life == Live && FetchOf(RamBus(sys), h) == Fetched(m, w) && IsA(w, op) && KindOf(op) == StoreKind
    requires RamBus(sys).store(m, h.Access(), WidthOf(op), StoreAddress(h, w), LowPart(WidthOf(op), h.x[Rs2(w)])) == Stored(m')
    ensures var h' := Step(RamBus(sys), h);
            h'.life == Live && h'.x == h.x && h'.pc == (h.pc + 4) % 0x1_0000_0000 && h'.mem == m'
  {
    hide Step, IsA, KindOf, WidthOf, FetchOf, RamBus, LowPart;
    StoreStep(RamBus(sys), h, m, w, op, m');
  }

  // ---------------------------------------------------------------- atomic instructions

  lemma WordOutcome<D>(sys: System<D>, h: Hart<Ram<D>>, m: Ram<D>, address: Word)
    requires h.Shaped()
    ensures var loaded := RamBus(sys).load(m, h.Access(), WordWidth, address);
            match Physical(sys, h, m, LOAD, address)
            case PageFault(r) => loaded == LoadFault(r)
            case NoTable => loaded == LoadUnmapped
            case Translated(r, p) => Place(r, p, 4).Some? ==> loaded == Loaded(r, RamWord(r, p))
  {
    hide ByteCount, WidthOf, DeviceAt, RamBus, Physical, Place;
    WordLoad();
    LoadOutcome(sys, h, m, LW, address);
    match Physical(sys, h, m, LOAD, address) {
      case Translated(r, p) =>
        if Place(r, p, 4).Some? {
          WordThere(r, p);
        }
      case _ =>
    }
  }

  lemma WordLoad()
    ensures KindOf(LW) == LoadKind && WidthOf(LW) == WordWidth && ByteCount(LW) == 4
  {
  }

  lemma WordThere<D>(r: Ram<D>, p: Word)
    requires Place(r, p, 4).Some?
    ensures var (i, o) := Place(r, p, 4).value; RamWord(r, p) == ValueAt(r.contents[i], o, WordWidth)
  {
    hide Place, WordAt;
  }

  /** An AMO translates its address twice, for the load and, in the memory that this leaves, for
      the store. */
  lemma AmoAt<D>(sys: System<D>, h: Hart<Ram<D>>, m: Ram<D>, w: Word, op: Op, r: Ram<D>, p: Word)
    requires Boundary(h) && h.life == Live && FetchOf(RamBus(sys), h) == Fetched(m, w) && IsA(w, op) && IsAmo(op)
    requires Physical(sys, h, m, LOAD, h.x[Rs1(w)]) == Translated(r, p) && Place(r, p, 4).Some?
    ensures var h', at, address := Step(RamBus(sys), h), PointerOf(RamBus(sys), h), h.x[Rs1(w)];
            var was := RamWord(r, p);
            var stored := AmoStored(h, op, RamWord(r, at), was);
            match Physical(sys, h, r, STORE, address)
            case PageFault(r') => h'.life == Live && Recorded(h, h', 15, address) && h'.mem == r'
            case NoTable => h'.life == Crashed
            case Translated(r', p') =>
              Place(r', p', 4).Some? ==>
                && h'.life == Live && h'.mem == PutBytes(r', p', LittleBytes(4, stored))
                && h'.x == h.SetReg(AmoRd(op, RamWord(r, at), RamWord(h'.mem, at)), was).x
  {
    hide Step, IsA, IsAmo, Recorded, FetchOf, PointerOf, Place, RamWord, PutBytes, LittleBytes, Physical, RamBus, Rs1;
    hide AmoStored, AmoRd, Untranslated;
    var at, address := PointerOf(RamBus(sys), h), h.x[Rs1(w)];
    var stored := AmoStored(h, op, RamWord(r, at), RamWord(r, p));
    WordOutcome(sys, h, m, address);
    StoreOutcome(sys, h, r, WordWidth, address, stored);
    AllWords(sys);
    match Physical(sys, h, r, STORE, address) {
      case Translated(r', p') =>
        if Place(r', p', 4).Some? {
          AmoStep(RamBus(sys), h, m, w, op, r, RamWord(r, p), PutBytes(r', p', LittleBytes(4, stored)));
        }
      case _ => AmoStoreFails(RamBus(sys), h, m, w, op, r, RamWord(r, p));
    }
  }

  lemma AllWords<D>(sys: System<D>)
    ensures forall r, at :: RamBus(sys).word(r, at) == RamWord(r, at)
  {
    hide RamWord;
  }

  /** An AMO whose store faults or finds no memory, on any bus. */
  lemma AmoStoreFails<M>(bus: Bus<M>, h: Hart<M>, m: M, w: Word, op: Op, m1: M, was: Word)
    requires Boundary(h) && h.life == Live && FetchOf(bus, h) == Fetched(m, w) && IsA(w, op) && IsAmo(op)
    requires bus.load(m, h.Access(), WordWidth, h.x[Rs1(w)]) == Loaded(m1, was)
    ensures var h', u := Step(bus, h), bus.word(m1, PointerOf(bus, h));
            var stored := bus.store(m1, h.Access(), WordWidth, h.x[Rs1(w)], AmoStored(h, op, u, was));
            && (stored.StoreFault? ==> h'.life == Live && Recorded(h, h', 15, h.x[Rs1(w)]) && h'.mem == stored.mem)
            && (stored.StoreUnmapped? ==> h'.life == Crashed)
  {
    hide Step, FirstMatch, IsA, IsAmo, Handle, Finish, AtomicOp, Add32, KindOf, Recorded, FetchOf, PointerOf, Rs1, AmoStored;
    var h1, at := AtHandler(h, m), PointerOf(bus, h);
    EmulatorSelects(w, op);
    StepSelected(bus, h, m, w, op);
    AmoIsAtomic(op);
    LoadOfHandle(bus, h1, op, w, at);
    AmoStoreFailing(bus, h1, op, w, m1, was, at);
    SameStored(h, h1, op, bus.word(m1, at), was);
    var t := AtomicOp(bus, h1, op, w, at);
    if bus.store(m1, h.Access(), WordWidth, h.x[Rs1(w)], AmoStored(h, op, bus.word(m1, at), was)).StoreFault? {
      FinishTraps(h, t);
      FinishKeeps(t);
    }
  }

  lemma SameStored<M>(h: Hart<M>, h1: Hart<M>, op: Op, u: Word, was: Word)
    requires h.Shaped() && h1.Shaped() && h1.x == h.x
    ensures AmoStored(h1, op, u, was) == AmoStored(h, op, u, was)
  {
    hide AmoResult, Rs2;
  }

  lemma AmoStoreFailing<M>(bus: Bus<M>, h: Hart<M>, op: Op, w: Word, m1: M, was: Word, at: Word)
    requires h.Shaped() && h.life == Live && IsAmo(op)
    requires bus.load(h.mem, h.Access(), WordWidth, h.x[Rs1(w)]) == Loaded(m1, was)
    ensures var stored := bus.store(m1, h.Access(), WordWidth, h.x[Rs1(w)], AmoStored(h, op, bus.word(m1, at), was));
            var t := AtomicOp(bus, h, op, w, at);
            && (stored.StoreFault? ==>
                  && t.life == Live && t.hasPendingException && t.pendingException == 15 && t.pendingTval == h.x[Rs1(w)]
                  && t.mem == stored.mem && t.csr == h.csr && t.privilege == h.privilege)
            && (stored.StoreUnmapped? ==> t.life == Crashed)
  {
    hide Rd, Rs1, Rs2, AmoResult, Amo, SwapAmo;
    if op == AMOSWAP_W {
      SwapStoreFailing(bus, h, w, m1, was, at);
    } else {
      OtherStoreFailing(bus, h, op, w, m1, was, at);
    }
  }

  lemma SwapStoreFailing<M>(bus: Bus<M>, h: Hart<M>, w: Word, m1: M, was: Word, at: Word)
    requires h.Shaped() && h.life == Live
    requires bus.load(h.mem, h.Access(), WordWidth, h.x[Rs1(w)]) == Loaded(m1, was)
    ensures var stored := bus.store(m1, h.Access(), WordWidth, h.x[Rs1(w)], AmoStored(h, AMOSWAP_W, bus.word(m1, at), was));
            var t := SwapAmo(bus, h, w, at);
            && (stored.StoreFault? ==>
                  && t.life == Live && t.hasPendingException && t.pendingException == 15 && t.pendingTval == h.x[Rs1(w)]
                  && t.mem == stored.mem && t.csr == h.csr && t.privilege == h.privilege)
            && (stored.StoreUnmapped? ==> t.life == Crashed)
  {
    hide Rd, Rs1, Rs2;
  }

  lemma OtherStoreFailing<M>(bus: Bus<M>, h: Hart<M>, op: Op, w: Word, m1: M, was: Word, at: Word)
    requires h.Shaped() && h.life == Live && op != AMOSWAP_W
    requires bus.load(h.mem, h.Access(), WordWidth, h.x[Rs1(w)]) == Loaded(m1, was)
    ensures var stored := bus.store(m1, h.Access(), WordWidth, h.x[Rs1(w)], AmoStored(h, op, bus.word(m1, at), was));
            var t := Amo(bus, h, op, w, at);
            && (stored.StoreFault? ==>
                  && t.life == Live && t.hasPendingException && t.pendingException == 15 && t.pendingTval == h.x[Rs1(w)]
                  && t.mem == stored.mem && t.csr == h.csr && t.privilege == h.privilege)
            && (stored.StoreUnmapped? ==> t.life == Crashed)
  {
    hide Rd, Rs1, Rs2, AmoResult;
  }

  /** LR and SC, at their place: a page fault is a trap of cause 13 or 15 with the address. */
  lemma ReserveAt<D>(sys: System<D>, h: Hart<Ram<D>>, m: Ram<D>, w: Word)
    requires Boundary(h) && h.life == Live && FetchOf(RamBus(sys), h) == Fetched(m, w) && IsA(w, LR_W)
    ensures var h', at, address := Step(RamBus(sys), h), PointerOf(RamBus(sys), h), h.x[Rs1(w)];
            match Physical(sys, h, m, LOAD, address)
            case PageFault(r) => h'.life == Live && Recorded(h, h', 13, address) && h'.mem == r && h'.loadReservation == address
            case NoTable => h'.life == Crashed
            case Translated(r, p) =>
              Place(r, p, 4).Some? ==>
                && h'.life == Live && h'.mem == r && h'.loadReservation == address
                && h'.x == h.SetReg(Rd(RamWord(r, at)), RamWord(r, p)).x
  {
    hide Step, FirstMatch, IsA, Finish, Add32, Recorded, FetchOf, PointerOf, Rd, Rs1, RamWord, Physical, Place, Untranslated;
    hide Handle, LoadReserve, RamBus;
    var h1, at := AtHandler(h, m), PointerOf(RamBus(sys), h);
    WordOutcome(sys, h, m, h.x[Rs1(w)]);
    AllWords(sys);
    EmulatorSelects(w, LR_W);
    StepSelected(RamBus(sys), h, m, w, LR_W);
    ReserveParts(RamBus(sys), h1, w, at);
    var t := LoadReserve(RamBus(sys), h1, w, at);
    if t.life == Live {
      FinishKeeps(t);
      if t.hasPendingException {
        FinishTraps(h, t);
      }
    }
  }

  lemma ReserveParts<M>(bus: Bus<M>, h: Hart<M>, w: Word, at: Word)
    requires h.Shaped() && h.life == Live && !h.hasPendingException
    ensures Handle(bus, h, LR_W, w, at) == LoadReserve(bus, h, w, at)
    ensures var t, address := LoadReserve(bus, h, w, at), h.x[Rs1(w)];
            match bus.load(h.mem, h.Access(), WordWidth, address)
            case LoadFault(r) =>
              && t.life == Live && t.hasPendingException && t.pendingException == 13 && t.pendingTval == address
              && t.mem == r && t.csr == h.csr && t.privilege == h.privilege && t.loadReservation == address
            case LoadUnmapped => t.life == Crashed
            case Loaded(r, value) =>
              && t.life == Live && !t.hasPendingException && t.mem == r && t.loadReservation == address
              && t.x == h.SetReg(Rd(bus.word(r, at)), value).x
  {
    hide Handle, Rd, Rs1;
    hide RegisterOp, ImmediateOp, UpperOp, BranchOp, JumpOp, LoadInto, StoreFrom, CsrOp, SystemOp;
    HandleByKind(bus, h, LR_W, w, at);
  }

  lemma ConditionalAt<D>(sys: System<D>, h: Hart<Ram<D>>, m: Ram<D>, w: Word)
    requires Boundary(h) && h.life == Live && FetchOf(RamBus(sys), h) == Fetched(m, w) && IsA(w, SC_W)
    requires h.loadReservation == h.x[Rs1(w)]
    ensures var h', at, address := Step(RamBus(sys), h), PointerOf(RamBus(sys), h), h.x[Rs1(w)];
            match Physical(sys, h, m, STORE, address)
            case PageFault(r) => h'.life == Live && Recorded(h, h', 15, address) && h'.mem == r
            case NoTable => h'.life == Crashed
            case Translated(r, p) =>
              Place(r, p, 4).Some? ==>
                && h'.life == Live && h'.mem == PutBytes(r, p, LittleBytes(4, h.x[Rs2(w)]))
                && h'.x == h.SetReg(Rd(RamWord(h'.mem, at)), 0).x
  {
    hide Step, FirstMatch, IsA, Finish, Add32, Recorded, FetchOf, PointerOf, Rd, Rs1, Rs2, RamWord, Physical, Place, Untranslated;
    hide Handle, StoreConditional, RamBus, PutBytes, LittleBytes;
    var h1, at := AtHandler(h, m), PointerOf(RamBus(sys), h);
    StoreOutcome(sys, h, m, WordWidth, h.x[Rs1(w)], h.x[Rs2(w)]);
    AllWords(sys);
    EmulatorSelects(w, SC_W);
    StepSelected(RamBus(sys), h, m, w, SC_W);
    ConditionalParts(RamBus(sys), h1, w, at);
    var t := StoreConditional(RamBus(sys), h1, w, at);
    if t.life == Live {
      FinishKeeps(t);
      if t.hasPendingException {
        FinishTraps(h, t);
      }
    }
  }

  lemma ConditionalParts<M>(bus: Bus<M>, h: Hart<M>, w: Word, at: Word)
    requires h.Shaped() && h.life == Live && !h.hasPendingException && h.loadReservation == h.x[Rs1(w)]
    ensures Handle(bus, h, SC_W, w, at) == StoreConditional(bus, h, w, at)
    ensures var t, address := StoreConditional(bus, h, w, at), h.x[Rs1(w)];
            match bus.store(h.mem, h.Access(), WordWidth, address, h.x[Rs2(w)])
            case StoreFault(r) =>
              && t.life == Live && t.hasPendingException && t.pendingException == 15 && t.pendingTval == address
              && t.mem == r && t.csr == h.csr && t.privilege == h.privilege
            case StoreUnmapped => t.life == Crashed
            case Stored(r) =>
              t.life == Live && !t.hasPendingException && t.mem == r && t.x == h.SetReg(Rd(bus.word(r, at)), 0).x
  {
    hide Handle, Rd, Rs1, Rs2;
    hide RegisterOp, ImmediateOp, UpperOp, BranchOp, JumpOp, LoadInto, StoreFrom, CsrOp, SystemOp;
    HandleByKind(bus, h, SC_W, w, at);
  }
}
