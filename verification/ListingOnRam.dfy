/** The listing determines what a machine does: two machines whose RAM differs in one word, and
    whose two words have the same listing, still differ in that word alone after any number of
    steps, as long as no instruction accesses that word. */
module ListingOnRam {
  import opened Words
  import opened Options
  import opened Memory
  import opened MemoryMap
  import opened Bytes
  import opened PhysicalMemory
  import opened Decode
  import opened Opcodes
  import opened Status
  import opened HartSpec
  import opened Runs
  import opened TrapEntry
  import opened Accesses
  import opened Translation
  import opened CsrConformance
  import opened Disassembler

  function WithWord<D>(h: Hart<Ram<D>>, at: Word, w: Word): Hart<Ram<D>> {
    h.(mem := PutWord(h.mem, at, w))
  }

  // ---------------------------------------------------------------- memory

  lemma TargetAlike<D>(sys: System<D>, ram: Ram<D>, a: Access, p: Word, at: Word, w: Word)
    requires Bare(a) && Place(ram, p, 4).Some?
    ensures RamTarget(sys, ram, a, p) == Target.Target(ram, p)
    ensures RamTarget(sys, PutWord(ram, at, w), a, p) == Target.Target(PutWord(ram, at, w), p)
  {
    hide PutWord, Lookup;
    PutKeepsPlaces(ram, at, w, p, 4);
  }

  /** Bytes apart from the word that is put read the same. */
  lemma ValueAlike(bytes: seq<Byte>, o: nat, w: Word, o': nat, width: Width)
    requires o + 4 <= |bytes| && o' + Size(width) <= |bytes| && Apart(o, 4, o', Size(width))
    ensures ValueAt(Patched(bytes, o, LowBytes(WordWidth, w)), o', width) == ValueAt(bytes, o', width)
  {
    hide LowBytes;
  }

  lemma LoadAlike<D>(sys: System<D>, ram: Ram<D>, a: Access, width: Width, p: Word, at: Word, w: Word)
    requires Bare(a) && Apart(p, Size(width), at, 4)
    ensures RamLoad(sys, PutWord(ram, at, w), a, width, p) ==
            match RamLoad(sys, ram, a, width, p)
            case Loaded(m, value) => Loaded(PutWord(m, at, w), value)
            case LoadFault(m) => LoadFault(PutWord(m, at, w))
            case LoadUnmapped => LoadUnmapped
  {
    hide LowBytes, ValueAt;
    PutKeepsPlaces(ram, at, w, p, Size(width));
    if Place(ram, p, Size(width)).Some? && Place(ram, at, 4).Some? {
      var (i, o) := Place(ram, at, 4).value;
      var (j, o') := Place(ram, p, Size(width)).value;
      OffsetFits(ram.ranges[i], at);
      OffsetFits(ram.ranges[j], p);
      if i == j {
        ValueAlike(ram.contents[i], o, w, o', width);
      }
    }
  }

  /** Writes to separate bytes commute. */
  lemma PatchesCommute(bytes: seq<Byte>, o: nat, data: seq<Byte>, o': nat, data': seq<Byte>)
    requires o + |data| <= |bytes| && o' + |data'| <= |bytes| && Apart(o, |data|, o', |data'|)
    ensures Patched(Patched(bytes, o, data), o', data') == Patched(Patched(bytes, o', data'), o, data)
  {
  }

  lemma StoreAlike<D>(sys: System<D>, ram: Ram<D>, a: Access, width: Width, p: Word, value: Word, at: Word, w: Word)
    requires Bare(a) && Apart(p, Size(width), at, 4)
    ensures RamStore(sys, PutWord(ram, at, w), a, width, p, value) ==
            match RamStore(sys, ram, a, width, p, value)
            case Stored(m) => Stored(PutWord(m, at, w))
            case StoreFault(m) => StoreFault(PutWord(m, at, w))
            case StoreUnmapped => StoreUnmapped
  {
    hide LowBytes;
    PutKeepsPlaces(ram, at, w, p, Size(width));
    if Place(ram, p, Size(width)).Some? && Place(ram, at, 4).Some? {
      StoresCommute(ram, width, p, value, at, w);
    }
  }

  /** The contents after a store and a put, in either order. */
  lemma StoresCommute<D>(ram: Ram<D>, width: Width, p: Word, value: Word, at: Word, w: Word)
    requires Apart(p, Size(width), at, 4) && Place(ram, p, Size(width)).Some? && Place(ram, at, 4).Some?
    ensures var (j, o') := Place(ram, p, Size(width)).value;
            var stored := ram.(contents := ram.contents[j := Patched(ram.contents[j], o', LowBytes(width, value))]);
            var put := PutWord(ram, at, w);
            && o' + Size(width) <= |put.contents[j]|
            && PutWord(stored, at, w) ==
               put.(contents := put.contents[j := Patched(put.contents[j], o', LowBytes(width, value))])
  {
    hide LowBytes, Lookup;
    var (i, o) := Place(ram, at, 4).value;
    var (j, o') := Place(ram, p, Size(width)).value;
    OffsetFits(ram.ranges[i], at);
    OffsetFits(ram.ranges[j], p);
    var data, data' := LowBytes(WordWidth, w), LowBytes(width, value);
    if i == j {
      PatchesCommute(ram.contents[i], o, data, o', data');
    }
    var put := PutWord(ram, at, w);
    var stored := ram.(contents := ram.contents[j := Patched(ram.contents[j], o', data')]);
    assert Place(stored, at, 4) == Place(ram, at, 4);
    assert PutWord(stored, at, w).contents == put.contents[j := Patched(put.contents[j], o', data')];
  }

  // ---------------------------------------------------------------- accesses of a hart

  lemma ReadAlike<D>(sys: System<D>, h: Hart<Ram<D>>, width: Width, p: Word, at: Word, w: Word)
    requires h.Shaped() && Bare(h.Access()) && Apart(p, Size(width), at, 4)
    ensures var (h1, value) := Read(RamBus(sys), h, width, p);
            Read(RamBus(sys), WithWord(h, at, w), width, p) == (WithWord(h1, at, w), value)
  {
    hide PutWord, RamLoad;
    LoadAlike(sys, h.mem, h.Access(), width, p, at, w);
  }

  lemma WriteAlike<D>(sys: System<D>, h: Hart<Ram<D>>, width: Width, p: Word, value: Word, at: Word, w: Word)
    requires h.Shaped() && Bare(h.Access()) && Apart(p, Size(width), at, 4)
    ensures Write(RamBus(sys), WithWord(h, at, w), width, p, value) == WithWord(Write(RamBus(sys), h, width, p, value), at, w)
  {
    hide PutWord, RamStore;
    StoreAlike(sys, h.mem, h.Access(), width, p, value, at, w);
  }

  /** The word w lies at an address of RAM. */
  predicate Holds<D>(ram: Ram<D>, at: Word, w: Word) {
    Place(ram, at, 4).Some? && RamWord(ram, at) == w
  }

  /** w' is put at an address of the other machine.  The words that the two machines execute, w
      and u, are what lies there, if that is where the instruction is, and else are the same
      word from elsewhere. */
  predicate Under<D>(ram: Ram<D>, from: Word, at: Word, w: Word, u: Word, w': Word) {
    if from == at then Holds(ram, at, w) && u == w' else Apart(from, 4, at, 4) && u == w
  }

  lemma Seen<D>(ram: Ram<D>, from: Word, at: Word, w: Word, u: Word, w': Word)
    requires Under(ram, from, at, w, u, w')
    ensures var r, r' := RamWord(ram, from), RamWord(PutWord(ram, at, w'), from); (r == w && r' == u) || r == r'
  {
    hide PutWord, RamWord, Place;
    if from == at {
      PutReadsBack(ram, at, w');
    } else {
      PutElsewhere(ram, at, w', from);
    }
  }

  lemma ReadUnder<D>(sys: System<D>, h: Hart<Ram<D>>, width: Width, p: Word, from: Word, at: Word, w: Word, u: Word, w': Word)
    requires h.Shaped() && Bare(h.Access()) && Under(h.mem, from, at, w, u, w')
    ensures var h1 := Read(RamBus(sys), h, width, p).0;
            Under(h1.mem, from, at, w, u, w') && h1.x == h.x && h1.Shaped() && h1.Access() == h.Access()
  {
    hide ValueAt, WordAt;
  }

  lemma WriteUnder<D>(sys: System<D>, h: Hart<Ram<D>>, width: Width, p: Word, value: Word, from: Word, at: Word, w: Word, u: Word, w': Word)
    requires h.Shaped() && Bare(h.Access()) && Under(h.mem, from, at, w, u, w') && Apart(p, Size(width), at, 4)
    ensures Under(Write(RamBus(sys), h, width, p, value).mem, from, at, w, u, w')
  {
    hide Holds, Write, RamBus;
    if from == at {
      WriteHolds(sys, h, width, p, value, at, w);
    }
  }

  lemma WriteHolds<D>(sys: System<D>, h: Hart<Ram<D>>, width: Width, p: Word, value: Word, at: Word, w: Word)
    requires h.Shaped() && Bare(h.Access()) && Holds(h.mem, at, w) && Apart(p, Size(width), at, 4)
    ensures Holds(Write(RamBus(sys), h, width, p, value).mem, at, w)
  {
    hide RamWord;
    if RamStore(sys, h.mem, h.Access(), width, p, value).Stored? {
      StoreElsewhere(sys, h.mem, h.Access(), width, p, value, at);
      StoreKeepsPlaces(sys, h.mem, h.Access(), width, p, value, at);
    }
    NoStoreFault(sys, h.mem, h.Access(), width, p, value);
    hide RamStore, Place;
  }

  lemma StoreKeepsPlaces<D>(sys: System<D>, ram: Ram<D>, a: Access, width: Width, p: Word, value: Word, at: Word)
    requires Bare(a) && RamStore(sys, ram, a, width, p, value).Stored?
    ensures Place(RamStore(sys, ram, a, width, p, value).mem, at, 4) == Place(ram, at, 4)
  {
    hide LowBytes, Lookup;
  }

  lemma NoStoreFault<D>(sys: System<D>, ram: Ram<D>, a: Access, width: Width, p: Word, value: Word)
    requires Bare(a)
    ensures !RamStore(sys, ram, a, width, p, value).StoreFault?
  {
  }

  // ---------------------------------------------------------------- handlers that access memory

  /** w and w' give a handler that accesses memory the same operands. */
  predicate SameOperands(op: Op, w: Word, w': Word) {
    && Rd(w) == Rd(w') && Rs1(w) == Rs1(w') && (op != LR_W ==> Rs2(w) == Rs2(w'))
  }

  lemma LoadIntoAlike<D>(sys: System<D>, h: Hart<Ram<D>>, op: Op, w: Word, u: Word, from: Word, at: Word, w': Word)
    requires h.Shaped() && Bare(h.Access()) && Under(h.mem, from, at, w, u, w') && KindOf(op) == LoadKind
    requires Rd(w) == Rd(u) && Rs1(w) == Rs1(u) && GetIImm(w) == GetIImm(u)
    requires Apart(AccessAddress(h, op, w), Size(WidthOf(op)), at, 4)
    ensures LoadInto(RamBus(sys), WithWord(h, at, w'), op, u, from) == WithWord(LoadInto(RamBus(sys), h, op, w, from), at, w')
  {
    hide KindOf, Read, Rd, Rs1, GetIImm, Extended, WidthOf, ToWord, Add32, PutWord, RamWord, Place, Under;
    SumAddress(h.x[Rs1(w)], GetIImm(w));
    var p := AccessAddress(h, op, w);
    ReadAlike(sys, h, WidthOf(op), p, at, w');
    ReadUnder(sys, h, WidthOf(op), p, from, at, w, u, w');
    Seen(Read(RamBus(sys), h, WidthOf(op), p).0.mem, from, at, w, u, w');
  }

  lemma StoreFromAlike<D>(sys: System<D>, h: Hart<Ram<D>>, op: Op, w: Word, u: Word, at: Word, w': Word)
    requires h.Shaped() && Bare(h.Access()) && KindOf(op) == StoreKind
    requires Rs1(w) == Rs1(u) && Rs2(w) == Rs2(u) && GetSImm(w) == GetSImm(u)
    requires Apart(AccessAddress(h, op, w), Size(WidthOf(op)), at, 4)
    ensures StoreFrom(RamBus(sys), WithWord(h, at, w'), op, u) == WithWord(StoreFrom(RamBus(sys), h, op, w), at, w')
  {
    hide KindOf, Write, Rs1, Rs2, GetSImm, Truncated, WidthOf, ToWord, Add32, PutWord;
    SumAddress(h.x[Rs1(w)], GetSImm(w));
    WriteAlike(sys, h, WidthOf(op), AccessAddress(h, op, w), Truncated(op, h.x[Rs2(w)]), at, w');
  }

  lemma AmoAlike<D>(sys: System<D>, h: Hart<Ram<D>>, op: Op, w: Word, u: Word, from: Word, at: Word, w': Word)
    requires h.Shaped() && Bare(h.Access()) && Under(h.mem, from, at, w, u, w')
    requires Rd(w) == Rd(u) && Rs1(w) == Rs1(u) && Rs2(w) == Rs2(u)
    requires Apart(h.x[Rs1(w)], 4, at, 4)
    ensures Amo(RamBus(sys), WithWord(h, at, w'), op, u, from) == WithWord(Amo(RamBus(sys), h, op, w, from), at, w')
  {
    hide Read, Write, Rd, Rs1, Rs2, AmoResult, PutWord, RamWord, Place, Under;
    var p := h.x[Rs1(w)];
    ReadAlike(sys, h, WordWidth, p, at, w');
    ReadUnder(sys, h, WordWidth, p, from, at, w, u, w');
    var (h1, was) := Read(RamBus(sys), h, WordWidth, p);
    Seen(h1.mem, from, at, w, u, w');
    var value := AmoResult(op, was, h1.x[Rs2(RamWord(h1.mem, from))]);
    WriteAlike(sys, h1, WordWidth, p, value, at, w');
    WriteUnder(sys, h1, WordWidth, p, value, from, at, w, u, w');
    Seen(Write(RamBus(sys), h1, WordWidth, p, value).mem, from, at, w, u, w');
  }

  lemma SwapAlike<D>(sys: System<D>, h: Hart<Ram<D>>, w: Word, u: Word, from: Word, at: Word, w': Word)
    requires h.Shaped() && Bare(h.Access()) && Under(h.mem, from, at, w, u, w')
    requires Rd(w) == Rd(u) && Rs1(w) == Rs1(u) && Rs2(w) == Rs2(u)
    requires Apart(h.x[Rs1(w)], 4, at, 4)
    ensures SwapAmo(RamBus(sys), WithWord(h, at, w'), u, from) == WithWord(SwapAmo(RamBus(sys), h, w, from), at, w')
  {
    hide Read, Write, Rd, Rs1, Rs2, PutWord, RamWord, Place, Under;
    var p := h.x[Rs1(w)];
    ReadAlike(sys, h, WordWidth, p, at, w');
    ReadUnder(sys, h, WordWidth, p, from, at, w, u, w');
    var (h1, was) := Read(RamBus(sys), h, WordWidth, p);
    Seen(h1.mem, from, at, w, u, w');
    var again := RamWord(h1.mem, from);
    var h2 := h1.SetReg(Rd(again), was);
    WriteAlike(sys, h2, WordWidth, p, h2.x[Rs2(again)], at, w');
  }

  lemma ReserveAlike<D>(sys: System<D>, h: Hart<Ram<D>>, w: Word, u: Word, from: Word, at: Word, w': Word)
    requires h.Shaped() && Bare(h.Access()) && Under(h.mem, from, at, w, u, w') && Rd(w) == Rd(u) && Rs1(w) == Rs1(u)
    requires Apart(h.x[Rs1(w)], 4, at, 4)
    ensures LoadReserve(RamBus(sys), WithWord(h, at, w'), u, from) ==
            WithWord(LoadReserve(RamBus(sys), h, w, from), at, w')
  {
    hide Read, Rd, Rs1, Rs2, PutWord, RamWord, Place, Under;
    var p := h.x[Rs1(w)];
    ReadAlike(sys, h, WordWidth, p, at, w');
    ReadUnder(sys, h, WordWidth, p, from, at, w, u, w');
    Seen(Read(RamBus(sys), h, WordWidth, p).0.mem, from, at, w, u, w');
  }

  lemma ConditionalAlike<D>(sys: System<D>, h: Hart<Ram<D>>, w: Word, u: Word, from: Word, at: Word, w': Word)
    requires h.Shaped() && Bare(h.Access()) && Under(h.mem, from, at, w, u, w')
    requires Rd(w) == Rd(u) && Rs1(w) == Rs1(u) && Rs2(w) == Rs2(u)
    requires Apart(h.x[Rs1(w)], 4, at, 4)
    ensures StoreConditional(RamBus(sys), WithWord(h, at, w'), u, from) ==
            WithWord(StoreConditional(RamBus(sys), h, w, from), at, w')
  {
    hide Write, Rd, Rs1, Rs2, PutWord, RamWord, Place, Under;
    var p, value := h.x[Rs1(w)], h.x[Rs2(w)];
    WriteAlike(sys, h, WordWidth, p, value, at, w');
    WriteUnder(sys, h, WordWidth, p, value, from, at, w, u, w');
    Seen(Write(RamBus(sys), h, WordWidth, p, value).mem, from, at, w, u, w');
  }

  lemma OperandsOf(op: Op, w: Word, w': Word)
    requires SameOperands(op, w, w')
    ensures Rd(w) == Rd(w') && Rs1(w) == Rs1(w') && (op != LR_W ==> Rs2(w) == Rs2(w'))
  {
  }

  lemma AtomicParts<M>(bus: Bus<M>, h: Hart<M>, op: Op, w: Word, at: Word)
    requires h.Shaped()
    ensures AtomicOp(bus, h, op, w, at) ==
            if op == AMOSWAP_W then SwapAmo(bus, h, w, at)
            else if op == LR_W then LoadReserve(bus, h, w, at)
            else if op == SC_W then StoreConditional(bus, h, w, at)
            else Amo(bus, h, op, w, at)
  {
    hide SwapAmo, LoadReserve, StoreConditional, Amo;
  }

  lemma AtomicAlike<D>(sys: System<D>, h: Hart<Ram<D>>, op: Op, w: Word, u: Word, from: Word, at: Word, w': Word)
    requires h.Shaped() && Bare(h.Access()) && Under(h.mem, from, at, w, u, w') && KindOf(op) == AtomicKind
    requires SameOperands(op, w, u) && Apart(h.x[Rs1(w)], 4, at, 4)
    ensures AtomicOp(RamBus(sys), WithWord(h, at, w'), op, u, from) ==
            WithWord(AtomicOp(RamBus(sys), h, op, w, from), at, w')
  {
    hide KindOf, AtomicOp, Amo, SwapAmo, LoadReserve, StoreConditional, Rd, Rs1, Rs2, Under, PutWord, RamBus, SameOperands;
    OperandsOf(op, w, u);
    AtomicParts(RamBus(sys), h, op, w, from);
    AtomicParts(RamBus(sys), WithWord(h, at, w'), op, u, from);
    if op == AMOSWAP_W {
      SwapAlike(sys, h, w, u, from, at, w');
    } else if op == LR_W {
      ReserveAlike(sys, h, w, u, from, at, w');
    } else if op == SC_W {
      ConditionalAlike(sys, h, w, u, from, at, w');
    } else {
      AmoAlike(sys, h, op, w, u, from, at, w');
    }
  }

  // ---------------------------------------------------------------- the other handlers

  /** What does not access memory does not look at it. */
  lemma RegisterAlike<M>(h: Hart<M>, m: M, op: Op, w: Word)
    requires h.Shaped()
    ensures RegisterOp(h.(mem := m), op, w) == RegisterOp(h, op, w).(mem := m)
    ensures ImmediateOp(h.(mem := m), op, w) == ImmediateOp(h, op, w).(mem := m)
  {
    hide Rd, Rs1, Rs2, RegisterResult, ImmediateTwin, GetIImm, ToWord;
  }

  lemma UpperAlike<M>(h: Hart<M>, m: M, op: Op, w: Word)
    requires h.Shaped()
    ensures UpperOp(h.(mem := m), op, w) == UpperOp(h, op, w).(mem := m)
  {
    hide Rd, Upper, ToWord;
  }

  lemma BranchAlike<M>(h: Hart<M>, m: M, op: Op, w: Word)
    requires h.Shaped()
    ensures BranchOp(h.(mem := m), op, w) == BranchOp(h, op, w).(mem := m)
  {
    hide Rs1, Rs2, GetBImm, Taken, ToWord;
  }

  lemma SetRegAlike<M>(h: Hart<M>, m: M, k: nat, value: Word, pc: Word)
    requires h.Shaped() && k < 32
    ensures h.(mem := m).SetReg(k, value).(pc := pc) == h.SetReg(k, value).(pc := pc).(mem := m)
  {
  }

  lemma JumpAlike<M>(h: Hart<M>, m: M, op: Op, w: Word)
    requires h.Shaped()
    ensures JumpOp(h.(mem := m), op, w) == JumpOp(h, op, w).(mem := m)
  {
    hide Rd, Rs1, GetIImm, GetJImm, ToWord, Hart.SetReg;
    var pc := ToWord(if op == JAL then h.pc + GetJImm(w) - 4 else h.x[Rs1(w)] + GetIImm(w));
    assert JumpOp(h, op, w) == h.SetReg(Rd(w), h.pc).(pc := pc);
    assert JumpOp(h.(mem := m), op, w) == h.(mem := m).SetReg(Rd(w), h.pc).(pc := pc);
    SetRegAlike(h, m, Rd(w), h.pc, pc);
  }

  lemma OthersKeepMemory<M>(h: Hart<M>, op: Op, w: Word)
    requires h.Shaped()
    ensures RegisterOp(h, op, w).mem == ImmediateOp(h, op, w).mem == UpperOp(h, op, w).mem == h.mem
    ensures BranchOp(h, op, w).mem == JumpOp(h, op, w).mem == h.mem
  {
    hide Rd, Rs1, Rs2, RegisterResult, ImmediateTwin, GetIImm, GetBImm, GetJImm, Upper, Taken, ToWord;
  }

  lemma SetBitsAlike<M>(h: Hart<M>, m: M, w: Word)
    requires h.Shaped()
    ensures CsrOp(h.(mem := m), CSRRS, w) == CsrOp(h, CSRRS, w).(mem := m) && CsrOp(h, CSRRS, w).mem == h.mem
  {
    hide Rd, Rs1, GetIImmUnsigned, Or32, And32, Not32;
    CsrInRange(w);
  }

  lemma WriteCsrAlike<M>(h: Hart<M>, m: M, w: Word)
    requires h.Shaped()
    ensures CsrOp(h.(mem := m), CSRRW, w) == CsrOp(h, CSRRW, w).(mem := m) && CsrOp(h, CSRRW, w).mem == h.mem
  {
    hide Rd, Rs1, GetIImmUnsigned, Or32, And32, Not32;
    CsrInRange(w);
  }

  lemma ClearBitsAlike<M>(h: Hart<M>, m: M, w: Word)
    requires h.Shaped()
    ensures CsrOp(h.(mem := m), CSRRC, w) == CsrOp(h, CSRRC, w).(mem := m) && CsrOp(h, CSRRC, w).mem == h.mem
  {
    hide Rd, Rs1, GetIImmUnsigned, Or32, And32, Not32;
    CsrInRange(w);
  }

  lemma SetImmediateAlike<M>(h: Hart<M>, m: M, w: Word)
    requires h.Shaped()
    ensures CsrOp(h.(mem := m), CSRRSI, w) == CsrOp(h, CSRRSI, w).(mem := m) && CsrOp(h, CSRRSI, w).mem == h.mem
  {
    hide Rd, Rs1, GetIImmUnsigned, Or32, And32, Not32;
    CsrInRange(w);
  }

  lemma WriteImmediateAlike<M>(h: Hart<M>, m: M, w: Word)
    requires h.Shaped()
    ensures CsrOp(h.(mem := m), CSRRWI, w) == CsrOp(h, CSRRWI, w).(mem := m) && CsrOp(h, CSRRWI, w).mem == h.mem
  {
    hide Rd, Rs1, GetIImmUnsigned, Or32, And32, Not32;
    CsrInRange(w);
  }

  lemma ClearImmediateAlike<M>(h: Hart<M>, m: M, w: Word)
    requires h.Shaped()
    ensures CsrOp(h.(mem := m), CSRRCI, w) == CsrOp(h, CSRRCI, w).(mem := m) && CsrOp(h, CSRRCI, w).mem == h.mem
  {
    hide Rd, Rs1, GetIImmUnsigned, Or32, And32, Not32;
    CsrInRange(w);
  }

  lemma CsrAlike<M>(h: Hart<M>, m: M, op: Op, w: Word)
    requires h.Shaped() && KindOf(op) == CsrKind
    ensures CsrOp(h.(mem := m), op, w) == CsrOp(h, op, w).(mem := m) && CsrOp(h, op, w).mem == h.mem
  {
    hide CsrOp, KindOf;
    CsrOps(op);
    SetBitsAlike(h, m, w);
    WriteCsrAlike(h, m, w);
    ClearBitsAlike(h, m, w);
    SetImmediateAlike(h, m, w);
    WriteImmediateAlike(h, m, w);
    ClearImmediateAlike(h, m, w);
  }

  lemma TrapAlike<M>(h: Hart<M>, m: M, cause: Word, tval: Word)
    requires h.Shaped()
    ensures TakeTrap(h.(mem := m), cause, tval) == TakeTrap(h, cause, tval).(mem := m)
    ensures TakeTrap(h, cause, tval).mem == h.mem
  {
    hide SupervisorTrapStatus, MachineTrapStatus, Bit, Sub32;
  }

  lemma EcallAlike<M>(h: Hart<M>, m: M)
    requires h.Shaped()
    ensures Ecall(h.(mem := m)) == Ecall(h).(mem := m) && Ecall(h).mem == h.mem
  {
    hide TakeTrap;
    var cause := if h.privilege == PRIV_M then CAUSE_MACHINE_ECALL
                 else if h.privilege == PRIV_S then CAUSE_SUPERVISOR_ECALL
                 else if h.privilege == PRIV_U then CAUSE_USER_ECALL
                 else h.pendingException;
    TrapAlike(h.(pendingException := cause), m, cause, h.pendingTval);
  }

  lemma ReturnAlike<M>(h: Hart<M>, m: M)
    requires h.Shaped()
    ensures Mret(h.(mem := m)) == Mret(h).(mem := m) && Mret(h).mem == h.mem
    ensures Sret(h.(mem := m)) == Sret(h).(mem := m) && Sret(h).mem == h.mem
  {
    hide MretStatus, SretStatus, Get;
  }

  lemma SystemAlike<M>(h: Hart<M>, m: M, op: Op)
    requires h.Shaped()
    ensures SystemOp(h.(mem := m), op) == SystemOp(h, op).(mem := m) && SystemOp(h, op).mem == h.mem
  {
    hide Ecall, Mret, Sret;
    EcallAlike(h, m);
    ReturnAlike(h, m);
  }

  lemma FinishAlike<M>(h: Hart<M>, m: M)
    requires h.Shaped()
    ensures Finish(h.(mem := m)) == Finish(h).(mem := m) && Finish(h).mem == h.mem
  {
    hide TakeTrap, Add32;
    TrapAlike(h, m, h.pendingException, h.pendingTval);
  }

  // ---------------------------------------------------------------- the step

  /** The instruction accesses no byte of the word at an address. */
  predicate AccessApart<M>(h: Hart<M>, op: Op, w: Word, at: Word)
    requires h.Shaped()
  {
    KindOf(op) in {LoadKind, StoreKind, AtomicKind} ==> Apart(AccessAddress(h, op, w), Size(WidthOf(op)), at, 4)
  }

  lemma SameApart<M>(h: Hart<M>, h1: Hart<M>, op: Op, w: Word, at: Word)
    requires h.Shaped() && h1.Shaped() && h1.x == h.x
    ensures AccessApart(h, op, w, at) == AccessApart(h1, op, w, at)
  {
    hide AccessAddress, WidthOf, KindOf;
    SameAddress(h, h1, op, w);
  }

  lemma LoadOperands(op: Op, w: Word, w': Word, pc: Word)
    requires KindOf(op) == LoadKind && TakenFrom(op, w, pc) == TakenFrom(op, w', pc)
    ensures Rd(w) == Rd(w') && Rs1(w) == Rs1(w') && GetIImm(w) == GetIImm(w')
  {
    hide KindOf, Rd, Rs1, GetIImm;
  }

  lemma StoreOperands(op: Op, w: Word, w': Word, pc: Word)
    requires KindOf(op) == StoreKind && TakenFrom(op, w, pc) == TakenFrom(op, w', pc)
    ensures Rs1(w) == Rs1(w') && Rs2(w) == Rs2(w') && GetSImm(w) == GetSImm(w')
  {
    hide KindOf, Rs1, Rs2, GetSImm;
  }

  lemma AtomicOperands(op: Op, w: Word, w': Word, pc: Word)
    requires KindOf(op) == AtomicKind && TakenFrom(op, w, pc) == TakenFrom(op, w', pc)
    ensures SameOperands(op, w, w')
  {
    hide Rd, Rs1, Rs2, KindOf;
  }

  lemma AtomicWidth(op: Op)
    requires KindOf(op) == AtomicKind
    ensures WidthOf(op) == WordWidth
  {
  }

  /** The handlers that access memory, on the two machines. */
  lemma AccessAlike<D>(sys: System<D>, h: Hart<Ram<D>>, op: Op, w: Word, u: Word, from: Word, at: Word, w': Word)
    requires h.Shaped() && Bare(h.Access()) && Under(h.mem, from, at, w, u, w') && AccessApart(h, op, w, at)
    requires TakenFrom(op, w, from) == TakenFrom(op, u, from) && KindOf(op) in {LoadKind, StoreKind, AtomicKind}
    ensures Handle(RamBus(sys), WithWord(h, at, w'), op, u, from) == WithWord(Handle(RamBus(sys), h, op, w, from), at, w')
  {
    hide KindOf, TakenFrom, Handle, LoadInto, StoreFrom, AtomicOp, Under, RamBus, PutWord, WidthOf, SameOperands, Rs1;
    hide Rs2, GetIImm, GetSImm, Rd, AccessAddress, Bare;
    LoadOfHandle(RamBus(sys), h, op, w, from);
    LoadOfHandle(RamBus(sys), WithWord(h, at, w'), op, u, from);
    if KindOf(op) == LoadKind {
      LoadOperands(op, w, u, from);
      LoadIntoAlike(sys, h, op, w, u, from, at, w');
    } else if KindOf(op) == StoreKind {
      StoreOperands(op, w, u, from);
      StoreFromAlike(sys, h, op, w, u, at, w');
    } else {
      AtomicOperands(op, w, u, from);
      AtomicWidth(op);
      SameAddress(h, h, op, w);
      AtomicAlike(sys, h, op, w, u, from, at, w');
    }
  }

  /** The other handlers, by themselves. */
  lemma QuietAlike<M>(bus: Bus<M>, h: Hart<M>, m: M, op: Op, w: Word, at: Word)
    requires h.Shaped() && KindOf(op) !in {LoadKind, StoreKind, AtomicKind}
    ensures Handle(bus, h.(mem := m), op, w, at) == Handle(bus, h, op, w, at).(mem := m)
    ensures Handle(bus, h, op, w, at).mem == h.mem
  {
    hide KindOf, Handle, RegisterOp, ImmediateOp, UpperOp, BranchOp, JumpOp, CsrOp, SystemOp, LoadInto, StoreFrom, AtomicOp;
    HandleByKind(bus, h, op, w, at);
    HandleByKind(bus, h.(mem := m), op, w, at);
    OthersKeepMemory(h, op, w);
    match KindOf(op) {
      case RegisterKind | ImmediateKind => RegisterAlike(h, m, op, w);
      case UpperKind => UpperAlike(h, m, op, w);
      case BranchKind => BranchAlike(h, m, op, w);
      case JumpKind => JumpAlike(h, m, op, w);
      case CsrKind => CsrAlike(h, m, op, w);
      case SystemKind => SystemAlike(h, m, op);
    }
  }

  lemma HandleAlike<D>(sys: System<D>, h: Hart<Ram<D>>, op: Op, w: Word, u: Word, from: Word, at: Word, w': Word)
    requires h.Shaped() && h.pc == Add32(from, 4) && Bare(h.Access()) && Under(h.mem, from, at, w, u, w')
    requires TakenFrom(op, w, from) == TakenFrom(op, u, from) && AccessApart(h, op, w, at)
    ensures Handle(RamBus(sys), WithWord(h, at, w'), op, u, from) == WithWord(Handle(RamBus(sys), h, op, w, from), at, w')
  {
    hide KindOf, TakenFrom, Handle, Under, RamBus, PutWord, AccessApart, Bare, Add32;
    if KindOf(op) in {LoadKind, StoreKind, AtomicKind} {
      AccessAlike(sys, h, op, w, u, from, at, w');
    } else {
      QuietAlike(RamBus(sys), h, PutWord(h.mem, at, w'), op, u, from);
      SameHandling(RamBus(sys), h, op, w, op, u, from, from);
    }
  }

  // ---------------------------------------------------------------- runs

  /** The step from h does not notice when w' is put at an address: the instruction accesses no
      byte there, and it lies elsewhere itself, or it is there and w' has the same listing. */
  ghost predicate Unnoticed<D>(h: Hart<Ram<D>>, at: Word, w': Word, named: Word -> bool) {
    && h.Shaped() && Untranslated(h) && Place(h.mem, h.pc, 4).Some?
    && var w := RamWord(h.mem, h.pc);
       && (if h.pc == at then Nameable(w, named) && Nameable(w', named) && Disassemble(w, at, named) == Disassemble(w', at, named)
           else Apart(h.pc, 4, at, 4))
       && forall op :: IsA(w, op) ==> AccessApart(h, op, w, at)
  }

  /** What the other machine finds under its pc. */
  lemma OtherWord<D>(h: Hart<Ram<D>>, at: Word, w': Word, named: Word -> bool)
    requires Unnoticed(h, at, w', named)
    ensures var w, u := RamWord(h.mem, h.pc), RamWord(PutWord(h.mem, at, w'), h.pc);
            Under(h.mem, h.pc, at, w, u, w') && AssemblyOf(w, h.pc) == AssemblyOf(u, h.pc)
  {
    hide Disassemble, Nameable, AssemblyOf, Meaning, IsA, AccessApart, PutWord, RamWord, Place;
    if h.pc == at {
      PutReadsBack(h.mem, at, w');
      ListingMeans(RamWord(h.mem, at), at, named);
      ListingMeans(w', at, named);
    } else {
      PutElsewhere(h.mem, at, w', h.pc);
    }
  }

  lemma StepAlike<D>(sys: System<D>, h: Hart<Ram<D>>, at: Word, w': Word, named: Word -> bool)
    requires Unnoticed(h, at, w', named)
    ensures Step(RamBus(sys), WithWord(h, at, w')) == WithWord(Step(RamBus(sys), h), at, w')
  {
    hide Disassemble, Nameable, AssemblyOf, Under, IsA, AccessApart, Step, PutWord, Bare, RamWord, Place, RamBus, Execute;
    var w, u := RamWord(h.mem, h.pc), RamWord(PutWord(h.mem, at, w'), h.pc);
    var next := h.(pc := Add32(h.pc, 4));
    OtherWord(h, at, w', named);
    FetchAlike(sys, h, at, w');
    forall op | IsA(w, op)
      ensures AccessApart(next, op, w, at)
    {
      SameApart(h, next, op, w, at);
    }
    ExecuteAlike(sys, next, w, u, h.pc, at, w');
  }

  /** Both machines fetch the word that lies under their pc. */
  lemma FetchAlike<D>(sys: System<D>, h: Hart<Ram<D>>, at: Word, w': Word)
    requires h.Shaped() && Bare(h.Access()) && Place(h.mem, h.pc, 4).Some?
    ensures var next := h.(pc := Add32(h.pc, 4));
            && Step(RamBus(sys), h) == Execute(RamBus(sys), next, RamWord(h.mem, h.pc), h.pc)
            && Step(RamBus(sys), WithWord(h, at, w')) ==
               Execute(RamBus(sys), WithWord(next, at, w'), RamWord(PutWord(h.mem, at, w'), h.pc), h.pc)
  {
    hide RamWord, Place, PutWord, Bare, Execute, RamTarget, Add32;
    TargetAlike(sys, h.mem, h.Access(), h.pc, at, w');
  }

  /** u is what the other machine executes, w' what was put into it. */
  lemma ExecuteAlike<D>(sys: System<D>, h: Hart<Ram<D>>, w: Word, u: Word, from: Word, at: Word, w': Word)
    requires h.Shaped() && h.pc == Add32(from, 4) && Bare(h.Access())
    requires Under(h.mem, from, at, w, u, w') && AssemblyOf(w, from) == AssemblyOf(u, from)
    requires forall op :: IsA(w, op) ==> AccessApart(h, op, w, at)
    ensures Execute(RamBus(sys), WithWord(h, at, w'), u, from) == WithWord(Execute(RamBus(sys), h, w, from), at, w')
  {
    hide FirstMatch, TakenFrom, Handle, Finish, Add32, IsA, AccessApart, PutWord, Bare, Under, RamBus;
    var s, s' := FirstMatch(w, EMULATOR_CHAIN), FirstMatch(u, EMULATOR_CHAIN);
    if s.Selected? {
      TakenOp(s.op, w, from);
      if s'.Selected? {
        TakenOp(s'.op, u, from);
        EmulatorSelects(w, s.op);
        HandleAlike(sys, h, s.op, w, u, from, at, w');
        var t := Handle(RamBus(sys), h, s.op, w, from);
        FinishAlike(t, PutWord(t.mem, at, w'));
      }
    } else if s'.Selected? {
      TakenOp(s'.op, u, from);
    }
  }

  /** On one machine the listing determines what a step does: put another word with the same
      listing under the pc, and after the step only that word differs. */
  lemma ListingDeterminesStep<D>(sys: System<D>, h: Hart<Ram<D>>, w': Word, named: Word -> bool)
    requires h.Shaped() && Untranslated(h) && Place(h.mem, h.pc, 4).Some?
    requires Nameable(RamWord(h.mem, h.pc), named) && Nameable(w', named)
    requires Disassemble(RamWord(h.mem, h.pc), h.pc, named) == Disassemble(w', h.pc, named)
    requires forall op :: IsA(RamWord(h.mem, h.pc), op) ==> AccessApart(h, op, RamWord(h.mem, h.pc), h.pc)
    ensures Step(RamBus(sys), WithWord(h, h.pc, w')) == WithWord(Step(RamBus(sys), h), h.pc, w')
  {
    hide Disassemble, Nameable, IsA, AccessApart, Step, PutWord, Bare, RamWord, Place, RamBus;
    StepAlike(sys, h, h.pc, w', named);
  }

  /** Over whole runs: two machines that differ in one word of RAM, which no instruction of the
      run accesses, and which the run executes only if both words have the same listing, have
      equal registers, CSRs, devices and other memory after any number of steps. */
  lemma {:induction false} ListingDeterminesRun<D>(sys: System<D>, h: Hart<Ram<D>>, at: Word, w': Word, named: Word -> bool, n: nat)
    requires h.Shaped()
    requires forall k: nat :: k < n ==> Unnoticed(StepN(RamBus(sys), h, k), at, w', named)
    ensures StepN(RamBus(sys), WithWord(h, at, w'), n) == WithWord(StepN(RamBus(sys), h, n), at, w')
    decreases n
  {
    hide Unnoticed, Step, PutWord, RamBus;
    if n == 0 {
    } else {
      assert StepN(RamBus(sys), h, 0) == h;
      StepAlike(sys, h, at, w', named);
      var next := Step(RamBus(sys), h);
      forall k: nat | k < n - 1
        ensures Unnoticed(StepN(RamBus(sys), next, k), at, w', named)
      {
        assert StepN(RamBus(sys), h, k + 1) == StepN(RamBus(sys), next, k);
      }
      ListingDeterminesRun(sys, next, at, w', named, n - 1);
    }
  }

  /** The condition is needed: an LR of its own word loads it, ignored bits and all. */
  lemma ReserveOfItself<D>(sys: System<D>, h: Hart<Ram<D>>, w': Word)
    requires Boundary(h) && h.life == Live && Untranslated(h) && Place(h.mem, h.pc, 4).Some?
    requires IsA(RamWord(h.mem, h.pc), LR_W) && h.x[Rs1(RamWord(h.mem, h.pc))] == h.pc
    requires IsA(w', LR_W) && Rs1(w') == Rs1(RamWord(h.mem, h.pc)) && Rd(w') == Rd(RamWord(h.mem, h.pc)) != 0
    ensures Step(RamBus(sys), h).x[Rd(w')] == RamWord(h.mem, h.pc)
    ensures Step(RamBus(sys), WithWord(h, h.pc, w')).x[Rd(w')] == w'
  {
    hide IsA, Bare, Step, PutWord, RamWord, Place, RamBus, Rd, Rs1;
    ReservedWord(sys, h);
    PutReadsBack(h.mem, h.pc, w');
    PutKeepsPlaces(h.mem, h.pc, w', h.pc, 4);
    ReservedWord(sys, WithWord(h, h.pc, w'));
  }

  lemma ReservedWord<D>(sys: System<D>, h: Hart<Ram<D>>)
    requires h.Shaped() && h.life == Live && Bare(h.Access()) && Place(h.mem, h.pc, 4).Some?
    requires !h.hasPendingException && var w := RamWord(h.mem, h.pc); IsA(w, LR_W) && h.x[Rs1(w)] == h.pc && Rd(w) != 0
    ensures Step(RamBus(sys), h).x[Rd(RamWord(h.mem, h.pc))] == RamWord(h.mem, h.pc)
  {
    hide FirstMatch, IsA, Finish, Handle, Add32, Rd, Rs1, RamWord, Place, Bare, RamBus, LoadReserve, Step, FetchOf, PointerOf;
    var w, h1 := RamWord(h.mem, h.pc), h.(pc := Add32(h.pc, 4));
    RamFetch(sys, h);
    WordLoads(sys, h.mem, h.Access(), h.pc);
    EmulatorSelects(w, LR_W);
    StepSelected(RamBus(sys), h, h.mem, w, LR_W);
    LrHandled(RamBus(sys), h1, w, h.pc, h.mem, w);
    FinishPlain(Handle(RamBus(sys), h1, LR_W, w, h.pc));
  }

  lemma RamFetch<D>(sys: System<D>, h: Hart<Ram<D>>)
    requires h.Shaped() && Bare(h.Access()) && Place(h.mem, h.pc, 4).Some?
    ensures FetchOf(RamBus(sys), h) == Fetched(h.mem, RamWord(h.mem, h.pc)) && PointerOf(RamBus(sys), h) == h.pc
  {
    hide RamWord, Place, Bare, RamTarget;
    TargetAlike(sys, h.mem, h.Access(), h.pc, h.pc, 0);
  }

  lemma LrHandled<M>(bus: Bus<M>, h: Hart<M>, w: Word, at: Word, m1: M, value: Word)
    requires h.Shaped() && h.life == Live
    requires bus.load(h.mem, h.Access(), WordWidth, h.x[Rs1(w)]) == Loaded(m1, value)
    ensures Handle(bus, h, LR_W, w, at) ==
            h.(mem := m1).SetReg(Rd(bus.word(m1, at)), value).(loadReservation := h.x[Rs1(w)])
  {
    hide Handle, Rd, Rs1;
    hide RegisterOp, ImmediateOp, UpperOp, BranchOp, JumpOp, LoadInto, StoreFrom, CsrOp, SystemOp;
    HandleByKind(bus, h, LR_W, w, at);
  }

  lemma WordLoads<D>(sys: System<D>, ram: Ram<D>, a: Access, p: Word)
    requires Bare(a) && Place(ram, p, 4).Some?
    ensures RamBus(sys).load(ram, a, WordWidth, p) == Loaded(ram, RamWord(ram, p))
    ensures RamBus(sys).word(ram, p) == RamWord(ram, p)
  {
    hide WordAt;
  }
}
