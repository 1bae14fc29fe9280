/** Loads, atomics and LR/SC pairs on RAM without translation: what Accesses says of any bus,
    with the conditions on what the handlers read again decided; and the atomic instruction
    that overwrites itself. */
module AccessesOnRam {
  import opened Words
  import opened Options
  import opened Memory
  import opened MemoryMap
  import opened Bytes
  import opened PhysicalMemory
  import opened Decode
  import opened Opcodes
  import opened Operands
  import opened HartSpec
  import opened Runs
  import opened Reservations
  import opened Conformance
  import opened Accesses
  import opened ListingOnRam
  import opened Translation

  /** The instruction under the pc lies in RAM and is executed from there. */
  predicate FromRam<D>(h: Hart<Ram<D>>, w: Word)
    requires h.Shaped()
  {
    Untranslated(h) && Place(h.mem, h.pc, 4).Some? && RamWord(h.mem, h.pc) == w
  }

  // ---------------------------------------------------------------- words in RAM

  lemma WordStores<D>(sys: System<D>, ram: Ram<D>, a: Access, p: Word, value: Word)
    requires Bare(a) && Place(ram, p, 4).Some?
    ensures RamBus(sys).store(ram, a, WordWidth, p, value) == Stored(PutWord(ram, p, value))
  {
    hide LowBytes;
  }

  /** Where the word under the pc is after a word is put into RAM. */
  lemma WordAfterPut<D>(ram: Ram<D>, p: Word, value: Word, at: Word)
    requires Place(ram, p, 4).Some?
    ensures RamWord(PutWord(ram, p, value), p) == value
    ensures Apart(p, 4, at, 4) ==> RamWord(PutWord(ram, p, value), at) == RamWord(ram, at)
  {
    hide RamWord, Place, PutWord, LowBytes;
    PutReadsBack(ram, p, value);
    if Apart(p, 4, at, 4) {
      PutElsewhere(ram, p, value, at);
    }
  }

  // ---------------------------------------------------------------- loads

  /** A load from RAM always does what the ISA says. */
  lemma LoadOnRam<D>(sys: System<D>, h: Hart<Ram<D>>, w: Word, op: Op)
    requires Boundary(h) && h.life == Live && FromRam(h, w) && IsA(w, op) && KindOf(op) == LoadKind
    requires Place(h.mem, (h.x[Rs1(w)] + GetIImm(w)) % 0x1_0000_0000, Size(WidthOf(op))).Some?
    ensures var h', address := Step(RamBus(sys), h), (h.x[Rs1(w)] + GetIImm(w)) % 0x1_0000_0000;
            var (i, o) := Place(h.mem, address, Size(WidthOf(op))).value;
            && h'.life == Live && h'.mem == h.mem && h'.pc == (h.pc + 4) % 0x1_0000_0000
            && OnlyChanges(h.x, h'.x, Rd(w))
            && (Rd(w) != 0 ==> LoadResult(op, ValueAt(h.mem.contents[i], o, WidthOf(op)), h'.x[Rd(w)]))
  {
    hide IsA, KindOf, WidthOf, Rd, Rs1, GetIImm, Step, Extended, OnlyChanges, LoadResult, ExtendsRight, Place, RamWord;
    hide ValueAt, LowPart, Bare, FetchOf, PointerOf, RamBus;
    var address := (h.x[Rs1(w)] + GetIImm(w)) % 0x1_0000_0000;
    RamFetch(sys, h);
    RamValue(sys, h.mem, h.Access(), WidthOf(op), address);
    var (i, o) := Place(h.mem, address, Size(WidthOf(op))).value;
    var value := ValueAt(h.mem.contents[i], o, WidthOf(op));
    LoadStep(RamBus(sys), h, h.mem, w, op, h.mem, value);
    FitsExtends(op, value);
  }

  lemma RamValue<D>(sys: System<D>, ram: Ram<D>, a: Access, width: Width, p: Word)
    requires Bare(a) && Place(ram, p, Size(width)).Some?
    ensures var (i, o) := Place(ram, p, Size(width)).value;
            var value := ValueAt(ram.contents[i], o, width);
            RamBus(sys).load(ram, a, width, p) == Loaded(ram, value) && LowPart(width, value) == value
    ensures forall at :: RamBus(sys).word(ram, at) == RamWord(ram, at)
  {
    hide Place, ValueAt, LowPart, RamWord;
    var (i, o) := Place(ram, p, Size(width)).value;
    RamLoads(sys, ram, a, width, p);
    ValueFits(ram.contents[i], o, width);
  }

  lemma RamLoads<D>(sys: System<D>, ram: Ram<D>, a: Access, width: Width, p: Word)
    requires Bare(a) && Place(ram, p, Size(width)).Some?
    ensures var (i, o) := Place(ram, p, Size(width)).value;
            RamBus(sys).load(ram, a, width, p) == Loaded(ram, ValueAt(ram.contents[i], o, width))
  {
    hide ValueAt;
  }

  // ---------------------------------------------------------------- atomic memory operations

  /** An AMO on RAM: memory gets the value of the ISA (but for AMOSWAP with rd == rs2, and for
      an address that is not aligned, which the ISA forbids) and changes nowhere else.  The old word goes to the fetched rd and nowhere else, exactly if
      the word under the pc after the store still has that rd, but for writes that change
      nothing; and it has, if the store does not touch that word. */
  lemma AmoOnRam<D>(sys: System<D>, h: Hart<Ram<D>>, w: Word, op: Op)
    requires Boundary(h) && h.life == Live && FromRam(h, w) && IsA(w, op) && IsAmo(op)
    requires Place(h.mem, h.x[Rs1(w)], 4).Some?
    ensures var h', address := Step(RamBus(sys), h), h.x[Rs1(w)];
            var was := RamWord(h.mem, address);
            var rd := AmoRd(op, w, RamWord(h'.mem, h.pc));
            && h'.life == Live && h'.pc == (h.pc + 4) % 0x1_0000_0000
            && h'.mem == PutWord(h.mem, address, AmoStored(h, op, w, was))
            && h'.x == h.SetReg(rd, was).x
            && (OnlyChanges(h.x, h'.x, Rd(w)) && (Rd(w) != 0 ==> h'.x[Rd(w)] == was) <==> SameWrite(h.x, Rd(w), rd, was))
            && (Apart(address, 4, h.pc, 4) ==> rd == Rd(w))
            && (IsaStores(op, address, was, h.x[Rs2(w)], AmoStored(h, op, w, was))
                <==> address % 4 == 0 && (SwapsOntoItself(op, w) ==> was == h.x[Rs2(w)]))
  {
    hide IsA, IsAmo, Rd, Rs1, Rs2, Step, OnlyChanges, SameWrite, Place, RamWord, PutWord, Bare, FetchOf, PointerOf, RamBus;
    hide AmoStored, IsaStores, SwapsOntoItself;
    var address := h.x[Rs1(w)];
    var was := RamWord(h.mem, address);
    RamFetch(sys, h);
    WordLoads(sys, h.mem, h.Access(), address);
    BusWords(sys);
    WordStores(sys, h.mem, h.Access(), address, AmoStored(h, op, w, was));
    var ram' := PutWord(h.mem, address, AmoStored(h, op, w, was));
    AmoStep(RamBus(sys), h, h.mem, w, op, h.mem, was, ram');
    WordAfterPut(h.mem, address, AmoStored(h, op, w, was), h.pc);
  }

  lemma BusWords<D>(sys: System<D>)
    ensures forall ram, at :: RamBus(sys).word(ram, at) == RamWord(ram, at)
  {
    hide RamWord;
  }

  /** The instruction that overwrites itself: amoadd.w t0, t1, (a0) with its own address in a0
      and 0x80 in t1 turns into an instruction with rd == t1, and it is t1 that gets the old
      word, not t0. */
  lemma AmoOverItself<D>(sys: System<D>, h: Hart<Ram<D>>)
    requires Boundary(h) && h.life == Live && FromRam(h, 0x0065_22AF)
    requires h.x[10] == h.pc && h.x[6] == 0x80
    ensures IsA(0x0065_22AF, AMOADD_W) && Rd(0x0065_22AF) == 5
    ensures Step(RamBus(sys), h).x == h.x[6 := 0x0065_22AF]
    ensures Step(RamBus(sys), h).x[5] == h.x[5]
  {
    hide IsA, Rd, Rs1, Rs2, Step, OnlyChanges, SameWrite, Place, RamWord, PutWord, Bare, RamBus, IsaStores;
    AmoWord();
    AmoOnRam(sys, h, 0x0065_22AF, AMOADD_W);
    WordAfterPut(h.mem, h.pc, 0x0065_232F, h.pc);
  }

  lemma AmoWord()
    ensures IsA(0x0065_22AF, AMOADD_W)
    ensures Rd(0x0065_22AF) == 5 && Rs1(0x0065_22AF) == 10 && Rs2(0x0065_22AF) == 6 && Rd(0x0065_232F) == 6
  {
    AmoPattern();
    hide PatternOf;
    AmoDigits();
    hide Rd, Rs1, Rs2;
  }

  lemma AmoPattern()
    ensures PatternOf(AMOADD_W) == ByFunct5(0)
  {
  }

  lemma AmoDigits()
    ensures Rd(0x0065_22AF) == 5 && Rs1(0x0065_22AF) == 10 && Rs2(0x0065_22AF) == 6 && Rd(0x0065_232F) == 6
  {
    hide And, Shr32;
  }

  // ---------------------------------------------------------------- LR and SC

  /** An SC on RAM whose reservation is on its address: it stores rs2; the success code goes to
      the fetched rd if the store does not touch the word under the pc. */
  lemma ConditionalOnRam<D>(sys: System<D>, h: Hart<Ram<D>>, w: Word)
    requires Boundary(h) && h.life == Live && FromRam(h, w) && IsA(w, SC_W)
    requires h.loadReservation == h.x[Rs1(w)] && Place(h.mem, h.x[Rs1(w)], 4).Some?
    ensures var h' := Step(RamBus(sys), h);
            && h'.life == Live && h'.pc == (h.pc + 4) % 0x1_0000_0000
            && h'.mem == PutWord(h.mem, h.x[Rs1(w)], h.x[Rs2(w)])
            && h'.x == h.SetReg(Rd(RamWord(h'.mem, h.pc)), 0).x
            && (Apart(h.x[Rs1(w)], 4, h.pc, 4) ==> h'.x == h.SetReg(Rd(w), 0).x)
  {
    hide IsA, FirstMatch, Rd, Rs1, Rs2, Step, Place, RamWord, PutWord, Bare, FetchOf, PointerOf, RamBus, Handle, Finish;
    var address, value := h.x[Rs1(w)], h.x[Rs2(w)];
    RamFetch(sys, h);
    BusWords(sys);
    WordStores(sys, h.mem, h.Access(), address, value);
    EmulatorSelects(w, SC_W);
    StepSelected(RamBus(sys), h, h.mem, w, SC_W);
    ScHandled(RamBus(sys), AtHandler(h, h.mem), w, h.pc, PutWord(h.mem, address, value));
    FinishPlain(Handle(RamBus(sys), AtHandler(h, h.mem), SC_W, w, h.pc));
    WordAfterPut(h.mem, address, value, h.pc);
    NextPc(h.pc);
  }

  lemma ScHandled<M>(bus: Bus<M>, h: Hart<M>, w: Word, at: Word, m: M)
    requires h.Shaped() && h.life == Live && h.loadReservation == h.x[Rs1(w)]
    requires bus.store(h.mem, h.Access(), WordWidth, h.x[Rs1(w)], h.x[Rs2(w)]) == Stored(m)
    ensures Handle(bus, h, SC_W, w, at) ==
            h.(mem := m).SetReg(Rd(bus.word(m, at)), 0).(loadReservation := 0xFFFF_FFFF)
  {
    hide Handle, Rd, Rs1, Rs2;
    hide RegisterOp, ImmediateOp, UpperOp, BranchOp, JumpOp, LoadInto, StoreFrom, CsrOp, SystemOp;
    HandleByKind(bus, h, SC_W, w, at);
  }

  /** An LR on RAM. */
  lemma ReserveOnRam<D>(sys: System<D>, h: Hart<Ram<D>>, w: Word)
    requires Boundary(h) && h.life == Live && FromRam(h, w) && IsA(w, LR_W) && Place(h.mem, h.x[Rs1(w)], 4).Some?
    ensures var h' := Step(RamBus(sys), h);
            && Boundary(h') && h'.life == Live && h'.pc == (h.pc + 4) % 0x1_0000_0000 && h'.mem == h.mem
            && h'.x == h.SetReg(Rd(w), RamWord(h.mem, h.x[Rs1(w)])).x && h'.loadReservation == h.x[Rs1(w)]
            && h'.Access() == h.Access()
  {
    hide IsA, FirstMatch, Rd, Rs1, Step, Place, RamWord, Bare, FetchOf, PointerOf, RamBus, Handle, Finish, Boundary;
    BoundaryFacts(h);
    var h1 := AtHandler(h, h.mem);
    RamFetch(sys, h);
    BusWords(sys);
    WordLoads(sys, h.mem, h.Access(), h.x[Rs1(w)]);
    EmulatorSelects(w, LR_W);
    StepSelected(RamBus(sys), h, h.mem, w, LR_W);
    LrHandled(RamBus(sys), h1, w, h.pc, h.mem, RamWord(h.mem, h.x[Rs1(w)]));
    FinishPlain(Handle(RamBus(sys), h1, LR_W, w, h.pc));
    FinishKeeps(Handle(RamBus(sys), h1, LR_W, w, h.pc));
    StepKeepsBoundary(RamBus(sys), h);
    NextPc(h.pc);
  }

  lemma BoundaryFacts<M>(h: Hart<M>)
    requires Boundary(h)
    ensures h.Shaped() && !h.hasPendingException && h.x[0] == 0
  {
  }

  /** An LR and, right after it, an SC to the same address, with nothing stored over the SC: the
      SC succeeds, its rs2 is in memory, and a load would find it there. */
  lemma ReserveThenConditional<D>(sys: System<D>, h: Hart<Ram<D>>, w: Word, w': Word)
    requires Boundary(h) && h.life == Live && h.pc + 4 < 0x1_0000_0000
    requires FromRam(h, w) && IsA(w, LR_W) && Place(h.mem, h.x[Rs1(w)], 4).Some?
    requires Place(h.mem, h.pc + 4, 4).Some? && RamWord(h.mem, h.pc + 4) == w' && IsA(w', SC_W)
    requires h.SetReg(Rd(w), RamWord(h.mem, h.x[Rs1(w)])).x[Rs1(w')] == h.x[Rs1(w)]
    requires Apart(h.x[Rs1(w)], 4, h.pc + 4, 4)
    ensures var h1 := h.SetReg(Rd(w), RamWord(h.mem, h.x[Rs1(w)]));
            var h2 := Step(RamBus(sys), Step(RamBus(sys), h));
            && h2.life == Live && h2.pc == (h.pc + 8) % 0x1_0000_0000
            && h2.mem == PutWord(h.mem, h.x[Rs1(w)], h1.x[Rs2(w')])
            && RamWord(h2.mem, h.x[Rs1(w)]) == h1.x[Rs2(w')]
            && h2.x == h1.SetReg(Rd(w'), 0).x
  {
    hide IsA, Rd, Rs1, Rs2, Step, Place, RamWord, PutWord, Bare, RamBus, Boundary;
    BoundaryFacts(h);
    ReserveOnRam(sys, h, w);
    var next := Step(RamBus(sys), h);
    ConditionalOnRam(sys, next, w');
    WordAfterPut(h.mem, h.x[Rs1(w)], next.x[Rs2(w')], h.pc);
    SetSame(next, h.SetReg(Rd(w), RamWord(h.mem, h.x[Rs1(w)])), Rd(w'), 0);
  }

  lemma SetSame<M>(h: Hart<M>, h': Hart<M>, i: Word, value: Word)
    requires h.Shaped() && h'.Shaped() && h.x == h'.x && i < 32
    ensures h.SetReg(i, value).x == h'.SetReg(i, value).x
  {
  }
}
