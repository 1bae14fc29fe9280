/** Loads, stores and atomic memory operations as whole steps (cpu.c, cpu_a.c), against
    sections 2.6 and 8.4 of the RISC-V Unprivileged ISA; and what a faulting access leaves in
    the registers. */
module Accesses {
  import opened Words
  import opened Memory
  import opened PhysicalMemory
  import opened Decode
  import opened Opcodes
  import opened Operands
  import opened HartSpec
  import opened Runs
  import opened Traps
  import opened Conformance

  /** The values that fit a width.  RAM yields no others, but a device may: what its read
      function returns is not cut. */
  predicate InWidth(width: Width, value: Word) {
    match width
    case ByteWidth => value < 0x100
    case HalfWidth => value < 0x1_0000
    case WordWidth => true
  }

  /** What the ISA says a load of part, a value of its width, puts into rd. */
  predicate LoadResult(op: Op, part: Word, r: Word) {
    match op
    case LB => Signed(r) == if part < 0x80 then part else part - 0x100
    case LH => Signed(r) == if part < 0x8000 then part else part - 0x1_0000
    case _ => r == part
  }

  /** When a load extends the value that it read as the ISA says: the value fits, or the sign
      fill of LB or LH covers what does not. */
  predicate ExtendsRight(op: Op, value: Word) {
    InWidth(WidthOf(op), value) || (op == LB && Bit(value, 7)) || (op == LH && Bit(value, 15))
  }

  lemma {:induction false} OrOnes(a: nat, k: nat)
    requires a < Pow2(k)
    ensures Or(a, Pow2(k) - 1) == Pow2(k) - 1
  {
    if k == 0 {
    } else {
      OrOnes(a / 2, k - 1);
      OrDouble(a, Pow2(k) - 1);
      assert (Pow2(k) - 1) / 2 == Pow2(k - 1) - 1;
    }
  }

  /** Filling with ones from position k up replaces the digits there. */
  lemma FilledAbove(value: Word, fill: Word, k: nat, d: nat, rest: nat)
    requires k <= 32 && d == Pow2(k) && fill == (rest - 1) * d && rest == Pow2(32 - k)
    ensures Or32(value, fill) == value % d + fill
  {
    hide Or, High, Low, Scale, Pow2;
    WordDigits();
    OnesAbove(value, k, d, rest);
    JoinedDigits(0, rest - 1, k, d);
    HighLowAt(value, k, d);
    OrSplit(value, fill, k);
    OrZero(Low(value, k));
  }

  lemma OnesAbove(value: Word, k: nat, d: nat, rest: nat)
    requires k <= 32 && d == Pow2(k) && rest == Pow2(32 - k)
    ensures rest > 0 && Or(High(value, k), rest - 1) == rest - 1
  {
    hide Or, High, Low, Scale, Pow2;
    WordDigits();
    Pow2Add(k, 32 - k);
    HighLowAt(value, k, d);
    HighBelow(value, k, d, rest);
    OrOnes(High(value, k), 32 - k);
  }

  lemma HighBelow(value: Word, k: nat, d: nat, rest: nat)
    requires d > 0 && d * rest == 0x1_0000_0000 && High(value, k) == value / d
    ensures High(value, k) < rest
  {
    hide High;
    if value / d >= rest {
      ProductAtMost(d, rest, value / d);
    }
  }

  lemma ProductAtMost(d: nat, m: nat, n: nat)
    requires m <= n
    ensures d * m <= d * n
  {
    assert d * (n - m) >= 0;
  }

  lemma OrZero(a: nat)
    ensures Or(a, 0) == a
  {
  }

  /** Digit k of a word, by division. */
  lemma DigitOf(value: Word, k: nat, d: nat)
    requires d == Pow2(k)
    ensures Bit(value, k) <==> value / d % 2 == 1
  {
    HighLowAt(value, k, d);
    HighBit(value, k, 0);
  }

  lemma ByteExtension(value: Word)
    ensures LoadResult(LB, value % 0x100, Extended(LB, value)) <==> value < 0x100 || Bit(value, 7)
  {
    hide Or32, Bit, Pow2;
    Pow2Values();
    DigitOf(value, 7, 0x80);
    DivDiv(value, 0x80, 2);
    FilledAbove(value, 0xFFFF_FF00, 8, 0x100, 0x100_0000);
  }

  lemma HalfExtension(value: Word)
    ensures LoadResult(LH, value % 0x1_0000, Extended(LH, value)) <==> value < 0x1_0000 || Bit(value, 15)
  {
    hide Or32, Bit, Pow2;
    Pow2Values();
    DigitOf(value, 15, 0x8000);
    DivDiv(value, 0x8000, 2);
    FilledAbove(value, 0xFFFF_0000, 16, 0x1_0000, 0x1_0000);
  }

  lemma ExtendedIsResult(op: Op, value: Word)
    requires KindOf(op) == LoadKind
    ensures LoadResult(op, LowPart(WidthOf(op), value), Extended(op, value)) <==> ExtendsRight(op, value)
  {
    hide Or32, Bit, Signed, KindOf;
    LoadOps(op);
    if op == LB {
      ByteExtension(value);
    } else if op == LH {
      HalfExtension(value);
    }
  }

  lemma LoadOps(op: Op)
    requires KindOf(op) == LoadKind
    ensures op == LB || op == LH || op == LW || op == LBU || op == LHU
  {
  }

  // ---------------------------------------------------------------- loads and stores

  lemma LoadHandled<M>(bus: Bus<M>, h: Hart<M>, op: Op, w: Word, m': M, value: Word, at: Word)
    requires h.Shaped() && h.life == Live && NothingPending(h)
    requires bus.load(h.mem, h.Access(), WidthOf(op), (h.x[Rs1(w)] + GetIImm(w)) % 0x1_0000_0000) == Loaded(m', value)
    ensures LoadInto(bus, h, op, w, at) == h.(mem := m').SetReg(Rd(bus.word(m', at)), Extended(op, value))
  {
    hide Rd, Rs1, GetIImm, Extended, WidthOf, ToWord, Add32;
    AddOffset(h.x[Rs1(w)], GetIImm(w));
    ToWordIs(h.x[Rs1(w)] + GetIImm(w));
  }

  lemma ToWordIs(n: int)
    ensures ToWord(n) == n % 0x1_0000_0000
  {
  }

  /** Only rd changes, to value: the registers of a write. */
  lemma OneRegister<M>(h: Hart<M>, x': seq<Word>, i: Word, value: Word)
    requires h.Shaped() && |x'| == 32 && i < 32
    ensures x' == h.SetReg(i, value).x <==> OnlyChanges(h.x, x', i) && (i != 0 ==> x'[i] == value)
  {
  }

  /** A load that succeeds: the address wraps, and the extended value goes to the rd of the
      word that is under the pc after the access.  With the rd that was fetched, it is what
      the ISA says of the low part of the value exactly if nothing is left above it, or the
      sign fill covers that. */
  lemma LoadStep<M>(bus: Bus<M>, h: Hart<M>, m: M, w: Word, op: Op, m': M, value: Word)
    requires Boundary(h) && h.life == Live && FetchOf(bus, h) == Fetched(m, w)
    requires IsA(w, op) && KindOf(op) == LoadKind
    requires bus.load(m, h.Access(), WidthOf(op), (h.x[Rs1(w)] + GetIImm(w)) % 0x1_0000_0000) == Loaded(m', value)
    ensures var h' := Step(bus, h);
            && h'.life == Live && h'.mem == m' && h'.pc == (h.pc + 4) % 0x1_0000_0000
            && h'.x == h.SetReg(Rd(bus.word(m', PointerOf(bus, h))), Extended(op, value)).x
    ensures var h' := Step(bus, h);
            Rd(bus.word(m', PointerOf(bus, h))) == Rd(w) ==>
              OnlyChanges(h.x, h'.x, Rd(w))
              && (Rd(w) != 0 ==> (LoadResult(op, LowPart(WidthOf(op), value), h'.x[Rd(w)]) <==> ExtendsRight(op, value)))
  {
    hide Step, FirstMatch, IsA, Handle, Finish, Add32, LoadInto, Rd, Rs1, GetIImm, Extended, WidthOf, LoadResult;
    hide OnlyChanges, KindOf, ExtendsRight, LowPart, PointerOf, FetchOf;
    var h1, at := AtHandler(h, m), PointerOf(bus, h);
    EmulatorSelects(w, op);
    StepSelected(bus, h, m, w, op);
    LoadOfHandle(bus, h1, op, w, at);
    LoadHandled(bus, h1, op, w, m', value, at);
    FinishPlain(LoadInto(bus, h1, op, w, at));
    ExtendedIsResult(op, value);
    OneRegister(h, Step(bus, h).x, Rd(w), Extended(op, value));
    NextPc(h.pc);
  }

  lemma LoadOfHandle<M>(bus: Bus<M>, h: Hart<M>, op: Op, w: Word, at: Word)
    requires h.Shaped()
    ensures KindOf(op) == LoadKind ==> Handle(bus, h, op, w, at) == LoadInto(bus, h, op, w, at)
    ensures KindOf(op) == StoreKind ==> Handle(bus, h, op, w, at) == StoreFrom(bus, h, op, w)
    ensures KindOf(op) == AtomicKind ==> Handle(bus, h, op, w, at) == AtomicOp(bus, h, op, w, at)
  {
    hide *;
    HandleByKind(bus, h, op, w, at);
  }

  lemma StoreHandled<M>(bus: Bus<M>, h: Hart<M>, op: Op, w: Word, m': M)
    requires h.Shaped() && KindOf(op) == StoreKind
    requires bus.store(h.mem, h.Access(), WidthOf(op), (h.x[Rs1(w)] + GetSImm(w)) % 0x1_0000_0000,
                       LowPart(WidthOf(op), h.x[Rs2(w)])) == Stored(m')
    ensures StoreFrom(bus, h, op, w) == h.(mem := m')
  {
    hide Rs1, Rs2, GetSImm, ToWord, Add32;
    AddOffset(h.x[Rs1(w)], GetSImm(w));
    ToWordIs(h.x[Rs1(w)] + GetSImm(w));
    StoredIsTruncated(op, h.x[Rs2(w)]);
    hide Truncated, WidthOf, LowPart;
  }

  lemma StoredIsTruncated(op: Op, value: Word)
    requires KindOf(op) == StoreKind
    ensures Truncated(op, value) == LowPart(WidthOf(op), value)
  {
  }

  /** A store that succeeds: the address wraps, the low part of rs2 is stored, no register
      changes. */
  lemma StoreStep<M>(bus: Bus<M>, h: Hart<M>, m: M, w: Word, op: Op, m': M)
    requires Boundary(h) && h.life == Live && FetchOf(bus, h) == Fetched(m, w)
    requires IsA(w, op) && KindOf(op) == StoreKind
    requires bus.store(m, h.Access(), WidthOf(op), (h.x[Rs1(w)] + GetSImm(w)) % 0x1_0000_0000,
                       LowPart(WidthOf(op), h.x[Rs2(w)])) == Stored(m')
    ensures var h' := Step(bus, h);
            h'.life == Live && h'.mem == m' && h'.pc == (h.pc + 4) % 0x1_0000_0000 && h'.x == h.x
  {
    hide Step, FirstMatch, IsA, Handle, Finish, Add32, StoreFrom, Rs1, Rs2, GetSImm, WidthOf, LowPart, KindOf;
    hide PointerOf, FetchOf;
    var h1 := AtHandler(h, m);
    EmulatorSelects(w, op);
    StepSelected(bus, h, m, w, op);
    LoadOfHandle(bus, h1, op, w, PointerOf(bus, h));
    StoreHandled(bus, h1, op, w, m');
    FinishPlain(StoreFrom(bus, h1, op, w));
    NextPc(h.pc);
  }

  // ---------------------------------------------------------------- atomic memory operations

  predicate IsAmo(op: Op) {
    op == AMOADD_W || op == AMOAND_W || op == AMOOR_W || op == AMOXOR_W || op == AMOSWAP_W
  }

  /** What the ISA says is stored for the old value and rs2. */
  ghost predicate AmoStores(op: Op, was: Word, b: Word, r: Word) {
    match op
    case AMOADD_W => r == (was + b) % 0x1_0000_0000
    case AMOAND_W => Result(AND, was, b, r)
    case AMOOR_W => Result(OR, was, b, r)
    case AMOXOR_W => Result(XOR, was, b, r)
    case _ => r == b
  }

  /** The same with the alignment of sections 8.2 and 8.4: at an address that is not a multiple
      of four the ISA stores nothing but raises an exception. */
  ghost predicate IsaStores(op: Op, address: Word, was: Word, b: Word, r: Word) {
    address % 4 == 0 && AmoStores(op, was, b, r)
  }

  /** AMOSWAP into its own rs2. */
  predicate SwapsOntoItself(op: Op, w: Word) {
    op == AMOSWAP_W && Rd(w) == Rs2(w) && Rd(w) != 0
  }

  /** What the handlers store, from the word u that is under the pc after the load. */
  function AmoStored<M>(h: Hart<M>, op: Op, u: Word, was: Word): Word
    requires h.Shaped()
  {
    if SwapsOntoItself(op, u) then was else AmoResult(op, was, h.x[Rs2(u)])
  }

  /** The register that they write: AMOSWAP that of the word under the pc after the load, the
      others that of the word under it after the store. */
  function AmoRd(op: Op, afterLoad: Word, afterStore: Word): (i: Word)
    ensures i < 32
  {
    if op == AMOSWAP_W then Rd(afterLoad) else Rd(afterStore)
  }

  lemma AmoHandled<M>(bus: Bus<M>, h: Hart<M>, op: Op, w: Word, m1: M, was: Word, m2: M, at: Word)
    requires h.Shaped() && h.life == Live && IsAmo(op)
    requires bus.load(h.mem, h.Access(), WordWidth, h.x[Rs1(w)]) == Loaded(m1, was)
    requires bus.store(m1, h.Access(), WordWidth, h.x[Rs1(w)], AmoStored(h, op, bus.word(m1, at), was)) == Stored(m2)
    ensures AtomicOp(bus, h, op, w, at) ==
            h.(mem := m2).SetReg(AmoRd(op, bus.word(m1, at), bus.word(m2, at)), was)
  {
    hide Rd, Rs1, Rs2, AmoResult, Amo, SwapAmo;
    if op == AMOSWAP_W {
      SwapResult(was, h.x[Rs2(bus.word(m1, at))]);
      SwapHandled(bus, h, w, m1, was, m2, at);
    } else {
      OtherAmoHandled(bus, h, op, w, m1, was, m2, at);
    }
  }

  lemma SwapHandled<M>(bus: Bus<M>, h: Hart<M>, w: Word, m1: M, was: Word, m2: M, at: Word)
    requires h.Shaped() && h.life == Live
    requires bus.load(h.mem, h.Access(), WordWidth, h.x[Rs1(w)]) == Loaded(m1, was)
    requires var u := bus.word(m1, at);
             bus.store(m1, h.Access(), WordWidth, h.x[Rs1(w)],
                       if Rd(u) == Rs2(u) && Rd(u) != 0 then was else h.x[Rs2(u)]) == Stored(m2)
    ensures SwapAmo(bus, h, w, at) == h.(mem := m2).SetReg(Rd(bus.word(m1, at)), was)
  {
    hide Rd, Rs1, Rs2;
  }

  lemma OtherAmoHandled<M>(bus: Bus<M>, h: Hart<M>, op: Op, w: Word, m1: M, was: Word, m2: M, at: Word)
    requires h.Shaped() && h.life == Live
    requires bus.load(h.mem, h.Access(), WordWidth, h.x[Rs1(w)]) == Loaded(m1, was)
    requires bus.store(m1, h.Access(), WordWidth, h.x[Rs1(w)], AmoResult(op, was, h.x[Rs2(bus.word(m1, at))])) == Stored(m2)
    ensures Amo(bus, h, op, w, at) == h.(mem := m2).SetReg(Rd(bus.word(m2, at)), was)
  {
    hide Rd, Rs1, Rs2, AmoResult;
  }

  lemma SwapResult(was: Word, b: Word)
    ensures AmoResult(AMOSWAP_W, was, b) == b
  {
  }

  lemma AmoResultIs(op: Op, was: Word, b: Word)
    requires IsAmo(op)
    ensures AmoStores(op, was, b, AmoResult(op, was, b))
  {
    hide Result, And32, Or32, Xor32;
    BitwiseResults(was, b);
  }

  /** An AMO that succeeds: the old value goes to one register.  The rd that was fetched gets
      it, and nothing else changes, exactly if the word from which the handler takes rd again
      still has that rd (but for writes that change nothing).  While the load leaves the
      operands of the instruction alone, what is stored is that of the ISA, except at an
      address that is not four-byte aligned, where nothing should be stored, and when AMOSWAP
      has rd == rs2, which it writes first: then only if the word already held the value of
      rs2. */
  lemma AmoStep<M>(bus: Bus<M>, h: Hart<M>, m: M, w: Word, op: Op, m1: M, was: Word, m2: M)
    requires Boundary(h) && h.life == Live && FetchOf(bus, h) == Fetched(m, w)
    requires IsA(w, op) && IsAmo(op)
    requires bus.load(m, h.Access(), WordWidth, h.x[Rs1(w)]) == Loaded(m1, was)
    requires var stored := AmoStored(h, op, bus.word(m1, PointerOf(bus, h)), was);
             bus.store(m1, h.Access(), WordWidth, h.x[Rs1(w)], stored) == Stored(m2)
    ensures var h', at := Step(bus, h), PointerOf(bus, h);
            var rd := AmoRd(op, bus.word(m1, at), bus.word(m2, at));
            && h'.life == Live && h'.mem == m2 && h'.pc == (h.pc + 4) % 0x1_0000_0000
            && h'.x == h.SetReg(rd, was).x
            && (OnlyChanges(h.x, h'.x, Rd(w)) && (Rd(w) != 0 ==> h'.x[Rd(w)] == was) <==> SameWrite(h.x, Rd(w), rd, was))
    ensures var u := bus.word(m1, PointerOf(bus, h));
            Rd(u) == Rd(w) && Rs2(u) == Rs2(w) ==>
              (IsaStores(op, h.x[Rs1(w)], was, h.x[Rs2(w)], AmoStored(h, op, u, was))
               <==> h.x[Rs1(w)] % 4 == 0 && (SwapsOntoItself(op, w) ==> was == h.x[Rs2(w)]))
  {
    hide Step, FirstMatch, IsA, Handle, Finish, Add32, AtomicOp, Rd, Rs1, Rs2, AmoResult, OnlyChanges, SameWrite, AmoRd;
    hide PointerOf, FetchOf;
    var h1, at := AtHandler(h, m), PointerOf(bus, h);
    var rd := AmoRd(op, bus.word(m1, at), bus.word(m2, at));
    EmulatorSelects(w, op);
    StepSelected(bus, h, m, w, op);
    AmoIsAtomic(op);
    LoadOfHandle(bus, h1, op, w, at);
    AmoHandled(bus, h1, op, w, m1, was, m2, at);
    FinishPlain(AtomicOp(bus, h1, op, w, at));
    OneRegister(h, Step(bus, h).x, Rd(w), was);
    SameWriteIff(h, Rd(w), rd, was);
    NextPc(h.pc);
    AmoResultIs(op, was, h.x[Rs2(w)]);
  }

  lemma AmoIsAtomic(op: Op)
    requires IsAmo(op)
    ensures KindOf(op) == AtomicKind
  {
  }

  // ---------------------------------------------------------------- faulting accesses

  /** The memory in which an atomic instruction finds its rd again. */
  function RdMemory<M>(bus: Bus<M>, h: Hart<M>, op: Op, w: Word, at: Word): M
    requires h.Shaped()
  {
    if op == AMOSWAP_W then Read(bus, h, WordWidth, h.x[Rs1(w)]).0.mem else AtomicOp(bus, h, op, w, at).mem
  }

  /** What an atomic instruction writes to it: SC its success or failure, the others what was
      read, which is -1 if the read faulted. */
  function AtomicWrites<M>(bus: Bus<M>, h: Hart<M>, op: Op, w: Word): Word
    requires h.Shaped()
  {
    if op == SC_W then (if h.loadReservation == h.x[Rs1(w)] then 0 else 1)
    else Read(bus, h, WordWidth, h.x[Rs1(w)]).1
  }

  lemma AtomicRegisters<M>(bus: Bus<M>, h: Hart<M>, op: Op, w: Word, at: Word)
    requires h.Shaped() && h.life == Live && KindOf(op) == AtomicKind && AtomicOp(bus, h, op, w, at).life == Live
    requires bus.word(h.mem, at) == w
    ensures AtomicOp(bus, h, op, w, at).x ==
            h.SetReg(Rd(bus.word(RdMemory(bus, h, op, w, at), at)), AtomicWrites(bus, h, op, w)).x
  {
    hide KindOf, Rd, Rs1, Rs2, AmoResult, Amo, SwapAmo, LoadReserve, StoreConditional, Read;
    if op == AMOSWAP_W {
      SwapRegisters(bus, h, w, at);
    } else if op == LR_W {
      ReserveRegisters(bus, h, w, at);
    } else if op == SC_W {
      ConditionalRegisters(bus, h, w, at);
    } else {
      AmoRegisters(bus, h, op, w, at);
    }
  }

  lemma AmoRegisters<M>(bus: Bus<M>, h: Hart<M>, op: Op, w: Word, at: Word)
    requires h.Shaped() && h.life == Live && Amo(bus, h, op, w, at).life == Live
    ensures var t := Amo(bus, h, op, w, at);
            t.x == h.SetReg(Rd(bus.word(t.mem, at)), Read(bus, h, WordWidth, h.x[Rs1(w)]).1).x
  {
    hide Rd, Rs1, Rs2, AmoResult, Read, Write;
    ReadKeeps(bus, h, h.x[Rs1(w)]);
    var (h1, value) := Read(bus, h, WordWidth, h.x[Rs1(w)]);
    WriteKeeps(bus, h1, h.x[Rs1(w)], AmoResult(op, value, h1.x[Rs2(bus.word(h1.mem, at))]));
  }

  lemma SwapRegisters<M>(bus: Bus<M>, h: Hart<M>, w: Word, at: Word)
    requires h.Shaped() && h.life == Live && SwapAmo(bus, h, w, at).life == Live
    ensures var (h1, value) := Read(bus, h, WordWidth, h.x[Rs1(w)]);
            SwapAmo(bus, h, w, at).x == h.SetReg(Rd(bus.word(h1.mem, at)), value).x
  {
    hide Rd, Rs1, Rs2, Read, Write;
    ReadKeeps(bus, h, h.x[Rs1(w)]);
    var (h1, value) := Read(bus, h, WordWidth, h.x[Rs1(w)]);
    var again := bus.word(h1.mem, at);
    var h2 := h1.SetReg(Rd(again), value);
    WriteKeeps(bus, h2, h.x[Rs1(w)], h2.x[Rs2(again)]);
  }

  lemma ReserveRegisters<M>(bus: Bus<M>, h: Hart<M>, w: Word, at: Word)
    requires h.Shaped() && h.life == Live && LoadReserve(bus, h, w, at).life == Live
    ensures var t := LoadReserve(bus, h, w, at);
            t.x == h.SetReg(Rd(bus.word(t.mem, at)), Read(bus, h, WordWidth, h.x[Rs1(w)]).1).x
  {
    hide Rd, Rs1, Read;
    ReadKeeps(bus, h, h.x[Rs1(w)]);
  }

  lemma ConditionalRegisters<M>(bus: Bus<M>, h: Hart<M>, w: Word, at: Word)
    requires h.Shaped() && h.life == Live && StoreConditional(bus, h, w, at).life == Live && bus.word(h.mem, at) == w
    ensures var t := StoreConditional(bus, h, w, at);
            t.x == h.SetReg(Rd(bus.word(t.mem, at)), AtomicWrites(bus, h, SC_W, w)).x
  {
    hide Rd, Rs1, Rs2, Write, Read;
    WriteKeeps(bus, h, h.x[Rs1(w)], h.x[Rs2(w)]);
  }

  /** A load or store that faults leaves the registers as they were. */
  lemma FaultedRegisters<M>(bus: Bus<M>, h: Hart<M>, op: Op, w: Word, at: Word)
    requires h.Shaped() && h.life == Live && NothingPending(h)
    ensures LoadInto(bus, h, op, w, at).hasPendingException ==> LoadInto(bus, h, op, w, at).x == h.x
    ensures StoreFrom(bus, h, op, w).x == h.x
  {
    hide Rd, Rs1, Rs2, GetIImm, GetSImm, WidthOf, Extended, Truncated, ToWord, Add32;
  }

  /** What an atomic instruction that faults has written to rd nevertheless: SC its success
      code, the others -1 if the load faulted and else the word that was loaded. */
  function FaultWrites<M>(bus: Bus<M>, h: Hart<M>, op: Op, w: Word): Word
    requires h.Shaped()
  {
    if op == SC_W then 0
    else
      match bus.load(h.mem, h.Access(), WordWidth, h.x[Rs1(w)])
      case Loaded(_, was) => was
      case _ => 0xFFFF_FFFF
  }

  lemma FaultWritesThat<M>(bus: Bus<M>, h: Hart<M>, op: Op, w: Word, at: Word)
    requires h.Shaped() && h.life == Live && !h.hasPendingException && KindOf(op) == AtomicKind
    requires AtomicOp(bus, h, op, w, at).life == Live && AtomicOp(bus, h, op, w, at).hasPendingException
    ensures AtomicWrites(bus, h, op, w) == FaultWrites(bus, h, op, w)
  {
    hide KindOf, Rd, Rs1, Rs2, AmoResult, Read, Write, Amo, SwapAmo, LoadReserve, StoreConditional, AtomicOp;
    if op == SC_W {
      OnlyReservedFaults(bus, h, w, at);
    } else {
      AtomicReads(bus, h, op, w, at);
      ValueRead(bus, h, h.x[Rs1(w)]);
    }
  }

  /** An SC can only fault if it stores. */
  lemma OnlyReservedFaults<M>(bus: Bus<M>, h: Hart<M>, w: Word, at: Word)
    requires h.Shaped() && !h.hasPendingException && AtomicOp(bus, h, SC_W, w, at).hasPendingException
    ensures h.loadReservation == h.x[Rs1(w)]
  {
    hide Rd, Rs1, Rs2, Write;
  }

  lemma AtomicReads<M>(bus: Bus<M>, h: Hart<M>, op: Op, w: Word, at: Word)
    requires h.Shaped() && KindOf(op) == AtomicKind && op != SC_W && AtomicOp(bus, h, op, w, at).life == Live
    ensures Read(bus, h, WordWidth, h.x[Rs1(w)]).0.life == Live
  {
    hide KindOf, Rd, Rs1, Rs2, AmoResult, Read, Write;
  }

  lemma ValueRead<M>(bus: Bus<M>, h: Hart<M>, address: Word)
    requires h.Shaped() && Read(bus, h, WordWidth, address).0.life == Live
    ensures Read(bus, h, WordWidth, address).1 ==
            match bus.load(h.mem, h.Access(), WordWidth, address)
            case Loaded(_, was) => was
            case _ => 0xFFFF_FFFF
  {
  }

  /** Precise traps: an instruction whose access faults leaves all registers as they were,
      exactly if it is a load or a store, or does not write rd, or rd held the value already:
      0 for SC, -1 for a load fault, and the word loaded for a store fault of an AMO. */
  lemma AccessTrapPrecise<M>(bus: Bus<M>, h: Hart<M>, m: M, w: Word, op: Op)
    requires Boundary(h) && h.life == Live && FetchOf(bus, h) == Fetched(m, w) && IsA(w, op)
    requires RouteOf(bus, h) == AccessTrap && Step(bus, h).life == Live
    ensures var h1, at := AtHandler(h, m), PointerOf(bus, h);
            var rd := Rd(bus.word(RdMemory(bus, h1, op, w, at), at));
            Step(bus, h).x == h.x
            <==> (KindOf(op) == AtomicKind ==> rd == 0 || h.x[rd] == FaultWrites(bus, h1, op, w))
  {
    hide Step, FirstMatch, IsA, Handle, Finish, Add32, LoadInto, StoreFrom, AtomicOp, Rd, AtomicWrites, KindOf, RdMemory;
    hide FaultWrites;
    var h1, at := AtHandler(h, m), PointerOf(bus, h);
    EmulatorSelects(w, op);
    StepSelected(bus, h, m, w, op);
    PendingIsAccess(bus, h1, op, w, at);
    LoadOfHandle(bus, h1, op, w, at);
    FaultedRegisters(bus, h1, op, w, at);
    FinishKeeps(Handle(bus, h1, op, w, at));
    if KindOf(op) == AtomicKind {
      AtomicRegisters(bus, h1, op, w, at);
      FaultWritesThat(bus, h1, op, w, at);
      SetsOrKeeps(h1, Rd(bus.word(RdMemory(bus, h1, op, w, at), at)), AtomicWrites(bus, h1, op, w));
    }
  }

  // The same from the state before: if no access of the instruction can change the word under
  // the pc, rd is that of the word that was fetched.

  /** Whatever is stored at an address, the word w stays at another. */
  ghost predicate StoreLeaves<M>(bus: Bus<M>, m: M, a: Access, address: Word, at: Word, w: Word) {
    forall value: Word ::
      match bus.store(m, a, WordWidth, address, value)
      case Stored(m') => bus.word(m', at) == w
      case StoreFault(m') => bus.word(m', at) == w
      case StoreUnmapped => true
  }

  /** The memory after a load, the traces of a page-table walk included. */
  function AfterLoad<M>(bus: Bus<M>, m: M, a: Access, address: Word): M {
    match bus.load(m, a, WordWidth, address)
    case Loaded(m', _) => m'
    case LoadFault(m') => m'
    case LoadUnmapped => m
  }

  /** Neither a load from the address, nor a store there, nor the two together change the word
      w at another address. */
  ghost predicate Leaves<M>(bus: Bus<M>, h: Hart<M>, address: Word, at: Word, w: Word)
    requires h.Shaped()
  {
    var m := AfterLoad(bus, h.mem, h.Access(), address);
    bus.word(m, at) == w && StoreLeaves(bus, m, h.Access(), address, at, w) && StoreLeaves(bus, h.mem, h.Access(), address, at, w)
  }

  lemma WriteLeaves<M>(bus: Bus<M>, h: Hart<M>, address: Word, value: Word, at: Word, w: Word)
    requires h.Shaped() && StoreLeaves(bus, h.mem, h.Access(), address, at, w)
    requires Write(bus, h, WordWidth, address, value).life == Live
    ensures bus.word(Write(bus, h, WordWidth, address, value).mem, at) == w
  {
  }

  lemma ReadLeaves<M>(bus: Bus<M>, h: Hart<M>, address: Word)
    requires h.Shaped()
    ensures var h1 := Read(bus, h, WordWidth, address).0;
            h1.Shaped() && h1.mem == AfterLoad(bus, h.mem, h.Access(), address) && h1.Access() == h.Access()
  {
  }

  lemma AmoLeaves<M>(bus: Bus<M>, h: Hart<M>, op: Op, w: Word, at: Word)
    requires h.Shaped() && h.life == Live && Amo(bus, h, op, w, at).life == Live && Leaves(bus, h, h.x[Rs1(w)], at, w)
    ensures bus.word(Amo(bus, h, op, w, at).mem, at) == w
  {
    hide Rd, Rs1, Rs2, AmoResult, Read, Write, StoreLeaves, AfterLoad;
    ReadLeaves(bus, h, h.x[Rs1(w)]);
    var (h1, was) := Read(bus, h, WordWidth, h.x[Rs1(w)]);
    WriteLeaves(bus, h1, h.x[Rs1(w)], AmoResult(op, was, h1.x[Rs2(w)]), at, w);
  }

  lemma SwapLeaves<M>(bus: Bus<M>, h: Hart<M>, w: Word, at: Word)
    requires h.Shaped() && Leaves(bus, h, h.x[Rs1(w)], at, w)
    ensures bus.word(Read(bus, h, WordWidth, h.x[Rs1(w)]).0.mem, at) == w
  {
    hide Rs1, Read, StoreLeaves, AfterLoad;
    ReadLeaves(bus, h, h.x[Rs1(w)]);
  }

  lemma ReserveLeaves<M>(bus: Bus<M>, h: Hart<M>, w: Word, at: Word)
    requires h.Shaped() && LoadReserve(bus, h, w, at).life == Live && Leaves(bus, h, h.x[Rs1(w)], at, w)
    ensures bus.word(LoadReserve(bus, h, w, at).mem, at) == w
  {
    hide Rd, Rs1, Read, StoreLeaves, AfterLoad;
    ReadLeaves(bus, h, h.x[Rs1(w)]);
  }

  lemma ConditionalLeaves<M>(bus: Bus<M>, h: Hart<M>, w: Word, at: Word)
    requires h.Shaped() && h.life == Live && StoreConditional(bus, h, w, at).life == Live
    requires bus.word(h.mem, at) == w && Leaves(bus, h, h.x[Rs1(w)], at, w)
    ensures bus.word(StoreConditional(bus, h, w, at).mem, at) == w
  {
    hide Rd, Rs1, Rs2, Write, StoreLeaves, AfterLoad;
    if h.loadReservation == h.x[Rs1(w)] {
      WriteLeaves(bus, h, h.x[Rs1(w)], h.x[Rs2(w)], at, w);
    }
  }

  lemma RdUnderPc<M>(bus: Bus<M>, h: Hart<M>, op: Op, w: Word, at: Word)
    requires h.Shaped() && h.life == Live && KindOf(op) == AtomicKind && AtomicOp(bus, h, op, w, at).life == Live
    requires bus.word(h.mem, at) == w && Leaves(bus, h, h.x[Rs1(w)], at, w)
    ensures bus.word(RdMemory(bus, h, op, w, at), at) == w
  {
    hide KindOf, Rs1, Read, Amo, SwapAmo, LoadReserve, StoreConditional, Leaves;
    if op == AMOSWAP_W {
      SwapLeaves(bus, h, w, at);
    } else if op == LR_W {
      ReserveLeaves(bus, h, w, at);
    } else if op == SC_W {
      ConditionalLeaves(bus, h, w, at);
    } else {
      AmoLeaves(bus, h, op, w, at);
    }
  }

  /** Precise traps, from the state before: if the access of an atomic instruction leaves the
      instruction alone, the condition is one on the rd that was fetched. */
  lemma AccessTrapPreciseBefore<M>(bus: Bus<M>, h: Hart<M>, m: M, w: Word, op: Op)
    requires Boundary(h) && h.life == Live && FetchOf(bus, h) == Fetched(m, w) && IsA(w, op)
    requires RouteOf(bus, h) == AccessTrap && Step(bus, h).life == Live
    requires KindOf(op) == AtomicKind ==> Leaves(bus, AtHandler(h, m), h.x[Rs1(w)], PointerOf(bus, h), w)
    ensures Step(bus, h).x == h.x
            <==> (KindOf(op) == AtomicKind ==> Rd(w) == 0 || h.x[Rd(w)] == FaultWrites(bus, AtHandler(h, m), op, w))
  {
    hide Step, FirstMatch, IsA, Handle, Finish, Add32, AtomicOp, Rd, Rs1, KindOf, RdMemory, FaultWrites, Leaves;
    hide LoadInto, StoreFrom;
    var h1, at := AtHandler(h, m), PointerOf(bus, h);
    AccessTrapPrecise(bus, h, m, w, op);
    if KindOf(op) == AtomicKind {
      EmulatorSelects(w, op);
      StepSelected(bus, h, m, w, op);
      LoadOfHandle(bus, h1, op, w, at);
      RdUnderPc(bus, h1, op, w, at);
    }
  }

  lemma SetsOrKeeps<M>(h: Hart<M>, i: Word, value: Word)
    requires h.Shaped() && i < 32
    ensures h.SetReg(i, value).x == h.x <==> i == 0 || h.x[i] == value
  {
  }
}
