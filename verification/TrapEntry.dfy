/** What a trap records and where it goes (cpu_exception.c), for every route into it: cause and
    value, the mode that handles it, and the vector of that mode. */
module TrapEntry {
  import opened Words
  import opened Memory
  import opened Decode
  import opened Opcodes
  import opened Status
  import opened HartSpec
  import opened Runs
  import opened Traps
  import opened Accesses

  /** Which traps go to supervisor mode: those from there or from user mode whose bit is set,
      exceptions in medeleg and interrupts, of which bit 31 of the cause tells, in mideleg. */
  predicate ToSupervisor(privilege: Word, medeleg: Word, mideleg: Word, cause: Word) {
    && privilege <= 1
    && if cause < 0x8000_0000 then cause < 32 && medeleg / Pow2(cause) % 2 == 1
       else cause < 0x8000_0020 && mideleg / Pow2(cause - 0x8000_0000) % 2 == 1
  }

  lemma DelegatedBit<M>(h: Hart<M>, cause: Word)
    requires h.Shaped()
    ensures ToSupervisor(h.privilege, h.csr[0x302], h.csr[0x303], cause) <==> h.privilege <= PRIV_S && Delegated(h, cause)
  {
    hide Bit;
    if cause < 32 {
      DigitOf(h.csr[0x302], cause, Pow2(cause));
    } else if 0x8000_0000 <= cause < 0x8000_0020 {
      DigitOf(h.csr[0x303], cause - 0x8000_0000, Pow2(cause - 0x8000_0000));
    }
  }

  /** The mode in which a trap is handled, from every state: exceptions by medeleg, interrupts
      by mideleg, causes beyond 31 always in machine mode. */
  lemma TrapMode<M>(h: Hart<M>, cause: Word, tval: Word)
    requires h.Shaped()
    ensures cause < 32 ==>
      TakeTrap(h, cause, tval).privilege == if h.privilege <= 1 && h.csr[0x302] / Pow2(cause) % 2 == 1 then 1 else 3
    ensures 0x8000_0000 <= cause < 0x8000_0020 ==>
      TakeTrap(h, cause, tval).privilege ==
        if h.privilege <= 1 && h.csr[0x303] / Pow2(cause - 0x8000_0000) % 2 == 1 then 1 else 3
    ensures !(cause < 32) && !(0x8000_0000 <= cause < 0x8000_0020) ==> TakeTrap(h, cause, tval).privilege == 3
  {
    hide SupervisorTrapStatus, MachineTrapStatus, Delegated, Sub32;
    DelegatedBit(h, cause);
  }

  /** From h to h' a trap of this cause and value was taken: to the vector of the mode that
      handles it, with scause and stval, or mcause and mtval.  Of the CSRs only those of the
      trap in that mode, mstatus and the counters change. */
  predicate Recorded<M>(h: Hart<M>, h': Hart<M>, cause: Word, tval: Word)
    requires h.Shaped() && h'.Shaped()
  {
    if ToSupervisor(h.privilege, h.csr[0x302], h.csr[0x303], cause) then
      && h'.privilege == 1 && h'.pc == h.csr[0x105]
      && h'.csr[0x142] == cause && h'.csr[0x143] == tval
      && forall k :: 0 <= k < 4096 && !(0x141 <= k <= 0x143) && !IsTrapBookkeeping(k) ==> h'.csr[k] == h.csr[k]
    else
      && h'.privilege == 3 && h'.pc == h.csr[0x305]
      && h'.csr[0x342] == cause && h'.csr[0x343] == tval
      && forall k :: 0 <= k < 4096 && !(0x341 <= k <= 0x343) && !IsTrapBookkeeping(k) ==> h'.csr[k] == h.csr[k]
  }

  /** mstatus and the two counters. */
  predicate IsTrapBookkeeping(csr: int) {
    csr == 0x300 || csr == 0xC00 || csr == 0xC01
  }

  lemma TrapRecords<M>(h: Hart<M>, t: Hart<M>, cause: Word, tval: Word)
    requires h.Shaped() && t.Shaped() && t.csr == h.csr && t.privilege == h.privilege
    ensures Recorded(h, TakeTrap(t, cause, tval), cause, tval)
  {
    hide SupervisorTrapStatus, MachineTrapStatus, Delegated, ToSupervisor, Sub32;
    DelegatedBit(h, cause);
    DelegatedBit(t, cause);
  }

  lemma FinishRecords<M>(h: Hart<M>, t: Hart<M>, cause: Word, tval: Word)
    requires h.Shaped() && t.Shaped() && !t.hasPendingException && Recorded(h, t, cause, tval)
    ensures Recorded(h, Finish(t), cause, tval)
  {
    hide ToSupervisor, Add32;
  }

  lemma FinishTraps<M>(h: Hart<M>, t: Hart<M>)
    requires h.Shaped() && t.Shaped() && t.hasPendingException && t.csr == h.csr && t.privilege == h.privilege
    ensures Recorded(h, Finish(t), t.pendingException, t.pendingTval)
  {
    hide TakeTrap, ToSupervisor, Add32;
    TrapRecords(h, t, t.pendingException, t.pendingTval);
  }

  // ---------------------------------------------------------------- accesses

  /** The address that an instruction accesses. */
  function AccessAddress<M>(h: Hart<M>, op: Op, w: Word): Word
    requires h.Shaped()
  {
    if KindOf(op) == LoadKind then (h.x[Rs1(w)] + GetIImm(w)) % 0x1_0000_0000
    else if KindOf(op) == StoreKind then (h.x[Rs1(w)] + GetSImm(w)) % 0x1_0000_0000
    else h.x[Rs1(w)]
  }

  /** A handler has changed no CSR, and a fault that it leaves pending is of this cause and
      at this address. */
  predicate FaultAt<M>(h: Hart<M>, t: Hart<M>, cause: Word, address: Word) {
    && t.csr == h.csr && t.privilege == h.privilege
    && (t.hasPendingException ==> t.pendingTval == address && t.pendingException == cause)
  }

  lemma LoadFaults<M>(bus: Bus<M>, h: Hart<M>, op: Op, w: Word, at: Word)
    requires h.Shaped() && !h.hasPendingException && KindOf(op) == LoadKind
    ensures FaultAt(h, LoadInto(bus, h, op, w, at), CAUSE_LOAD_PAGE_FAULT, AccessAddress(h, op, w))
  {
    hide Rd, Rs1, GetIImm, Extended, WidthOf, ToWord, Add32, KindOf;
    SumAddress(h.x[Rs1(w)], GetIImm(w));
  }

  lemma StoreFaults<M>(bus: Bus<M>, h: Hart<M>, op: Op, w: Word)
    requires h.Shaped() && !h.hasPendingException && KindOf(op) == StoreKind
    ensures FaultAt(h, StoreFrom(bus, h, op, w), CAUSE_STORE_PAGE_FAULT, AccessAddress(h, op, w))
  {
    hide Rs1, Rs2, GetSImm, Truncated, WidthOf, ToWord, Add32, KindOf;
    SumAddress(h.x[Rs1(w)], GetSImm(w));
  }

  lemma SumAddress(a: Word, n: int)
    ensures Add32(a, ToWord(n)) == (a + n) % 0x1_0000_0000
  {
  }

  /** Whether the store of an AMO faults: it is tried even if the load faulted. */
  predicate AmoStoreFaults<M>(bus: Bus<M>, h: Hart<M>, op: Op, w: Word, at: Word)
    requires h.Shaped()
  {
    var (h1, was) := Read(bus, h, WordWidth, h.x[Rs1(w)]);
    bus.store(h1.mem, h.Access(), WordWidth, h.x[Rs1(w)], AmoStored(h, op, bus.word(h1.mem, at), was)).StoreFault?
  }

  /** The cause of a fault of an atomic instruction: LR can only fault in its load, SC only in
      its store, and an AMO reports its store if that faults, else its load. */
  function AtomicCause<M>(bus: Bus<M>, h: Hart<M>, op: Op, w: Word, at: Word): Word
    requires h.Shaped()
  {
    if op == LR_W then 13
    else if op == SC_W || AmoStoreFaults(bus, h, op, w, at) then 15
    else 13
  }

  lemma AmoFaults<M>(bus: Bus<M>, h: Hart<M>, op: Op, w: Word, at: Word)
    requires h.Shaped() && h.life == Live && !h.hasPendingException && Amo(bus, h, op, w, at).life == Live
    requires IsAmo(op) && op != AMOSWAP_W
    ensures FaultAt(h, Amo(bus, h, op, w, at), AtomicCause(bus, h, op, w, at), h.x[Rs1(w)])
  {
    hide Rd, Rs1, Rs2, AmoResult;
  }

  lemma SwapFaults<M>(bus: Bus<M>, h: Hart<M>, w: Word, at: Word)
    requires h.Shaped() && h.life == Live && !h.hasPendingException && SwapAmo(bus, h, w, at).life == Live
    ensures FaultAt(h, SwapAmo(bus, h, w, at), AtomicCause(bus, h, AMOSWAP_W, w, at), h.x[Rs1(w)])
  {
    hide Rd, Rs1, Rs2;
  }

  lemma ReserveFaults<M>(bus: Bus<M>, h: Hart<M>, w: Word, at: Word)
    requires h.Shaped() && !h.hasPendingException
    ensures FaultAt(h, LoadReserve(bus, h, w, at), CAUSE_LOAD_PAGE_FAULT, h.x[Rs1(w)])
    ensures FaultAt(h, StoreConditional(bus, h, w, at), CAUSE_STORE_PAGE_FAULT, h.x[Rs1(w)])
    ensures StoreConditional(bus, h, w, at).hasPendingException ==> h.loadReservation == h.x[Rs1(w)]
  {
    hide Rd, Rs1, Rs2;
  }

  /** A fault of an atomic instruction is pending at its address with the cause of the access
      that faulted; and an SC that faults had found its reservation. */
  lemma AtomicFaults<M>(bus: Bus<M>, h: Hart<M>, op: Op, w: Word, at: Word)
    requires h.Shaped() && h.life == Live && !h.hasPendingException && KindOf(op) == AtomicKind
    requires AtomicOp(bus, h, op, w, at).life == Live
    ensures FaultAt(h, AtomicOp(bus, h, op, w, at), AtomicCause(bus, h, op, w, at), h.x[Rs1(w)])
    ensures op == SC_W && AtomicOp(bus, h, op, w, at).hasPendingException ==> h.loadReservation == h.x[Rs1(w)]
  {
    hide Rs1, Amo, SwapAmo, LoadReserve, StoreConditional, FaultAt, KindOf, AmoStoreFaults;
    AtomicOps(op);
    if op == AMOSWAP_W {
      SwapFaults(bus, h, w, at);
    } else if op == LR_W || op == SC_W {
      ReserveFaults(bus, h, w, at);
    } else {
      AmoFaults(bus, h, op, w, at);
    }
  }

  lemma AtomicOps(op: Op)
    requires KindOf(op) == AtomicKind
    ensures IsAmo(op) || op == LR_W || op == SC_W
  {
  }

  // ---------------------------------------------------------------- every route

  /** The cause and the value of an environment call. */
  function EcallCause(privilege: Word): Word {
    if privilege == PRIV_M then 11 else if privilege == PRIV_S then 9 else if privilege == PRIV_U then 8 else 0
  }

  /** A trap records the cause and value of its route: a fetch fault the address of the
      instruction, a fetch from no range zeros, an environment call the mode it came from, an
      access fault the address accessed and the access that faulted. */
  lemma EveryTrapRecords<M>(bus: Bus<M>, h: Hart<M>)
    requires Boundary(h) && h.life == Live && Step(bus, h).life == Live
    ensures FetchOf(bus, h).FetchFault? ==> Recorded(h, Step(bus, h), 12, h.pc)
    ensures FetchOf(bus, h).FetchUnmapped? ==> Recorded(h, Step(bus, h), 0, 0)
    ensures RouteOf(bus, h) == EcallTrap ==> Recorded(h, Step(bus, h), EcallCause(h.privilege), 0)
    ensures RouteOf(bus, h) == AccessTrap ==>
      exists op, w, m :: FetchOf(bus, h) == Fetched(m, w) && IsA(w, op) && AccessRecorded(bus, h, m, op, w)
  {
    hide Step, RouteOf, Recorded, AccessRecorded, IsA;
    match FetchOf(bus, h) {
      case FetchFault(m) => FetchRecords(bus, h, m);
      case FetchUnmapped(m) =>
        UnmappedRecords(bus, h, m);
        NoRoute(bus, h);
      case FetchNull(_) =>
        NoRoute(bus, h);
      case Fetched(m, w) =>
        NoRoute(bus, h);
        if RouteOf(bus, h) == EcallTrap {
          EcallRecords(bus, h, m, w);
        } else if RouteOf(bus, h) == AccessTrap {
          AccessRecords(bus, h, m, w);
        }
    }
  }

  /** The cause that a faulting access gives: of LR the load, of SC the store, whose
      reservation had matched, of an AMO the store exactly if the store faults. */
  function AccessCause<M>(bus: Bus<M>, h: Hart<M>, m: M, op: Op, w: Word): Word
    requires h.Shaped()
  {
    if KindOf(op) == LoadKind then 13
    else if KindOf(op) == StoreKind then 15
    else AtomicCause(bus, AtHandler(h, m), op, w, PointerOf(bus, h))
  }

  predicate AccessRecorded<M>(bus: Bus<M>, h: Hart<M>, m: M, op: Op, w: Word)
    requires h.Shaped()
  {
    && Recorded(h, Step(bus, h), AccessCause(bus, h, m, op, w), AccessAddress(h, op, w))
    && (op == SC_W ==> h.loadReservation == h.x[Rs1(w)])
  }

  lemma NoRoute<M>(bus: Bus<M>, h: Hart<M>)
    requires h.Shaped()
    ensures FetchOf(bus, h).FetchFault? || FetchOf(bus, h).FetchUnmapped? ==> RouteOf(bus, h) == FetchTrap
    ensures FetchOf(bus, h).FetchNull? ==> RouteOf(bus, h) == NoTrap
    ensures FetchOf(bus, h).Fetched? ==> RouteOf(bus, h) != FetchTrap
  {
    hide FirstMatch, Handle, Add32;
  }

  lemma FetchRecords<M>(bus: Bus<M>, h: Hart<M>, m: M)
    requires h.Shaped() && FetchOf(bus, h) == FetchFault(m)
    ensures Recorded(h, Step(bus, h), CAUSE_FETCH_PAGE_FAULT, h.pc)
    ensures RouteOf(bus, h) == FetchTrap
  {
    hide TakeTrap, Recorded, Add32;
    TrapRecords(h, Fault(h.(pc := Add32(h.pc, 4)), m, CAUSE_FETCH_PAGE_FAULT, h.pc), CAUSE_FETCH_PAGE_FAULT, h.pc);
  }

  lemma UnmappedRecords<M>(bus: Bus<M>, h: Hart<M>, m: M)
    requires Boundary(h) && FetchOf(bus, h) == FetchUnmapped(m)
    ensures Recorded(h, Step(bus, h), 0, 0)
  {
    hide TakeTrap, Recorded, Add32;
    TrapRecords(h, h.(pc := Add32(h.pc, 4), mem := m), 0, 0);
  }

  lemma EcallRecords<M>(bus: Bus<M>, h: Hart<M>, m: M, w: Word)
    requires Boundary(h) && h.life == Live && FetchOf(bus, h) == Fetched(m, w)
    requires RouteOf(bus, h) == EcallTrap
    ensures Recorded(h, Step(bus, h), EcallCause(h.privilege), 0)
  {
    hide TakeTrap, Recorded, Add32, FirstMatch, Finish, Step, Handle;
    var h1 := AtHandler(h, m);
    EcallSelected(bus, h, m, w);
    StepSelected(bus, h, m, w, ECALL);
    HandleByKind(bus, h1, ECALL, w, PointerOf(bus, h));
    var cause := EcallCause(h.privilege);
    var t := h1.(pendingException := cause);
    TrapRecords(h, t, cause, 0);
    TrapSettles(t, cause, 0);
    FinishRecords(h, TakeTrap(t, cause, 0), cause, 0);
  }

  lemma EcallSelected<M>(bus: Bus<M>, h: Hart<M>, m: M, w: Word)
    requires h.Shaped() && FetchOf(bus, h) == Fetched(m, w) && RouteOf(bus, h) == EcallTrap
    ensures FirstMatch(w, EMULATOR_CHAIN) == Selected(ECALL)
  {
    hide FirstMatch, Handle, Add32;
  }

  lemma TrapSettles<M>(t: Hart<M>, cause: Word, tval: Word)
    requires t.Shaped()
    ensures !TakeTrap(t, cause, tval).hasPendingException && TakeTrap(t, cause, tval).life == t.life
  {
    hide SupervisorTrapStatus, MachineTrapStatus, Bit, Sub32;
  }

  lemma AccessRecords<M>(bus: Bus<M>, h: Hart<M>, m: M, w: Word)
    requires Boundary(h) && h.life == Live && FetchOf(bus, h) == Fetched(m, w)
    requires RouteOf(bus, h) == AccessTrap && Step(bus, h).life == Live
    ensures exists op :: IsA(w, op) && AccessRecorded(bus, h, m, op, w)
  {
    hide Recorded, Add32, FirstMatch, Finish, Step, Handle, KindOf, IsA, LoadInto, StoreFrom, AtomicOp, AccessAddress;
    hide AtomicCause, PointerOf, Rs1;
    var h1, at := AtHandler(h, m), PointerOf(bus, h);
    var op := FirstMatch(w, EMULATOR_CHAIN).op;
    EmulatorSelects(w, op);
    StepSelected(bus, h, m, w, op);
    LoadOfHandle(bus, h1, op, w, at);
    PendingIsAccess(bus, h1, op, w, at);
    KindIsNot(op);
    if KindOf(op) == LoadKind {
      LoadFaults(bus, h1, op, w, at);
    } else if KindOf(op) == StoreKind {
      StoreFaults(bus, h1, op, w);
    } else {
      AtomicFaults(bus, h1, op, w, at);
    }
    SameAddress(h, h1, op, w);
    FinishTraps(h, Handle(bus, h1, op, w, at));
    assert IsA(w, op) && AccessRecorded(bus, h, m, op, w);
  }

  lemma KindIsNot(op: Op)
    ensures op == SC_W ==> KindOf(op) == AtomicKind
  {
  }

  lemma SameAddress<M>(h: Hart<M>, h1: Hart<M>, op: Op, w: Word)
    requires h.Shaped() && h1.Shaped() && h1.x == h.x
    ensures AccessAddress(h1, op, w) == AccessAddress(h, op, w)
    ensures KindOf(op) == AtomicKind ==> AccessAddress(h, op, w) == h.x[Rs1(w)]
  {
    hide Rs1, GetIImm, GetSImm;
  }
}
