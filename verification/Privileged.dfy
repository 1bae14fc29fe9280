/** Whole steps of the privileged instructions and of words that are no instruction
    (cpu_prv.c, cpu_ecall.c, cpu.c), with registers, bits, causes and exit codes as numbers. */
module Privileged {
  import opened Words
  import opened Memory
  import opened Decode
  import opened Opcodes
  import opened Status
  import opened HartSpec
  import opened Runs
  import opened Traps
  import opened TrapEntry

  /** The CSRs but one and the counters of every step are those of before. */
  predicate OnlyCsr<M>(h: Hart<M>, h': Hart<M>, csr: int)
    requires h.Shaped() && h'.Shaped()
  {
    forall k :: 0 <= k < 4096 && k != csr && k != 0xC00 && k != 0xC01 ==> h'.csr[k] == h.csr[k]
  }

  /** The step goes on, with the registers as they were and memory as the fetch left it. */
  ghost predicate Continues<M>(h: Hart<M>, h': Hart<M>, m: M) {
    h'.life == Live && h'.x == h.x && h'.mem == m && h'.loadReservation == h.loadReservation
  }

  lemma SystemPatterns()
    ensures PatternOf(ECALL) == Whole(0x73) && PatternOf(MRET) == Whole(0x3020_0073)
    ensures PatternOf(SRET) == Whole(0x1020_0073) && PatternOf(URET) == Whole(0x20_0073)
    ensures PatternOf(WFI) == Whole(0x1050_0073)
    ensures KindOf(ECALL) == KindOf(MRET) == KindOf(SRET) == KindOf(URET) == KindOf(WFI) == SystemKind
  {
    hide PatternOf;
    ReturnPatterns();
    OtherSystemPatterns();
  }

  lemma ReturnPatterns()
    ensures PatternOf(MRET) == Whole(0x3020_0073) && PatternOf(SRET) == Whole(0x1020_0073) && PatternOf(URET) == Whole(0x20_0073)
  {
  }

  lemma OtherSystemPatterns()
    ensures PatternOf(ECALL) == Whole(0x73) && PatternOf(WFI) == Whole(0x1050_0073)
  {
  }

  lemma SystemStep<M>(bus: Bus<M>, h: Hart<M>, m: M, w: Word, op: Op)
    requires h.Shaped() && h.life == Live && FetchOf(bus, h) == Fetched(m, w)
    requires PatternOf(op) == Whole(w) && KindOf(op) == SystemKind
    ensures var t := SystemOp(AtHandler(h, m), op); Step(bus, h) == if t.life != Live then t else Finish(t)
  {
    hide PatternOf, KindOf, Step, FirstMatch, Finish, SystemOp, FetchOf, Handle, Add32;
    EmulatorSelects(w, op);
    StepSelected(bus, h, m, w, op);
    HandleByKind(bus, AtHandler(h, m), op, w, PointerOf(bus, h));
  }

  lemma PcBookkeeping<M>(t: Hart<M>)
    requires t.Shaped() && t.life == Live && !t.hasPendingException
    ensures var h' := Finish(t);
            && h'.Shaped() && h'.pc == t.pc && h'.privilege == t.privilege && Continues(t, h', t.mem)
            && forall k :: 0 <= k < 4096 && k != 0xC00 && k != 0xC01 ==> h'.csr[k] == t.csr[k]
  {
    hide Finish;
    FinishPlain(t);
    FinishKeeps(t);
  }

  /** mret: in machine mode back to mepc, in the privilege of bits 11-12 of mstatus, whoever
      put them there; in any other mode the program exits with code 3. */
  lemma MretStep<M>(bus: Bus<M>, h: Hart<M>, m: M)
    requires Boundary(h) && h.life == Live && FetchOf(bus, h) == Fetched(m, 0x3020_0073)
    ensures h.privilege != 3 ==> Step(bus, h).life == Exited(3)
    ensures h.privilege == 3 ==>
      var h', s := Step(bus, h), h.csr[0x300];
      && Continues(h, h', m) && h'.pc == h.csr[0x341] && h'.privilege == s / 0x800 % 4 && OnlyCsr(h, h', 0x300)
      && forall i: nat :: i < 32 ==>
           Bit(h'.csr[0x300], i) ==
             if i == 3 then Bit(s, 7) else if i == 7 then true else if i == 11 || i == 12 then false else Bit(s, i)
  {
    hide PatternOf, KindOf, Step, Finish, MretStatus, Get, Bit, FetchOf;
    SystemPatterns();
    SystemStep(bus, h, m, 0x3020_0073, MRET);
    if h.privilege == 3 {
      var s := h.csr[0x300];
      PcBookkeeping(Mret(AtHandler(h, m)));
      ReturnFields(s);
      forall i: nat | i < 32
        ensures Bit(MretStatus(s), i) ==
          if i == 3 then Bit(s, 7) else if i == 7 then true else if i == 11 || i == 12 then false else Bit(s, i)
      {
        MretBit(s, i);
      }
    }
  }

  /** sret: in supervisor mode, or in machine mode if bit 22 of mstatus is set, back to sepc in
      the privilege of bit 8; in any other mode the program exits with code 4. */
  lemma SretStep<M>(bus: Bus<M>, h: Hart<M>, m: M)
    requires Boundary(h) && h.life == Live && FetchOf(bus, h) == Fetched(m, 0x1020_0073)
    ensures h.privilege != (if h.csr[0x300] / 0x40_0000 % 2 == 1 then 3 else 1) ==> Step(bus, h).life == Exited(4)
    ensures h.privilege == (if h.csr[0x300] / 0x40_0000 % 2 == 1 then 3 else 1) ==>
      var h', s := Step(bus, h), h.csr[0x300];
      && Continues(h, h', m) && h'.pc == h.csr[0x141] && h'.privilege == s / 0x100 % 2 && OnlyCsr(h, h', 0x300)
      && forall i: nat :: i < 32 ==>
           Bit(h'.csr[0x300], i) ==
             if i == 1 then Bit(s, 5) else if i == 5 then true else if i == 8 then false else Bit(s, i)
  {
    hide PatternOf, KindOf, Step, Finish, SretStatus, Get, Bit, FetchOf;
    SystemPatterns();
    SystemStep(bus, h, m, 0x1020_0073, SRET);
    var s := h.csr[0x300];
    ReturnFields(s);
    if h.privilege == (if s / 0x40_0000 % 2 == 1 then 3 else 1) {
      PcBookkeeping(Sret(AtHandler(h, m)));
      forall i: nat | i < 32
        ensures Bit(SretStatus(s), i) ==
          if i == 1 then Bit(s, 5) else if i == 5 then true else if i == 8 then false else Bit(s, i)
      {
        SretBit(s, i);
      }
    }
  }

  /** ecall: a trap of cause 8, 9 or 11 by the mode it comes from, with value 0. */
  lemma EcallStep<M>(bus: Bus<M>, h: Hart<M>, m: M)
    requires Boundary(h) && h.life == Live && h.privilege != 2 && FetchOf(bus, h) == Fetched(m, 0x73)
    ensures var h', cause := Step(bus, h), if h.privilege == 3 then 11 else 8 + h.privilege;
            Recorded(h, h', cause, 0) && Saved(h, h') && Continues(h, h', m)
  {
    hide PatternOf, KindOf, Step, Finish, FetchOf, RouteOf, Recorded, Saved, Handle, FirstMatch, TakeTrap, Add32;
    SystemPatterns();
    SystemStep(bus, h, m, 0x73, ECALL);
    EcallRoute(bus, h, m);
    var next := AtHandler(h, m);
    var cause := EcallCause(h.privilege);
    TrapKeeps(next.(pendingException := cause), cause, next.pendingTval);
    FinishKeeps(Ecall(next));
    EveryTrapRecords(bus, h);
    EveryTrapSaves(bus, h);
  }

  lemma EcallRoute<M>(bus: Bus<M>, h: Hart<M>, m: M)
    requires h.Shaped() && FetchOf(bus, h) == Fetched(m, 0x73)
    ensures RouteOf(bus, h) == EcallTrap
  {
    hide FirstMatch, FetchOf, Handle, AtHandler, PointerOf, PatternOf, KindOf;
    SystemPatterns();
    EmulatorSelects(0x73, ECALL);
  }

  /** uret goes to uepc, wfi ends the program with code 5. */
  lemma UretStep<M>(bus: Bus<M>, h: Hart<M>, m: M)
    requires Boundary(h) && h.life == Live && FetchOf(bus, h) == Fetched(m, 0x20_0073)
    ensures var h' := Step(bus, h);
            Continues(h, h', m) && h'.pc == h.csr[0x41] && h'.privilege == h.privilege && OnlyCsr(h, h', 0xC00)
  {
    hide PatternOf, KindOf, Step, Finish, FetchOf;
    SystemPatterns();
    SystemStep(bus, h, m, 0x20_0073, URET);
    PcBookkeeping(SystemOp(AtHandler(h, m), URET));
  }

  lemma WfiStep<M>(bus: Bus<M>, h: Hart<M>, m: M)
    requires Boundary(h) && h.life == Live && FetchOf(bus, h) == Fetched(m, 0x1050_0073)
    ensures Step(bus, h).life == Exited(5)
  {
    hide PatternOf, KindOf, Step, Finish, FetchOf;
    SystemPatterns();
    SystemStep(bus, h, m, 0x1050_0073, WFI);
  }

  /** A word that fits no row ends the program with code 2, with registers and CSRs as they
      were; and no other word ends a run in that way. */
  lemma UnknownStep<M>(bus: Bus<M>, h: Hart<M>, m: M, w: Word)
    requires Boundary(h) && h.life == Live && FetchOf(bus, h) == Fetched(m, w)
    ensures (forall op :: !IsA(w, op)) ==>
      var h' := Step(bus, h); h'.life == Exited(2) && h'.x == h.x && h'.csr == h.csr && h'.mem == m
    ensures Step(bus, h).life == Exited(2) ==> forall op :: !IsA(w, op)
  {
    hide IsA, FirstMatch, Handle, Finish, Add32, FetchOf;
    if FirstMatch(w, EMULATOR_CHAIN).Selected? {
      var op := FirstMatch(w, EMULATOR_CHAIN).op;
      EmulatorSelects(w, op);
      HandlerExits(bus, AtHandler(h, m), op, w, PointerOf(bus, h));
      if Handle(bus, AtHandler(h, m), op, w, PointerOf(bus, h)).life == Live {
        FinishLife(Handle(bus, AtHandler(h, m), op, w, PointerOf(bus, h)));
      }
    } else {
      forall op
        ensures !IsA(w, op)
      {
        EmulatorSelects(w, op);
      }
    }
  }

  lemma FinishLife<M>(t: Hart<M>)
    requires t.Shaped() && t.life == Live
    ensures Finish(t).life == Live
  {
    hide Finish;
    FinishKeeps(t);
  }

  /** The exit codes of the handlers. */
  lemma HandlerExits<M>(bus: Bus<M>, h: Hart<M>, op: Op, w: Word, at: Word)
    requires h.Shaped() && h.life == Live
    ensures Handle(bus, h, op, w, at).life in {Live, Crashed, Exited(3), Exited(4), Exited(5)}
  {
    hide KindOf, Handle, RegisterOp, ImmediateOp, UpperOp, BranchOp, JumpOp, LoadInto, StoreFrom, AtomicOp, CsrOp, SystemOp;
    HandleByKind(bus, h, op, w, at);
    match KindOf(op) {
      case LoadKind | StoreKind => AccessLife(bus, h, op, w, at);
      case AtomicKind => AtomicLife(bus, h, op, w, at);
      case SystemKind => SystemLife(h, op);
      case CsrKind => CsrLife(h, op, w);
      case _ => PlainLife(h, op, w);
    }
  }

  lemma PlainLife<M>(h: Hart<M>, op: Op, w: Word)
    requires h.Shaped()
    ensures RegisterOp(h, op, w).life == ImmediateOp(h, op, w).life == UpperOp(h, op, w).life == h.life
    ensures BranchOp(h, op, w).life == JumpOp(h, op, w).life == h.life
  {
    hide Rd, Rs1, Rs2, RegisterResult, GetIImm, GetJImm, GetBImm, ToWord, Upper, Taken, ImmediateTwin;
  }

  lemma CsrLife<M>(h: Hart<M>, op: Op, w: Word)
    requires h.Shaped()
    ensures CsrOp(h, op, w).life == h.life
  {
    hide Rd, Rs1, GetIImmUnsigned, Or32, And32, Not32;
    CsrInRange(w);
  }

  lemma AccessLife<M>(bus: Bus<M>, h: Hart<M>, op: Op, w: Word, at: Word)
    requires h.Shaped() && h.life == Live
    ensures LoadInto(bus, h, op, w, at).life in {Live, Crashed} && StoreFrom(bus, h, op, w).life in {Live, Crashed}
  {
    hide Rd, Rs1, Rs2, GetIImm, GetSImm, WidthOf, Extended, Truncated, ToWord, Add32;
  }

  lemma AtomicLife<M>(bus: Bus<M>, h: Hart<M>, op: Op, w: Word, at: Word)
    requires h.Shaped() && h.life == Live
    ensures AtomicOp(bus, h, op, w, at).life in {Live, Crashed}
  {
    hide Amo, SwapAmo, LoadReserve, StoreConditional;
    AmoLife(bus, h, op, w, at);
    ReserveLife(bus, h, w, at);
  }

  lemma AmoLife<M>(bus: Bus<M>, h: Hart<M>, op: Op, w: Word, at: Word)
    requires h.Shaped() && h.life == Live
    ensures Amo(bus, h, op, w, at).life in {Live, Crashed} && SwapAmo(bus, h, w, at).life in {Live, Crashed}
  {
    hide Rd, Rs1, Rs2, AmoResult;
  }

  lemma ReserveLife<M>(bus: Bus<M>, h: Hart<M>, w: Word, at: Word)
    requires h.Shaped() && h.life == Live
    ensures LoadReserve(bus, h, w, at).life in {Live, Crashed} && StoreConditional(bus, h, w, at).life in {Live, Crashed}
  {
    hide Rd, Rs1, Rs2;
  }

  lemma SystemLife<M>(h: Hart<M>, op: Op)
    requires h.Shaped() && h.life == Live
    ensures SystemOp(h, op).life in {Live, Exited(3), Exited(4), Exited(5)}
  {
    hide TakeTrap, MretStatus, SretStatus, Get;
    var cause := if h.privilege == PRIV_M then CAUSE_MACHINE_ECALL
                 else if h.privilege == PRIV_S then CAUSE_SUPERVISOR_ECALL
                 else if h.privilege == PRIV_U then CAUSE_USER_ECALL
                 else h.pendingException;
    TrapKeeps(h.(pendingException := cause), cause, h.pendingTval);
  }
}
