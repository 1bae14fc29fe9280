/** Traps and returns as whole steps: every route into raise_exception (cpu_exception.c,
    cpu.c, cpu_ecall.c), and the mret or sret that undoes it (cpu_prv.c). */
module Traps {
  import opened Words
  import opened Fields
  import opened Memory
  import opened Decode
  import opened Opcodes
  import opened Status
  import opened HartSpec
  import opened Runs

  /** The ways in which a step can take a trap. */
  datatype Route = NoTrap | FetchTrap | AccessTrap | EcallTrap

  function RouteOf<M>(bus: Bus<M>, h: Hart<M>): Route
    requires h.Shaped()
  {
    match FetchOf(bus, h)
    case FetchFault(_) => FetchTrap
    case FetchUnmapped(_) => FetchTrap
    case FetchNull(_) => NoTrap
    case Fetched(m, w) =>
      match FirstMatch(w, EMULATOR_CHAIN)
      case Unknown => NoTrap
      case Selected(op) =>
        if op == ECALL then EcallTrap
        else if Handle(bus, AtHandler(h, m), op, w, PointerOf(bus, h)).hasPendingException then AccessTrap
        else NoTrap
  }

  /** What a trap from h leaves for the return: where the instruction was, and the status
      word pushed; in supervisor mode if the trap was delegated, else in machine mode. */
  ghost predicate Saved<M>(h: Hart<M>, h': Hart<M>)
    requires h.Shaped() && h'.Shaped()
  {
    if h'.privilege == 1 then
      && h.privilege <= 1
      && h'.csr[0x141] == h.pc
      && h'.csr[0x300] == SupervisorTrapStatus(h.status.Value(), h.privilege)
    else
      && h'.privilege == 3
      && h'.csr[0x341] == h.pc
      && h'.csr[0x300] == MachineTrapStatus(h.status.Value(), h.privilege)
  }

  lemma BackFour(pc: Word)
    ensures Sub32(Add32(pc, 4), 4) == pc
  {
  }

  /** A trap taken while the pc is one instruction ahead. */
  lemma TrapSaves<M>(h: Hart<M>, t: Hart<M>, cause: Word, tval: Word)
    requires h.Shaped() && t.Shaped()
    requires t.pc == Add32(h.pc, 4) && t.privilege == h.privilege && t.status == h.status
    ensures Saved(h, TakeTrap(t, cause, tval))
  {
    hide SupervisorTrapStatus, MachineTrapStatus, Bit, Sub32, Add32;
    BackFour(h.pc);
  }

  lemma FinishSaves<M>(h: Hart<M>, t: Hart<M>)
    requires h.Shaped() && t.Shaped() && Saved(h, t) && !t.hasPendingException
    ensures Saved(h, Finish(t)) && Finish(t).privilege == t.privilege
  {
    hide SupervisorTrapStatus, MachineTrapStatus, Add32;
  }

  lemma PlainNotPending<M>(h: Hart<M>, op: Op, w: Word)
    requires h.Shaped() && !h.hasPendingException
    ensures !RegisterOp(h, op, w).hasPendingException && !ImmediateOp(h, op, w).hasPendingException
    ensures !UpperOp(h, op, w).hasPendingException && !BranchOp(h, op, w).hasPendingException
    ensures !JumpOp(h, op, w).hasPendingException
  {
    hide RegisterResult, GetIImm, GetJImm, GetBImm, ToWord, Upper, Taken;
  }

  lemma SystemNotPending<M>(h: Hart<M>, op: Op)
    requires h.Shaped() && !h.hasPendingException
    ensures !SystemOp(h, op).hasPendingException
  {
    hide SupervisorTrapStatus, MachineTrapStatus, MretStatus, SretStatus, Get, Bit, Sub32;
  }

  lemma CsrNotPending<M>(h: Hart<M>, op: Op, w: Word)
    requires h.Shaped() && !h.hasPendingException
    ensures !CsrOp(h, op, w).hasPendingException
  {
    hide GetIImmUnsigned, Or32, And32, Not32;
    CsrInRange(w);
  }

  /** A handler that leaves an exception pending has changed neither pc nor privilege: only
      memory accesses do that. */
  lemma PendingIsAccess<M>(bus: Bus<M>, h: Hart<M>, op: Op, w: Word, at: Word)
    requires h.Shaped() && !h.hasPendingException
    ensures Handle(bus, h, op, w, at).hasPendingException ==> SamePlace(h, Handle(bus, h, op, w, at))
    ensures Handle(bus, h, op, w, at).hasPendingException ==> KindOf(op) in {LoadKind, StoreKind, AtomicKind}
  {
    hide *;
    HandleByKind(bus, h, op, w, at);
    PlainNotPending(h, op, w);
    SystemNotPending(h, op);
    CsrNotPending(h, op, w);
    BusKeeps(bus, h, op, w, at);
    AtomicKeeps(bus, h, op, w, at);
  }

  /** A trap by any route saves the address of the instruction that began the step, pushes
      the status word and never lowers the privilege.  The word pushed is the run status, which
      is zero, so that mstatus ends as the old privilege in its field and nothing else. */
  lemma EveryTrapSaves<M>(bus: Bus<M>, h: Hart<M>)
    requires Boundary(h) && h.life == Live
    requires RouteOf(bus, h) != NoTrap && Step(bus, h).life == Live
    ensures Saved(h, Step(bus, h)) && Step(bus, h).privilege >= h.privilege
    ensures var h' := Step(bus, h); h'.csr[0x300] == h.privilege * (if h'.privilege == 1 then 0x100 else 0x800)
  {
    hide TakeTrap, Handle, Finish, FirstMatch, Add32, Saved;
    var next := h.(pc := Add32(h.pc, 4));
    match FetchOf(bus, h) {
      case FetchFault(m) =>
        TrapSaves(h, Fault(next, m, CAUSE_FETCH_PAGE_FAULT, h.pc), CAUSE_FETCH_PAGE_FAULT, h.pc);
      case FetchUnmapped(m) =>
        TrapSaves(h, next.(mem := m), h.pendingException, h.pendingTval);
      case Fetched(m, w) =>
        HandlerTrapSaves(bus, h, next.(mem := m), FirstMatch(w, EMULATOR_CHAIN).op, w, PointerOf(bus, h));
      case FetchNull(_) =>
    }
    SavedRaises(h, Step(bus, h));
    SavedStatus(h, Step(bus, h));
  }

  lemma SavedStatus<M>(h: Hart<M>, h': Hart<M>)
    requires h.Shaped() && h'.Shaped() && Saved(h, h') && h.privilege < 4 && h.status == RUNNING
    ensures h'.csr[0x300] == h.privilege * (if h'.privilege == 1 then 0x100 else 0x800)
  {
    hide SupervisorTrapStatus, MachineTrapStatus;
    TrapFromZero(h.privilege);
  }

  lemma SavedRaises<M>(h: Hart<M>, h': Hart<M>)
    requires h.Shaped() && h'.Shaped() && Saved(h, h') && h.privilege < 4
    ensures h'.privilege >= h.privilege
  {
  }

  lemma HandlerTrapSaves<M>(bus: Bus<M>, h: Hart<M>, next: Hart<M>, op: Op, w: Word, at: Word)
    requires Boundary(h) && next.Shaped() && !next.hasPendingException
    requires next.pc == Add32(h.pc, 4) && next.privilege == h.privilege && next.status == h.status
    requires op == ECALL || Handle(bus, next, op, w, at).hasPendingException
    requires Handle(bus, next, op, w, at).life == Live
    ensures Saved(h, Finish(Handle(bus, next, op, w, at)))
  {
    hide TakeTrap, Handle, Add32, Saved;
    var t := Handle(bus, next, op, w, at);
    if op == ECALL {
      EcallSaves(bus, h, next, w, at);
      FinishSaves(h, t);
    } else {
      PendingIsAccess(bus, next, op, w, at);
      HandleKeeps(bus, next, op, w, at);
      TrapSaves(h, t, t.pendingException, t.pendingTval);
      TrapKeeps(t, t.pendingException, t.pendingTval);
      CountersApart(h, TakeTrap(t, t.pendingException, t.pendingTval), Finish(t));
    }
  }

  lemma EcallSaves<M>(bus: Bus<M>, h: Hart<M>, next: Hart<M>, w: Word, at: Word)
    requires h.Shaped() && next.Shaped()
    requires next.pc == Add32(h.pc, 4) && next.privilege == h.privilege && next.status == h.status
    ensures Saved(h, Handle(bus, next, ECALL, w, at)) && !Handle(bus, next, ECALL, w, at).hasPendingException
  {
    hide TakeTrap, Add32, Saved;
    HandleByKind(bus, next, ECALL, w, at);
    var cause := if next.privilege == PRIV_M then CAUSE_MACHINE_ECALL
                 else if next.privilege == PRIV_S then CAUSE_SUPERVISOR_ECALL
                 else if next.privilege == PRIV_U then CAUSE_USER_ECALL
                 else next.pendingException;
    TrapSaves(h, next.(pendingException := cause), cause, next.pendingTval);
    TrapKeeps(next.(pendingException := cause), cause, next.pendingTval);
  }

  /** The counters that the end of a step writes are not the saved registers. */
  lemma CountersApart<M>(h: Hart<M>, t: Hart<M>, t': Hart<M>)
    requires h.Shaped() && t.Shaped() && t'.Shaped() && Saved(h, t) && t'.privilege == t.privilege
    requires forall i :: 0 <= i < 4096 && i != CSR_TIME && i != CSR_CYCLE ==> t'.csr[i] == t.csr[i]
    ensures Saved(h, t')
  {
    hide SupervisorTrapStatus, MachineTrapStatus;
  }

  // ---------------------------------------------------------------- returns

  /** h' is in the privilege of the handler, with the registers that the return reads as the
      trap left them; the rest may have changed. */
  ghost predicate ReadyToReturn<M>(trapped: Hart<M>, h': Hart<M>)
    requires trapped.Shaped()
  {
    && Boundary(h') && h'.life == Live
    && h'.privilege == trapped.privilege
    && h'.csr[0x300] == trapped.csr[0x300]
    && (if trapped.privilege == 1 then h'.csr[0x141] == trapped.csr[0x141] else h'.csr[0x341] == trapped.csr[0x341])
  }

  lemma MretRestores<M>(h: Hart<M>, trapped: Hart<M>, r: Hart<M>)
    requires h.Shaped() && trapped.Shaped() && h.privilege < 4
    requires Saved(h, trapped) && trapped.privilege != PRIV_S && ReadyToReturn(trapped, r)
    ensures var r' := Mret(r);
            && r'.life == Live && r'.pc == h.pc && r'.privilege == h.privilege && !r'.hasPendingException
            && Get(r'.csr[CSR_MSTATUS], MSTATUS_MIE) == Get(h.status.Value(), MSTATUS_MIE)
  {
    hide MretStatus, MachineTrapStatus, SupervisorTrapStatus, Get;
    MachineTrapUndone(h.status.Value(), h.privilege);
  }

  lemma NoTsr(status: RunStatus)
    ensures Get(status.Value(), MSTATUS_TSR) == 0
  {
    hide Mask, GetField, LowestBit;
    FieldPlaces();
    GetFieldDigits(status.Value(), 22, 1);
    SmallHasNoTop(status.Value());
  }

  lemma SmallHasNoTop(n: nat)
    requires n < 4
    ensures Low(High(n, 22), 1) == 0
  {
    Pow2Values();
    Pow2Monotone(2, 22);
    LowSmall(n, 22);
  }

  lemma SretRestores<M>(h: Hart<M>, trapped: Hart<M>, r: Hart<M>)
    requires h.Shaped() && trapped.Shaped()
    requires Saved(h, trapped) && trapped.privilege == PRIV_S && ReadyToReturn(trapped, r)
    ensures var r' := Sret(r);
            && r'.life == Live && r'.pc == h.pc && r'.privilege == h.privilege && !r'.hasPendingException
            && Get(r'.csr[CSR_MSTATUS], MSTATUS_SIE) == Get(h.status.Value(), MSTATUS_SIE)
  {
    hide SretStatus, MachineTrapStatus, SupervisorTrapStatus, Get;
    SupervisorTrapUndone(h.status.Value(), h.privilege);
    NoTsr(h.status);
  }

  /** The return instruction of the privilege in which the trap is handled. */
  function ReturnOp(privilege: Word): Op {
    if privilege == PRIV_S then SRET else MRET
  }

  /** From a trap by any route, the matching return, fetched once the handler is done, ends
      its step at the instruction that trapped, in the privilege it had, with the
      interrupt-enable bit of the status word that the trap read. */
  lemma ReturnUndoesTrap<M>(bus: Bus<M>, h: Hart<M>, r: Hart<M>, m: M, w: Word)
    requires Boundary(h) && h.life == Live && RouteOf(bus, h) != NoTrap && Step(bus, h).life == Live
    requires ReadyToReturn(Step(bus, h), r)
    requires FetchOf(bus, r) == Fetched(m, w)
    requires FirstMatch(w, EMULATOR_CHAIN) == Selected(ReturnOp(Step(bus, h).privilege))
    ensures var r' := Step(bus, r);
            && r'.life == Live && r'.pc == h.pc && r'.privilege == h.privilege
            && (if Step(bus, h).privilege == 1
                then Get(r'.csr[0x300], MSTATUS_SIE) == Get(h.status.Value(), MSTATUS_SIE)
                else Get(r'.csr[0x300], MSTATUS_MIE) == Get(h.status.Value(), MSTATUS_MIE))
  {
    hide TakeTrap, FirstMatch, Add32, Saved, Get, Mret, Sret, RouteOf, Step;
    EveryTrapSaves(bus, h);
    var trapped := Step(bus, h);
    ReturnStep(bus, r, m, w, ReturnOp(trapped.privilege));
    var next := AtHandler(r, m);
    StillReady(trapped, r, next);
    if trapped.privilege == PRIV_S {
      SretRestores(h, trapped, next);
    } else {
      MretRestores(h, trapped, next);
    }
  }

  lemma NoEnableBits()
    ensures Get(0, MSTATUS_SIE) == 0 && Get(0, MSTATUS_MIE) == 0
  {
    hide Mask, LowestBit, GetField;
    FieldPlaces();
    GetFieldDigits(0, 1, 1);
    GetFieldDigits(0, 3, 1);
    LowSmall(0, 1);
    LowSmall(0, 3);
    Pow2Values();
  }

  /** The interrupt-enable bit of a privilege. */
  function EnableBit(s: Word, privilege: Word): Word {
    if privilege == PRIV_S then Get(s, MSTATUS_SIE) else Get(s, MSTATUS_MIE)
  }

  /** raise_exception pushes the run status for a status word, so that a trap and its return
      lose the interrupt-enable bit of mstatus: it is clear afterwards, and therefore what it
      was before the trap exactly if it was clear then. */
  lemma EnableBitIsLost<M>(bus: Bus<M>, h: Hart<M>, r: Hart<M>, m: M, w: Word)
    requires Boundary(h) && h.life == Live && RouteOf(bus, h) != NoTrap && Step(bus, h).life == Live
    requires ReadyToReturn(Step(bus, h), r)
    requires FetchOf(bus, r) == Fetched(m, w)
    requires FirstMatch(w, EMULATOR_CHAIN) == Selected(ReturnOp(Step(bus, h).privilege))
    ensures var after := EnableBit(Step(bus, r).csr[0x300], Step(bus, h).privilege);
            var before := EnableBit(h.csr[0x300], Step(bus, h).privilege);
            after == 0 && (after == before <==> before == 0)
  {
    hide FirstMatch, Get, RouteOf, Step, ReadyToReturn, FetchOf, ReturnOp;
    ReturnUndoesTrap(bus, h, r, m, w);
    NoEnableBits();
  }

  lemma StillReady<M>(trapped: Hart<M>, r: Hart<M>, next: Hart<M>)
    requires trapped.Shaped() && ReadyToReturn(trapped, r)
    requires next == r.(pc := next.pc, mem := next.mem)
    ensures ReadyToReturn(trapped, next)
  {
  }

  lemma ReturnStep<M>(bus: Bus<M>, r: Hart<M>, m: M, w: Word, op: Op)
    requires r.Shaped() && r.life == Live && FetchOf(bus, r) == Fetched(m, w)
    requires FirstMatch(w, EMULATOR_CHAIN) == Selected(op) && (op == MRET || op == SRET)
    ensures var next := AtHandler(r, m);
            var t := if op == MRET then Mret(next) else Sret(next);
            t.life == Live && !t.hasPendingException ==>
              && Step(bus, r).life == Live && Step(bus, r).pc == t.pc && Step(bus, r).privilege == t.privilege
              && Step(bus, r).csr[CSR_MSTATUS] == t.csr[CSR_MSTATUS]
  {
    hide FirstMatch, Mret, Sret, Handle, Step, Finish, Add32;
    StepSelected(bus, r, m, w, op);
    HandleByKind(bus, AtHandler(r, m), op, w, PointerOf(bus, r));
    ReturnFinish(AtHandler(r, m), op);
  }

  lemma ReturnFinish<M>(next: Hart<M>, op: Op)
    requires next.Shaped() && (op == MRET || op == SRET)
    ensures KindOf(op) == SystemKind && SystemOp(next, op) == if op == MRET then Mret(next) else Sret(next)
    ensures var t := SystemOp(next, op);
            t.life == Live && !t.hasPendingException ==>
              && Finish(t).life == Live && Finish(t).pc == t.pc && Finish(t).privilege == t.privilege
              && Finish(t).csr[CSR_MSTATUS] == t.csr[CSR_MSTATUS]
  {
    hide Mret, Sret, Finish;
    var t := SystemOp(next, op);
    if !t.hasPendingException {
      FinishPlain(t);
    }
  }
}
