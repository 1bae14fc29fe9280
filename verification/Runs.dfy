/** Runs of the emulator: what holds at every step boundary of every run from the initial
    state, whatever the program and the memory do. */
module Runs {
  import opened Words
  import opened Fields
  import opened Memory
  import opened Decode
  import opened Opcodes
  import opened Status
  import opened HartSpec
  import Machine

  /** A run: each state but the last is live and followed by its step.  The first is the
      state of initialize_state_linux with the pc that run_linux chooses. */
  ghost predicate IsRun<M>(bus: Bus<M>, t: seq<Hart<M>>, mem: M, mhartid: Word, entry: Word) {
    && |t| > 0
    && t[0] == Machine.Initial(mem, mhartid).(pc := entry)
    && forall i :: 0 <= i < |t| - 1 ==> t[i].Shaped() && t[i].life == Live && t[i + 1] == Step(bus, t[i])
  }

  /** The state in which the handler of a fetched word starts. */
  function AtHandler<M>(h: Hart<M>, m: M): Hart<M> {
    h.(pc := Add32(h.pc, 4), mem := m)
  }

  /** A step whose word is fetched and selected is its handler, then the end of the step. */
  lemma StepSelected<M>(bus: Bus<M>, h: Hart<M>, m: M, w: Word, op: Op)
    requires h.Shaped() && h.life == Live && FetchOf(bus, h) == Fetched(m, w)
    requires FirstMatch(w, EMULATOR_CHAIN) == Selected(op)
    ensures var t := Handle(bus, AtHandler(h, m), op, w, PointerOf(bus, h));
            Step(bus, h) == if t.life != Live then t else Finish(t)
  {
    hide FirstMatch, Handle, Finish, Add32;
  }

  /** Without a pending exception, the end of a step changes only the bookkeeping. */
  lemma FinishPlain<M>(t: Hart<M>)
    requires t.Shaped() && !t.hasPendingException
    ensures Finish(t).pc == t.pc && Finish(t).x == t.x && Finish(t).mem == t.mem && Finish(t).life == t.life
    ensures Finish(t).privilege == t.privilege && Finish(t).hasPendingException == t.hasPendingException
    ensures forall i :: 0 <= i < 4096 && i != CSR_TIME && i != CSR_CYCLE ==> Finish(t).csr[i] == t.csr[i]
  {
    hide Add32;
  }

  /** Whether writing value to register i and writing it to register j leave the same
      registers: it is the same register, or neither write changes anything. */
  predicate SameWrite(x: seq<Word>, i: Word, j: Word, value: Word)
    requires |x| == 32 && i < 32 && j < 32
  {
    i == j || ((i == 0 || x[i] == value) && (j == 0 || x[j] == value))
  }

  lemma SameWriteIff<M>(h: Hart<M>, i: Word, j: Word, value: Word)
    requires h.Shaped() && i < 32 && j < 32
    ensures h.SetReg(i, value).x == h.SetReg(j, value).x <==> SameWrite(h.x, i, j, value)
  {
    var a, b := h.SetReg(i, value).x, h.SetReg(j, value).x;
    if a == b && i != j {
      assert a[i] == b[i] && a[j] == b[j];
    }
  }

  // ---------------------------------------------------------------- what every handler keeps

  predicate NothingPending<M>(h: Hart<M>) {
    !h.hasPendingException && h.pendingException == 0 && h.pendingTval == 0
  }

  /** Either an exception is flagged as pending, or nothing is left over from one. */
  predicate Settled<M>(h: Hart<M>) {
    h.hasPendingException || NothingPending(h)
  }

  /** What a handler leaves alone, and the bounds it respects. */
  predicate Keeps<M>(h: Hart<M>, h': Hart<M>)
    requires h.Shaped() && h'.Shaped()
  {
    && h'.x[0] == h.x[0]
    && h'.status == h.status
    && h'.instructionCounter == h.instructionCounter
    && h'.pcHistory == h.pcHistory
    && (h.privilege < 4 ==> h'.privilege < 4)
    && (Settled(h) ==> Settled(h'))
  }

  /** A memory access moves neither the pc nor the privilege. */
  predicate SamePlace<M>(h: Hart<M>, h': Hart<M>) {
    h'.pc == h.pc && h'.privilege == h.privilege
  }

  lemma PreviousPrivilege(s: Word)
    ensures Get(s, MSTATUS_MPP) < 4 && Get(s, MSTATUS_SPP) < 4
  {
    FieldPlaces();
    Pow2Values();
    GetFieldValue(s, 11, 2);
    GetFieldValue(s, 8, 1);
  }

  lemma TrapKeeps<M>(h: Hart<M>, cause: Word, tval: Word)
    requires h.Shaped()
    ensures Keeps(h, TakeTrap(h, cause, tval)) && NothingPending(TakeTrap(h, cause, tval))
    ensures TakeTrap(h, cause, tval).loadReservation == h.loadReservation
    ensures TakeTrap(h, cause, tval).mem == h.mem && TakeTrap(h, cause, tval).life == h.life
    ensures TakeTrap(h, cause, tval).x == h.x
    ensures TakeTrap(h, cause, tval).csr[CSR_TIME] == h.csr[CSR_TIME]
    ensures TakeTrap(h, cause, tval).csr[CSR_CYCLE] == h.csr[CSR_CYCLE]
  {
    hide MachineTrapStatus, SupervisorTrapStatus, Bit, Sub32;
  }

  lemma SystemKeeps<M>(h: Hart<M>, op: Op)
    requires h.Shaped()
    ensures Keeps(h, SystemOp(h, op)) && SystemOp(h, op).loadReservation == h.loadReservation
  {
    hide TakeTrap, Get, MretStatus, SretStatus;
    PreviousPrivilege(h.csr[CSR_MSTATUS]);
    var cause := if h.privilege == PRIV_M then CAUSE_MACHINE_ECALL
                 else if h.privilege == PRIV_S then CAUSE_SUPERVISOR_ECALL
                 else if h.privilege == PRIV_U then CAUSE_USER_ECALL
                 else h.pendingException;
    TrapKeeps(h.(pendingException := cause), cause, h.pendingTval);
  }

  lemma LoadKeeps<M>(bus: Bus<M>, h: Hart<M>, op: Op, w: Word, at: Word)
    requires h.Shaped()
    ensures Keeps(h, LoadInto(bus, h, op, w, at)) && LoadInto(bus, h, op, w, at).loadReservation == h.loadReservation
    ensures SamePlace(h, LoadInto(bus, h, op, w, at))
  {
    hide Rd, Rs1, GetIImm, Extended, WidthOf, Add32, ToWord;
  }

  lemma StoreKeeps<M>(bus: Bus<M>, h: Hart<M>, op: Op, w: Word)
    requires h.Shaped()
    ensures Keeps(h, StoreFrom(bus, h, op, w)) && StoreFrom(bus, h, op, w).loadReservation == h.loadReservation
    ensures SamePlace(h, StoreFrom(bus, h, op, w))
  {
    hide Rs1, Rs2, GetSImm, Truncated, WidthOf, Add32, ToWord;
  }

  lemma BusKeeps<M>(bus: Bus<M>, h: Hart<M>, op: Op, w: Word, at: Word)
    requires h.Shaped()
    ensures Keeps(h, LoadInto(bus, h, op, w, at)) && LoadInto(bus, h, op, w, at).loadReservation == h.loadReservation
    ensures Keeps(h, StoreFrom(bus, h, op, w)) && StoreFrom(bus, h, op, w).loadReservation == h.loadReservation
    ensures SamePlace(h, LoadInto(bus, h, op, w, at)) && SamePlace(h, StoreFrom(bus, h, op, w))
  {
    hide LoadInto, StoreFrom, Keeps;
    LoadKeeps(bus, h, op, w, at);
    StoreKeeps(bus, h, op, w);
  }

  lemma ReadKeeps<M>(bus: Bus<M>, h: Hart<M>, address: Word)
    requires h.Shaped()
    ensures var h' := Read(bus, h, WordWidth, address).0;
            Keeps(h, h') && SamePlace(h, h') && h'.loadReservation == h.loadReservation && h'.x == h.x
  {
  }

  lemma WriteKeeps<M>(bus: Bus<M>, h: Hart<M>, address: Word, value: Word)
    requires h.Shaped()
    ensures var h' := Write(bus, h, WordWidth, address, value);
            Keeps(h, h') && SamePlace(h, h') && h'.loadReservation == h.loadReservation && h'.x == h.x
  {
  }

  lemma SetRegKeeps<M>(h: Hart<M>, i: Word, value: Word)
    requires h.Shaped() && i < 32
    ensures Keeps(h, h.SetReg(i, value)) && SamePlace(h, h.SetReg(i, value))
    ensures h.SetReg(i, value).loadReservation == h.loadReservation
  {
  }

  lemma SetCsrKeeps<M>(h: Hart<M>, i: Word, value: Word)
    requires h.Shaped() && i < 4096
    ensures Keeps(h, h.SetCsr(i, value)) && h.SetCsr(i, value).loadReservation == h.loadReservation
  {
  }

  lemma KeepsChain<M>(h: Hart<M>, h1: Hart<M>, h2: Hart<M>)
    requires h.Shaped() && h1.Shaped() && h2.Shaped()
    requires Keeps(h, h1) && Keeps(h1, h2)
    ensures Keeps(h, h2)
  {
  }

  lemma AmoKeeps<M>(bus: Bus<M>, h: Hart<M>, op: Op, w: Word, at: Word)
    requires h.Shaped()
    ensures Keeps(h, Amo(bus, h, op, w, at)) && SamePlace(h, Amo(bus, h, op, w, at))
    ensures Amo(bus, h, op, w, at).loadReservation == h.loadReservation
  {
    hide Keeps, Read, Write, AmoResult;
    var address := h.x[Rs1(w)];
    ReadKeeps(bus, h, address);
    var (h1, value) := Read(bus, h, WordWidth, address);
    var result := AmoResult(op, value, h1.x[Rs2(bus.word(h1.mem, at))]);
    WriteKeeps(bus, h1, address, result);
    var h2 := Write(bus, h1, WordWidth, address, result);
    KeepsChain(h, h1, h2);
    var rd := Rd(bus.word(h2.mem, at));
    SetRegKeeps(h2, rd, value);
    KeepsChain(h, h2, h2.SetReg(rd, value));
  }

  lemma SwapKeeps<M>(bus: Bus<M>, h: Hart<M>, w: Word, at: Word)
    requires h.Shaped()
    ensures Keeps(h, SwapAmo(bus, h, w, at)) && SamePlace(h, SwapAmo(bus, h, w, at))
    ensures SwapAmo(bus, h, w, at).loadReservation == h.loadReservation
  {
    hide Keeps, Read, Write;
    var address := h.x[Rs1(w)];
    ReadKeeps(bus, h, address);
    var (h1, value) := Read(bus, h, WordWidth, address);
    var again := bus.word(h1.mem, at);
    SetRegKeeps(h1, Rd(again), value);
    var h2 := h1.SetReg(Rd(again), value);
    KeepsChain(h, h1, h2);
    WriteKeeps(bus, h2, address, h2.x[Rs2(again)]);
    KeepsChain(h, h2, Write(bus, h2, WordWidth, address, h2.x[Rs2(again)]));
  }

  lemma ReserveKeeps<M>(bus: Bus<M>, h: Hart<M>, w: Word, at: Word)
    requires h.Shaped()
    ensures Keeps(h, LoadReserve(bus, h, w, at)) && SamePlace(h, LoadReserve(bus, h, w, at))
  {
    hide Read;
    var address := h.x[Rs1(w)];
    ReadKeeps(bus, h, address);
  }

  lemma ConditionalKeeps<M>(bus: Bus<M>, h: Hart<M>, w: Word, at: Word)
    requires h.Shaped()
    ensures Keeps(h, StoreConditional(bus, h, w, at)) && SamePlace(h, StoreConditional(bus, h, w, at))
  {
    hide Write;
    WriteKeeps(bus, h, h.x[Rs1(w)], h.x[Rs2(w)]);
  }

  lemma AtomicKeeps<M>(bus: Bus<M>, h: Hart<M>, op: Op, w: Word, at: Word)
    requires h.Shaped()
    ensures Keeps(h, AtomicOp(bus, h, op, w, at)) && SamePlace(h, AtomicOp(bus, h, op, w, at))
    ensures op != LR_W && op != SC_W ==> AtomicOp(bus, h, op, w, at).loadReservation == h.loadReservation
  {
    hide Keeps, Amo, SwapAmo, LoadReserve, StoreConditional;
    AmoKeeps(bus, h, op, w, at);
    SwapKeeps(bus, h, w, at);
    ReserveKeeps(bus, h, w, at);
    ConditionalKeeps(bus, h, w, at);
  }

  lemma CsrKeeps<M>(h: Hart<M>, op: Op, w: Word)
    requires h.Shaped()
    ensures Keeps(h, CsrOp(h, op, w)) && CsrOp(h, op, w).loadReservation == h.loadReservation
  {
    hide Keeps, Or32, And32, Not32, GetIImmUnsigned;
    CsrInRange(w);
    var csr := GetIImmUnsigned(w);
    var h1 := h.SetReg(Rd(w), h.csr[csr]);
    SetRegKeeps(h, Rd(w), h.csr[csr]);
    forall value: Word
      ensures Keeps(h, h1.SetCsr(csr, value)) && h1.SetCsr(csr, value).loadReservation == h.loadReservation
    {
      SetCsrKeeps(h1, csr, value);
      KeepsChain(h, h1, h1.SetCsr(csr, value));
    }
    var h2 := h.SetCsr(csr, h.x[Rs1(w)]);
    SetCsrKeeps(h, csr, h.x[Rs1(w)]);
    SetRegKeeps(h2, Rd(w), h.csr[csr]);
    KeepsChain(h, h2, h2.SetReg(Rd(w), h.csr[csr]));
  }

  lemma PlainKeeps<M>(h: Hart<M>, op: Op, w: Word)
    requires h.Shaped()
    ensures Keeps(h, RegisterOp(h, op, w)) && RegisterOp(h, op, w).loadReservation == h.loadReservation
    ensures Keeps(h, ImmediateOp(h, op, w)) && ImmediateOp(h, op, w).loadReservation == h.loadReservation
    ensures Keeps(h, UpperOp(h, op, w)) && UpperOp(h, op, w).loadReservation == h.loadReservation
    ensures Keeps(h, BranchOp(h, op, w)) && BranchOp(h, op, w).loadReservation == h.loadReservation
    ensures Keeps(h, JumpOp(h, op, w)) && JumpOp(h, op, w).loadReservation == h.loadReservation
  {
    hide RegisterResult, GetIImm, GetJImm, GetBImm, ToWord, Upper, Taken;
  }

  lemma HandleKeeps<M>(bus: Bus<M>, h: Hart<M>, op: Op, w: Word, at: Word)
    requires h.Shaped()
    ensures Keeps(h, Handle(bus, h, op, w, at))
    ensures op != LR_W && op != SC_W ==> Handle(bus, h, op, w, at).loadReservation == h.loadReservation
  {
    hide *;
    HandleByKind(bus, h, op, w, at);
    PlainKeeps(h, op, w);
    BusKeeps(bus, h, op, w, at);
    AtomicKeeps(bus, h, op, w, at);
    CsrKeeps(h, op, w);
    SystemKeeps(h, op);
  }

  // ---------------------------------------------------------------- the invariant of a boundary

  ghost predicate Boundary<M>(h: Hart<M>) {
    && h.Shaped()
    && h.x[0] == 0
    && h.csr[0xC01] == h.csr[0xC00] == h.instructionCounter
    && NothingPending(h)
    && h.status == RUNNING
    && h.privilege < 4
  }

  lemma FinishKeeps<M>(h: Hart<M>)
    requires h.Shaped() && h.life == Live
    ensures Finish(h).x == h.x && Finish(h).status == h.status && Finish(h).loadReservation == h.loadReservation
    ensures Finish(h).mem == h.mem && Finish(h).life == Live
    ensures Finish(h).instructionCounter == Add32(h.instructionCounter, 1)
    ensures Finish(h).csr[CSR_TIME] == Finish(h).csr[CSR_CYCLE] == Finish(h).instructionCounter
    ensures Finish(h).pcHistory == h.pcHistory[1..] + [Finish(h).pc]
    ensures Settled(h) ==> NothingPending(Finish(h))
    ensures h.privilege < 4 ==> Finish(h).privilege < 4
  {
    hide TakeTrap, Add32;
    TrapKeeps(h, h.pendingException, h.pendingTval);
  }

  /** n calls of emulate_op, one after the other. */
  function StepN<M>(bus: Bus<M>, h: Hart<M>, n: nat): (h': Hart<M>)
    requires h.Shaped()
    ensures h'.Shaped()
    decreases n
  {
    if n == 0 then h else StepN(bus, Step(bus, h), n - 1)
  }

  /** A live step from a boundary ends at a boundary. */
  lemma StepKeepsBoundary<M>(bus: Bus<M>, h: Hart<M>)
    requires Boundary(h) && h.life == Live && Step(bus, h).life == Live
    ensures Boundary(Step(bus, h))
    ensures var fetched := FetchOf(bus, h).Fetched?;
            && Step(bus, h).instructionCounter == (if fetched then Add32(h.instructionCounter, 1) else h.instructionCounter)
            && Step(bus, h).pcHistory == (if fetched then h.pcHistory[1..] + [Step(bus, h).pc] else h.pcHistory)
  {
    hide TakeTrap, Handle, Finish, FirstMatch, Add32;
    var next := h.(pc := Add32(h.pc, 4));
    match FetchOf(bus, h) {
      case FetchFault(m) =>
        TrapKeeps(Fault(next, m, CAUSE_FETCH_PAGE_FAULT, h.pc), CAUSE_FETCH_PAGE_FAULT, h.pc);
      case FetchUnmapped(m) =>
        TrapKeeps(next.(mem := m), h.pendingException, h.pendingTval);
      case FetchNull(_) =>
      case Fetched(m, w) =>
        var h1 := next.(mem := m);
        assert FirstMatch(w, EMULATOR_CHAIN).Selected?;
        var op := FirstMatch(w, EMULATOR_CHAIN).op;
        var at := PointerOf(bus, h);
        HandleKeeps(bus, h1, op, w, at);
        FinishKeeps(Handle(bus, h1, op, w, at));
    }
  }

  // ---------------------------------------------------------------- all runs

  /** The number of steps of a run whose fetch succeeded. */
  ghost function Fetches<M>(bus: Bus<M>, t: seq<Hart<M>>): nat
    requires forall i :: 0 <= i < |t| - 1 ==> t[i].Shaped()
  {
    if |t| <= 1 then 0
    else Fetches(bus, t[..|t| - 1]) + (if FetchOf(bus, t[|t| - 2]).Fetched? then 1 else 0)
  }

  /** The pcs after those steps, in order. */
  ghost function PcsReached<M>(bus: Bus<M>, t: seq<Hart<M>>): seq<Word>
    requires forall i :: 0 <= i < |t| - 1 ==> t[i].Shaped()
  {
    if |t| <= 1 then []
    else PcsReached(bus, t[..|t| - 1]) + (if FetchOf(bus, t[|t| - 2]).Fetched? then [t[|t| - 1].pc] else [])
  }

  function LastEight(s: seq<Word>): (r: seq<Word>)
    ensures |r| == 8
  {
    if |s| >= 8 then s[|s| - 8..] else Machine.Zeros(8 - |s|) + s
  }

  lemma LastEightPush(s: seq<Word>, pc: Word)
    ensures LastEight(s + [pc]) == LastEight(s)[1..] + [pc]
  {
    var t := s + [pc];
    if |s| >= 8 {
      assert t[|t| - 8..] == s[|s| - 7..] + [pc];
      assert s[|s| - 8..][1..] == s[|s| - 7..];
    } else {
      var zeros := Machine.Zeros(8 - |s|);
      assert LastEight(s)[1..] == zeros[1..] + s;
      assert zeros[1..] == Machine.Zeros(7 - |s|);
      if |s| == 7 {
        assert LastEight(t) == t;
      }
    }
  }

  lemma StartIsBoundary<M>(mem: M, mhartid: Word, entry: Word)
    ensures Boundary(Machine.Initial(mem, mhartid).(pc := entry))
  {
  }

  lemma CountUp(n: nat)
    ensures Add32(ToWord(n), 1) == ToWord(n + 1)
  {
  }

  lemma StartCounts<M>(mem: M, mhartid: Word, entry: Word)
    ensures Machine.Initial(mem, mhartid).(pc := entry).instructionCounter == ToWord(0)
    ensures Machine.Initial(mem, mhartid).(pc := entry).pcHistory == LastEight([])
  {
  }

  /** At every live state of every run: x0 is zero, the two counter CSRs and the
      instruction counter agree (whatever the program wrote to them) and count the steps
      that did not fail at fetch modulo 2^32, and pc_history holds the last eight pcs
      reached, in order. */
  lemma {:induction false} EveryBoundary<M>(bus: Bus<M>, t: seq<Hart<M>>, mem: M, mhartid: Word, entry: Word)
    requires IsRun(bus, t, mem, mhartid, entry) && t[|t| - 1].life == Live
    ensures Boundary(t[|t| - 1])
    ensures t[|t| - 1].instructionCounter == ToWord(Fetches(bus, t))
    ensures t[|t| - 1].pcHistory == LastEight(PcsReached(bus, t))
  {
    hide Step, Boundary, ToWord, Add32, LastEight, FetchOf;
    if |t| == 1 {
      StartIsBoundary(mem, mhartid, entry);
      StartCounts(mem, mhartid, entry);
    } else {
      var u := t[..|t| - 1];
      EveryBoundary(bus, u, mem, mhartid, entry);
      var h := u[|u| - 1];
      assert t[|t| - 2] == h && t[|t| - 1] == Step(bus, h);
      StepKeepsBoundary(bus, h);
      LastEightPush(PcsReached(bus, u), t[|t| - 1].pc);
      CountUp(Fetches(bus, u));
      assert PcsReached(bus, u) + [] == PcsReached(bus, u);
    }
  }
}
