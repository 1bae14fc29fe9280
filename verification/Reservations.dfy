/** LR and SC over whole runs (cpu_a.c). */
module Reservations {
  import opened Words
  import opened Memory
  import opened Decode
  import opened Opcodes
  import opened HartSpec
  import opened Runs
  import Machine

  /** What the step from a state does to the reservation. */
  datatype Event = Other | Reserve(address: Word) | Conditional(address: Word)

  function EventOf<M>(bus: Bus<M>, h: Hart<M>): Event
    requires h.Shaped()
  {
    match FetchOf(bus, h)
    case Fetched(m, w) =>
      if FirstMatch(w, EMULATOR_CHAIN) == Selected(LR_W) then Reserve(h.x[Rs1(w)])
      else if FirstMatch(w, EMULATOR_CHAIN) == Selected(SC_W) then Conditional(h.x[Rs1(w)])
      else Other
    case _ => Other
  }

  /** The most recent LR or SC before the last state of a run; Other if there was none. */
  ghost function LastEvent<M>(bus: Bus<M>, t: seq<Hart<M>>): Event
    requires forall i :: 0 <= i < |t| - 1 ==> t[i].Shaped()
  {
    if |t| <= 1 then Other
    else
      var e := EventOf(bus, t[|t| - 2]);
      if e.Other? then LastEvent(bus, t[..|t| - 1]) else e
  }

  /** The reservation that an event leaves behind; the zeroed state starts with 0. */
  function ReservationAfter(e: Event): Word {
    match e
    case Other => 0
    case Reserve(address) => address
    case Conditional(_) => 0xFFFF_FFFF
  }

  lemma ReserveSets<M>(bus: Bus<M>, h: Hart<M>, w: Word, at: Word)
    requires h.Shaped() && h.life == Live
    ensures LoadReserve(bus, h, w, at).life == Live ==> LoadReserve(bus, h, w, at).loadReservation == h.x[Rs1(w)]
    ensures StoreConditional(bus, h, w, at).life == Live ==> StoreConditional(bus, h, w, at).loadReservation == 0xFFFF_FFFF
  {
    hide Read, Write;
  }

  lemma HandleReservation<M>(bus: Bus<M>, h: Hart<M>, op: Op, w: Word, at: Word)
    requires h.Shaped() && h.life == Live && Handle(bus, h, op, w, at).life == Live
    ensures Handle(bus, h, op, w, at).loadReservation ==
      if op == LR_W then h.x[Rs1(w)] else if op == SC_W then 0xFFFF_FFFF else h.loadReservation
  {
    hide LoadReserve, StoreConditional, Amo, SwapAmo, Handle, Rs1;
    hide RegisterOp, ImmediateOp, UpperOp, BranchOp, JumpOp, LoadInto, StoreFrom, CsrOp, SystemOp;
    if op == LR_W || op == SC_W {
      ReserveSets(bus, h, w, at);
      HandleByKind(bus, h, op, w, at);
    } else {
      HandleKeeps(bus, h, op, w, at);
    }
  }

  lemma StepReservation<M>(bus: Bus<M>, h: Hart<M>)
    requires h.Shaped() && h.life == Live && Step(bus, h).life == Live
    ensures Step(bus, h).loadReservation ==
      if EventOf(bus, h).Other? then h.loadReservation else ReservationAfter(EventOf(bus, h))
  {
    hide TakeTrap, Handle, Finish, FirstMatch, Add32;
    var next := h.(pc := Add32(h.pc, 4));
    match FetchOf(bus, h) {
      case FetchFault(m) =>
        TrapKeeps(Fault(next, m, CAUSE_FETCH_PAGE_FAULT, h.pc), CAUSE_FETCH_PAGE_FAULT, h.pc);
      case FetchUnmapped(m) =>
        TrapKeeps(next.(mem := m), h.pendingException, h.pendingTval);
      case FetchNull(_) =>
      case Fetched(m, w) =>
        var h1 := next.(mem := m);
        var op := FirstMatch(w, EMULATOR_CHAIN).op;
        var at := PointerOf(bus, h);
        HandleReservation(bus, h1, op, w, at);
        FinishKeeps(Handle(bus, h1, op, w, at));
    }
  }

  /** Over every run, the reservation is what the most recent LR or SC left. */
  lemma {:induction false} ReservationIsLastEvent<M>(bus: Bus<M>, t: seq<Hart<M>>, mem: M, mhartid: Word, entry: Word)
    requires IsRun(bus, t, mem, mhartid, entry) && t[|t| - 1].life == Live
    ensures t[|t| - 1].Shaped()
    ensures t[|t| - 1].loadReservation == ReservationAfter(LastEvent(bus, t))
  {
    hide Step, EventOf;
    if |t| == 1 {
    } else {
      var u := t[..|t| - 1];
      ReservationIsLastEvent(bus, u, mem, mhartid, entry);
      assert t[|t| - 2] == u[|u| - 1];
      StepReservation(bus, t[|t| - 2]);
    }
  }

  lemma ConditionalHandler<M>(bus: Bus<M>, h: Hart<M>, w: Word, at: Word)
    requires h.Shaped() && h.life == Live && StoreConditional(bus, h, w, at).life == Live
    ensures var h' := StoreConditional(bus, h, w, at);
            if h.loadReservation == h.x[Rs1(w)] then
              && h'.mem == Write(bus, h, WordWidth, h.x[Rs1(w)], h.x[Rs2(w)]).mem
              && h'.x == h.SetReg(Rd(bus.word(h'.mem, at)), 0).x
            else
              h'.mem == h.mem && h'.x == h.SetReg(Rd(w), 1).x
  {
    hide Write;
    WriteKeeps(bus, h, h.x[Rs1(w)], h.x[Rs2(w)]);
  }

  /** One SC: with the reservation on its address it stores the rs2 of before the step, even
      if rd is rs1 or rs2, and writes 0 to the rd of the word that is then under the pc;
      without it memory stays as it is and rd becomes 1. */
  lemma ConditionalStep<M>(bus: Bus<M>, h: Hart<M>, m: M, w: Word)
    requires h.Shaped() && h.life == Live
    requires FetchOf(bus, h) == Fetched(m, w) && FirstMatch(w, EMULATOR_CHAIN) == Selected(SC_W)
    requires Step(bus, h).life == Live
    ensures h.loadReservation == h.x[Rs1(w)] ==>
      && Step(bus, h).mem == Write(bus, AtHandler(h, m), WordWidth, h.x[Rs1(w)], h.x[Rs2(w)]).mem
      && Step(bus, h).x == h.SetReg(Rd(bus.word(Step(bus, h).mem, PointerOf(bus, h))), 0).x
    ensures h.loadReservation != h.x[Rs1(w)] ==>
      Step(bus, h).mem == m && Step(bus, h).x == h.SetReg(Rd(w), 1).x
  {
    hide Step, Finish, FirstMatch, StoreConditional, Write, PointerOf, Handle, FetchOf, Rd, Rs1, Rs2;
    hide RegisterOp, ImmediateOp, UpperOp, BranchOp, JumpOp, LoadInto, StoreFrom, CsrOp, SystemOp;
    var h1 := AtHandler(h, m);
    var at := PointerOf(bus, h);
    StepSelected(bus, h, m, w, SC_W);
    HandleByKind(bus, h1, SC_W, w, at);
    FinishKeeps(StoreConditional(bus, h1, w, at));
    ConditionalHandler(bus, h1, w, at);
  }

  /** The success code of an SC goes to the rd that was fetched exactly if the word under the
      pc after the store still has that rd, but for writes that change nothing. */
  lemma SuccessCodeInRd<M>(bus: Bus<M>, h: Hart<M>, m: M, w: Word)
    requires h.Shaped() && h.life == Live
    requires FetchOf(bus, h) == Fetched(m, w) && FirstMatch(w, EMULATOR_CHAIN) == Selected(SC_W)
    requires Step(bus, h).life == Live && h.loadReservation == h.x[Rs1(w)]
    ensures Step(bus, h).x == h.SetReg(Rd(w), 0).x
            <==> SameWrite(h.x, Rd(w), Rd(bus.word(Step(bus, h).mem, PointerOf(bus, h))), 0)
  {
    hide Step, FirstMatch, Write, PointerOf, SameWrite, Rd;
    ConditionalStep(bus, h, m, w);
    SameWriteIff(h, Rd(w), Rd(bus.word(Step(bus, h).mem, PointerOf(bus, h))), 0);
  }

  /** Whether an SC at the address finds a reservation: the most recent LR or SC is an LR of
      that address; or the address is 0 and there has been none, the zeroed state standing
      for a reservation of address 0; or it is 0xFFFFFFFF after another SC, the value that
      stands for no reservation. */
  ghost predicate FindsReservation<M>(bus: Bus<M>, t: seq<Hart<M>>, address: Word)
    requires forall i :: 0 <= i < |t| - 1 ==> t[i].Shaped()
  {
    || LastEvent(bus, t) == Reserve(address)
    || (address == 0 && LastEvent(bus, t) == Other)
    || (address == 0xFFFF_FFFF && LastEvent(bus, t).Conditional?)
  }

  /** Over every run and for every address, exactly when an SC succeeds and what it does. */
  lemma ConditionalOverRun<M>(bus: Bus<M>, t: seq<Hart<M>>, mem: M, mhartid: Word, entry: Word, m: M, w: Word)
    requires IsRun(bus, t, mem, mhartid, entry) && t[|t| - 1].life == Live && t[|t| - 1].Shaped()
    requires FetchOf(bus, t[|t| - 1]) == Fetched(m, w) && FirstMatch(w, EMULATOR_CHAIN) == Selected(SC_W)
    requires Step(bus, t[|t| - 1]).life == Live
    ensures var h, h' := t[|t| - 1], Step(bus, t[|t| - 1]);
            if FindsReservation(bus, t, h.x[Rs1(w)]) then
              && h'.mem == Write(bus, AtHandler(h, m), WordWidth, h.x[Rs1(w)], h.x[Rs2(w)]).mem
              && h'.x == h.SetReg(Rd(bus.word(h'.mem, PointerOf(bus, h))), 0).x
            else
              h'.mem == m && h'.x == h.SetReg(Rd(w), 1).x
  {
    hide Step, FirstMatch, Write, AtHandler, FetchOf, PointerOf;
    ReservationIsLastEvent(bus, t, mem, mhartid, entry);
    ConditionalStep(bus, t[|t| - 1], m, w);
  }

  /** At an address other than the two special values, an SC succeeds exactly when the most
      recent LR or SC is an LR of that same address. */
  lemma ConditionalNeedsReserve<M>(bus: Bus<M>, t: seq<Hart<M>>, mem: M, mhartid: Word, entry: Word, address: Word)
    requires IsRun(bus, t, mem, mhartid, entry) && t[|t| - 1].life == Live
    requires address != 0 && address != 0xFFFF_FFFF
    ensures t[|t| - 1].loadReservation == address <==> LastEvent(bus, t) == Reserve(address)
  {
    ReservationIsLastEvent(bus, t, mem, mhartid, entry);
  }
}
