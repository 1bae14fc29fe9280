/** The CSR instructions (cpu_csr.c) against chapter 9 of the RISC-V Unprivileged ISA: rd gets
    the old value always, and the CSR gets the value of the ISA exactly under a condition on
    the state before. */
module CsrConformance {
  import opened Words
  import opened Memory
  import opened Decode
  import opened Opcodes
  import opened HartSpec
  import opened Runs

  /** The source operand: a register, or the five-bit immediate. */
  function SourceOf<M>(h: Hart<M>, op: Op, w: Word): Word
    requires h.Shaped()
  {
    if op == CSRRWI || op == CSRRSI || op == CSRRCI then Rs1(w) else h.x[Rs1(w)]
  }

  /** What the ISA says of digit i of the new value. */
  predicate NewDigit(op: Op, was: Word, source: Word, i: nat) {
    match op
    case CSRRW | CSRRWI => Bit(source, i)
    case CSRRS | CSRRSI => Bit(was, i) || Bit(source, i)
    case _ => Bit(was, i) && !Bit(source, i)
  }

  ghost predicate IsaValue(op: Op, was: Word, source: Word, value: Word) {
    forall i: nat :: i < 32 ==> Bit(value, i) == NewDigit(op, was, source, i)
  }

  /** When the handlers write that value: CSRRS and CSRRC read rs1 only after rd is written, and
      CSRRWI clears bits. */
  predicate WritesIsaValue(op: Op, aliased: bool, was: Word, source: Word) {
    match op
    case CSRRS => aliased ==> Or32(was, source) == was
    case CSRRC => aliased ==> And32(was, Not32(source)) == 0
    case CSRRWI => source == 0 && was == 0
    case _ => true
  }

  predicate Aliased(w: Word) {
    Rd(w) == Rs1(w) && Rd(w) != 0
  }

  /** The value that the handlers write. */
  function Written(op: Op, aliased: bool, was: Word, source: Word): Word {
    match op
    case CSRRW => source
    case CSRRS => Or32(was, if aliased then was else source)
    case CSRRSI => Or32(was, source)
    case CSRRC => And32(was, Not32(if aliased then was else source))
    case _ => And32(was, Not32(source))
  }

  // ---------------------------------------------------------------- digits

  lemma OrDigits(was: Word, source: Word)
    ensures IsaValue(CSRRS, was, source, Or32(was, source)) && IsaValue(CSRRSI, was, source, Or32(was, source))
  {
    hide Or;
    forall i: nat | i < 32
      ensures Bit(Or32(was, source), i) == (Bit(was, i) || Bit(source, i))
    {
      OrBit(was, source, i);
    }
  }

  lemma ClearDigits(was: Word, source: Word)
    ensures IsaValue(CSRRC, was, source, And32(was, Not32(source)))
    ensures IsaValue(CSRRCI, was, source, And32(was, Not32(source)))
  {
    hide And;
    WordDigits();
    forall i: nat | i < 32
      ensures Bit(And32(was, Not32(source)), i) == (Bit(was, i) && !Bit(source, i))
    {
      AndBit(was, Not32(source), i);
      NotBit(source, 32, i);
    }
  }

  lemma CopyDigits(op: Op, was: Word, source: Word)
    requires op == CSRRW || op == CSRRWI
    ensures IsaValue(op, was, source, source)
  {
    hide Bit;
  }

  /** The digits determine the value. */
  lemma OneIsaValue(op: Op, was: Word, source: Word, a: Word, b: Word)
    requires IsaValue(op, was, source, a) && IsaValue(op, was, source, b)
    ensures a == b
  {
    hide Bit, NewDigit;
    WordDigits();
    SameBits(a, b, 32);
  }

  lemma {:induction false} OrSelf(a: nat)
    ensures Or(a, a) == a
  {
    if a == 0 {
    } else {
      OrSelf(a / 2);
    }
  }

  lemma ClearSelf(a: Word)
    ensures And32(a, Not32(a)) == 0
  {
    hide And, Bit;
    WordDigits();
    forall i: nat | i < 32
      ensures Bit(And32(a, Not32(a)), i) == Bit(0, i)
    {
      AndBit(a, Not32(a), i);
      NotBit(a, 32, i);
      ZeroBit(i);
    }
    SameBits(And32(a, Not32(a)), 0, 32);
  }

  /** No value is its own complement in another, but for zeros. */
  lemma ClearedIsSource(was: Word, source: Word)
    ensures And32(was, Not32(source)) == source <==> source == 0 && was == 0
  {
    hide And, Bit;
    WordDigits();
    if And32(was, Not32(source)) == source {
      forall i: nat | i < 32
        ensures !Bit(source, i) && !Bit(was, i)
      {
        AndBit(was, Not32(source), i);
        NotBit(source, 32, i);
      }
      NoDigits(source);
      NoDigits(was);
    } else if source == 0 && was == 0 {
      ZeroAnd(Not32(0));
    }
  }

  lemma ZeroAnd(b: nat)
    ensures And(0, b) == 0
  {
  }

  lemma NoDigits(a: Word)
    requires forall i: nat :: i < 32 ==> !Bit(a, i)
    ensures a == 0
  {
    hide Bit;
    WordDigits();
    forall i: nat | i < 32
      ensures Bit(a, i) == Bit(0, i)
    {
      ZeroBit(i);
    }
    SameBits(a, 0, 32);
  }

  /** The value written is that of the ISA exactly under the condition. */
  lemma WrittenIsIsaValue(op: Op, aliased: bool, was: Word, source: Word)
    requires KindOf(op) == CsrKind
    ensures IsaValue(op, was, source, Written(op, aliased, was, source)) <==> WritesIsaValue(op, aliased, was, source)
  {
    hide IsaValue, Or32, And32, Not32;
    var isa := IsaNew(op, was, source);
    IsaDigits(op, was, source);
    SelfDigits(was);
    ClearedIsSource(was, source);
    if IsaValue(op, was, source, Written(op, aliased, was, source)) {
      OneIsaValue(op, was, source, Written(op, aliased, was, source), isa);
    }
  }

  lemma SelfDigits(was: Word)
    ensures Or32(was, was) == was && And32(was, Not32(was)) == 0
  {
    OrSelf(was);
    ClearSelf(was);
  }

  /** The value of the ISA as a word. */
  function IsaNew(op: Op, was: Word, source: Word): Word {
    match op
    case CSRRW | CSRRWI => source
    case CSRRS | CSRRSI => Or32(was, source)
    case _ => And32(was, Not32(source))
  }

  lemma IsaDigits(op: Op, was: Word, source: Word)
    requires KindOf(op) == CsrKind
    ensures IsaValue(op, was, source, IsaNew(op, was, source))
  {
    hide IsaValue, Or32, And32, Not32;
    CsrOps(op);
    OrDigits(was, source);
    ClearDigits(was, source);
    if op == CSRRW || op == CSRRWI {
      CopyDigits(op, was, source);
    }
  }

  lemma CsrOps(op: Op)
    requires KindOf(op) == CsrKind
    ensures op == CSRRS || op == CSRRW || op == CSRRC || op == CSRRSI || op == CSRRWI || op == CSRRCI
  {
  }

  // ---------------------------------------------------------------- the handlers

  /** What every CSR handler leaves: the old value in rd, the value written in the CSR, all else
      as it was. */
  lemma CsrEffect<M>(h: Hart<M>, op: Op, w: Word)
    requires h.Shaped() && h.x[0] == 0 && KindOf(op) == CsrKind
    ensures GetIImmUnsigned(w) < 4096
    ensures var csr := GetIImmUnsigned(w);
            var was := h.csr[csr];
            CsrOp(h, op, w) ==
              h.SetReg(Rd(w), was).SetCsr(csr, Written(op, Aliased(w), was, SourceOf(h, op, w)))
  {
    hide Rd, Rs1, GetIImmUnsigned, Or32, And32, Not32, KindOf;
    CsrOps(op);
    CsrInRange(w);
    var csr := GetIImmUnsigned(w);
    NoSource(h.csr[csr]);
    assert h.csr[csr := h.csr[csr]] == h.csr;
  }

  /** An immediate of zero writes nothing, which is what setting and clearing no bits comes to. */
  lemma NoSource(was: Word)
    ensures Or32(was, 0) == was && And32(was, Not32(0)) == was
  {
    WordDigits();
    AndOnes(was, 32);
    LowSmall(was, 32);
  }

  /** The CSR instructions against the ISA: exactly when the new value is the right one. */
  lemma CsrConforms<M>(bus: Bus<M>, h: Hart<M>, op: Op, w: Word, at: Word)
    requires h.Shaped() && h.x[0] == 0 && KindOf(op) == CsrKind
    ensures GetIImmUnsigned(w) < 4096
    ensures var csr := GetIImmUnsigned(w);
            var was := h.csr[csr];
            var t := Handle(bus, h, op, w, at);
            && t == h.SetReg(Rd(w), was).SetCsr(csr, t.csr[csr])
            && (IsaValue(op, was, SourceOf(h, op, w), t.csr[csr])
                <==> WritesIsaValue(op, Aliased(w), was, SourceOf(h, op, w)))
  {
    hide Handle, CsrOp, IsaValue, WritesIsaValue, Written, Aliased, SourceOf, Rd, GetIImmUnsigned;
    hide RegisterOp, ImmediateOp, UpperOp, BranchOp, JumpOp, LoadInto, StoreFrom, AtomicOp, SystemOp;
    HandleByKind(bus, h, op, w, at);
    CsrEffect(h, op, w);
    WrittenIsIsaValue(op, Aliased(w), h.csr[GetIImmUnsigned(w)], SourceOf(h, op, w));
  }

  // ---------------------------------------------------------------- the step

  /** At the end of every step the emulator sets these two to its instruction counter. */
  predicate IsCounter(csr: Word) {
    csr == CSR_TIME || csr == CSR_CYCLE
  }

  /** When a whole step leaves the value of the ISA: a counter is overwritten by its own
      successor, whatever the instruction wrote. */
  predicate StepWritesIsaValue(op: Op, csr: Word, aliased: bool, was: Word, source: Word) {
    if IsCounter(csr) then IsaNew(op, was, source) == Add32(was, 1) else WritesIsaValue(op, aliased, was, source)
  }

  /** One call of emulate_op on a CSR instruction: the old value goes to rd, no CSR but the one
      named and the counters changes, and that one holds the value of the ISA exactly under
      the condition. */
  lemma CsrStepConforms<M>(bus: Bus<M>, h: Hart<M>, m: M, op: Op, w: Word)
    requires Boundary(h) && h.life == Live && KindOf(op) == CsrKind
    requires FetchOf(bus, h) == Fetched(m, w) && IsA(w, op)
    ensures GetIImmUnsigned(w) < 4096
    ensures var h', csr := Step(bus, h), GetIImmUnsigned(w);
            var was := h.csr[csr];
            && Boundary(h') && h'.life == Live && h'.mem == m && h'.privilege == h.privilege
            && h'.pc == Add32(h.pc, 4) && h'.x == h.SetReg(Rd(w), was).x
            && (forall k :: 0 <= k < 4096 && k != csr && !IsCounter(k) ==> h'.csr[k] == h.csr[k])
            && (IsaValue(op, was, SourceOf(h, op, w), h'.csr[csr])
                <==> StepWritesIsaValue(op, csr, Aliased(w), was, SourceOf(h, op, w)))
  {
    hide Step, FirstMatch, IsA, Handle, Finish, KindOf, Add32, Rd, GetIImmUnsigned, SourceOf, IsaValue, WritesIsaValue;
    hide Aliased, IsaNew, FetchOf, PointerOf;
    var h1 := AtHandler(h, m);
    var csr, source := GetIImmUnsigned(w), SourceOf(h, op, w);
    EmulatorSelects(w, op);
    StepSelected(bus, h, m, w, op);
    CsrConforms(bus, h1, op, w, PointerOf(bus, h));
    SameSource(h, h1, op, w);
    var t := Handle(bus, h1, op, w, PointerOf(bus, h));
    FinishPlain(t);
    FinishKeeps(t);
    StepKeepsBoundary(bus, h);
    if IsCounter(csr) {
      IsaDigits(op, h.csr[csr], source);
      if IsaValue(op, h.csr[csr], source, Step(bus, h).csr[csr]) {
        OneIsaValue(op, h.csr[csr], source, Step(bus, h).csr[csr], IsaNew(op, h.csr[csr], source));
      }
    }
  }

  lemma SameSource<M>(h: Hart<M>, h1: Hart<M>, op: Op, w: Word)
    requires h.Shaped() && h1.Shaped() && h1.x == h.x
    ensures SourceOf(h1, op, w) == SourceOf(h, op, w)
  {
    hide Rs1;
  }
}
