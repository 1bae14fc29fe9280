/** The state of a hart as a value, and what one call of emulate_op makes of it.  This is
    the specification of the methods of class State; what the emulator promises is proved
    about it. */
module HartSpec {
  import opened Words
  import opened Memory
  import opened Decode
  import opened Opcodes
  import opened MulDiv
  import opened Status

  // control and status registers by number (csr.h)
  const CSR_UEPC: Word := 0x41
  const CSR_STVEC: Word := 0x105
  const CSR_SEPC: Word := 0x141
  const CSR_SCAUSE: Word := 0x142
  const CSR_STVAL: Word := 0x143
  const CSR_SATP: Word := 0x180
  const CSR_MSTATUS: Word := 0x300
  const CSR_MISA: Word := 0x301
  const CSR_MEDELEG: Word := 0x302
  const CSR_MIDELEG: Word := 0x303
  const CSR_MTVEC: Word := 0x305
  const CSR_MEPC: Word := 0x341
  const CSR_MCAUSE: Word := 0x342
  const CSR_MTVAL: Word := 0x343
  const CSR_CYCLE: Word := 0xC00
  const CSR_TIME: Word := 0xC01
  const CSR_MHARTID: Word := 0xF14

  // trap causes (cause.h) and exit codes (exit_codes.h)
  const CAUSE_USER_ECALL: Word := 0x8
  const CAUSE_SUPERVISOR_ECALL: Word := 0x9
  const CAUSE_MACHINE_ECALL: Word := 0xB
  const CAUSE_FETCH_PAGE_FAULT: Word := 0xC
  const CAUSE_LOAD_PAGE_FAULT: Word := 0xD
  const CAUSE_STORE_PAGE_FAULT: Word := 0xF
  const EXIT_ILLEGAL_INSTRUCTION := 2
  const EXIT_ILLEGAL_MRET := 3
  const EXIT_ILLEGAL_SRET := 4
  const EXIT_WFI := 5

  /** The Status enumeration of state.h, whose numeric value raise_exception takes for a
      status word. */
  datatype RunStatus = RUNNING | BREAKPOINT | EXIT_TERMINATION {
    function Value(): Word {
      match this
      case RUNNING => 0
      case BREAKPOINT => 1
      case EXIT_TERMINATION => 2
    }
  }

  /** Whether the program still runs: exit() ends it, and so does an access through a null
      memory range. */
  datatype Life = Live | Exited(code: int) | Crashed

  datatype Hart<M> = Hart(
    pc: Word,
    x: seq<Word>,
    csr: seq<Word>,
    status: RunStatus,
    instructionCounter: Word,
    pendingTval: Word,
    pendingException: Word,
    hasPendingException: bool,
    privilege: Word,
    loadReservation: Word,
    pcHistory: seq<Word>,
    mem: M,
    life: Life)
  {
    /** The sizes of the arrays of the C structure. */
    predicate Shaped() {
      |x| == 32 && |csr| == 4096 && |pcHistory| == 8
    }

    function Access(): Access
      requires Shaped()
    {
      Memory.Access.Access(privilege, csr[CSR_SATP])
    }

    /** set_reg: x0 is never written. */
    function SetReg(i: Word, value: Word): (h: Hart<M>)
      requires Shaped() && i < 32
      ensures h.Shaped()
    {
      if i == 0 then this else this.(x := x[i := value])
    }

    function SetCsr(i: Word, value: Word): (h: Hart<M>)
      requires Shaped() && i < 4096
      ensures h.Shaped()
    {
      this.(csr := csr[i := value])
    }
  }

  // ---------------------------------------------------------------- traps

  /** Whether a trap is passed on to supervisor mode: the bit of its cause is set in
      medeleg, or in mideleg for an interrupt. */
  predicate Delegated<M>(h: Hart<M>, cause: Word)
    requires h.Shaped()
  {
    var bit := cause % 0x8000_0000;
    bit < 32 && Bit(h.csr[if cause >= 0x8000_0000 then CSR_MIDELEG else CSR_MEDELEG], bit)
  }

  function TakeTrap<M>(h: Hart<M>, cause: Word, tval: Word): (h': Hart<M>)
    requires h.Shaped()
    ensures h'.Shaped()
  {
    var epc := Sub32(h.pc, 4);
    var h' :=
      if h.privilege <= PRIV_S && Delegated(h, cause) then
        var t := h.SetCsr(CSR_SEPC, epc).SetCsr(CSR_SCAUSE, cause).SetCsr(CSR_STVAL, tval);
        t.SetCsr(CSR_MSTATUS, SupervisorTrapStatus(h.status.Value(), h.privilege))
         .(pc := t.csr[CSR_STVEC], privilege := PRIV_S)
      else
        var t := h.SetCsr(CSR_MCAUSE, cause).SetCsr(CSR_MEPC, epc).SetCsr(CSR_MTVAL, tval);
        t.SetCsr(CSR_MSTATUS, MachineTrapStatus(h.status.Value(), h.privilege))
         .(pc := t.csr[CSR_MTVEC], privilege := PRIV_M);
    h'.(pendingException := 0, pendingTval := 0, hasPendingException := false)
  }

  function Ecall<M>(h: Hart<M>): (h': Hart<M>)
    requires h.Shaped()
    ensures h'.Shaped()
  {
    var cause :=
      if h.privilege == PRIV_M then CAUSE_MACHINE_ECALL
      else if h.privilege == PRIV_S then CAUSE_SUPERVISOR_ECALL
      else if h.privilege == PRIV_U then CAUSE_USER_ECALL
      else h.pendingException;
    TakeTrap(h.(pendingException := cause), cause, h.pendingTval)
  }

  function Mret<M>(h: Hart<M>): (h': Hart<M>)
    requires h.Shaped()
    ensures h'.Shaped()
  {
    if h.privilege != PRIV_M then h.(life := Exited(EXIT_ILLEGAL_MRET))
    else
      var s := h.csr[CSR_MSTATUS];
      h.SetCsr(CSR_MSTATUS, MretStatus(s)).(pc := h.csr[CSR_MEPC], privilege := Get(s, MSTATUS_MPP))
  }

  function Sret<M>(h: Hart<M>): (h': Hart<M>)
    requires h.Shaped()
    ensures h'.Shaped()
  {
    var s := h.csr[CSR_MSTATUS];
    if h.privilege != (if Get(s, MSTATUS_TSR) != 0 then PRIV_M else PRIV_S) then
      h.(life := Exited(EXIT_ILLEGAL_SRET))
    else
      h.SetCsr(CSR_MSTATUS, SretStatus(s)).(pc := h.csr[CSR_SEPC], privilege := Get(s, MSTATUS_SPP))
  }

  // ---------------------------------------------------------------- memory

  /** A read by the running instruction: the new state and the value.  A page fault is left
      pending, and the value is then -1. */
  function Read<M>(bus: Bus<M>, h: Hart<M>, width: Width, address: Word): (r: (Hart<M>, Word))
    requires h.Shaped()
    ensures r.0.Shaped()
  {
    match bus.load(h.mem, h.Access(), width, address)
    case Loaded(m, value) => (h.(mem := m), value)
    case LoadFault(m) => (Fault(h, m, CAUSE_LOAD_PAGE_FAULT, address), 0xFFFF_FFFF)
    case LoadUnmapped => (h.(life := Crashed), 0)
  }

  function Write<M>(bus: Bus<M>, h: Hart<M>, width: Width, address: Word, value: Word): (h': Hart<M>)
    requires h.Shaped()
    ensures h'.Shaped()
  {
    match bus.store(h.mem, h.Access(), width, address, value)
    case Stored(m) => h.(mem := m)
    case StoreFault(m) => Fault(h, m, CAUSE_STORE_PAGE_FAULT, address)
    case StoreUnmapped => h.(life := Crashed)
  }

  function Fault<M>(h: Hart<M>, m: M, cause: Word, address: Word): Hart<M> {
    h.(mem := m, pendingException := cause, pendingTval := address, hasPendingException := true)
  }

  // ---------------------------------------------------------------- instructions

  /** The groups of instructions that work alike. */
  datatype Kind =
    | RegisterKind | ImmediateKind | UpperKind | BranchKind | JumpKind | LoadKind | StoreKind
    | AtomicKind | CsrKind | SystemKind

  function KindOf(op: Op): Kind {
    match op
    case ADD | SUB | SLL | SLT | SLTU | XOR | SRL | SRA | OR | AND
        | MUL | MULH | MULHSU | MULHU | DIV | DIVU | REM | REMU => RegisterKind
    case ADDI | SLTI | SLTIU | XORI | ORI | ANDI | SLLI | SRLI | SRAI => ImmediateKind
    case LUI | AUIPC => UpperKind
    case BEQ | BNE | BLT | BGE | BLTU | BGEU => BranchKind
    case JAL | JALR => JumpKind
    case LB | LH | LW | LBU | LHU => LoadKind
    case SB | SH | SW => StoreKind
    case AMOADD_W | AMOAND_W | AMOOR_W | AMOXOR_W | AMOSWAP_W | LR_W | SC_W => AtomicKind
    case CSRRW | CSRRS | CSRRC | CSRRWI | CSRRSI | CSRRCI => CsrKind
    case ECALL | EBREAK | MRET | SRET | URET | WFI | FENCE | FENCE_I | SFENCE_VMA => SystemKind
  }

  /** The result of a register-register instruction. */
  function RegisterResult(op: Op, a: Word, b: Word): Word {
    match op
    case ADD => Add32(a, b)
    case SUB => Sub32(a, b)
    case SLL => Shl32(a, b % 32)
    case SLT => if Signed(a) < Signed(b) then 1 else 0
    case SLTU => if a < b then 1 else 0
    case XOR => Xor32(a, b)
    case SRL => Shr32(a, b % 32)
    case SRA => Sar32(a, b % 32)
    case OR => Or32(a, b)
    case AND => And32(a, b)
    case MUL => Mul32(a, b)
    case MULH => Mulh32(a, b)
    case MULHSU => Mulhsu32(a, b)
    case MULHU => Mulhu32(a, b)
    case DIV => Div32(a, b)
    case DIVU => Divu32(a, b)
    case REM => Rem32(a, b)
    case REMU => Remu32(a, b)
    case _ => 0
  }

  /** The instruction of the same result whose second operand is an immediate. */
  function ImmediateTwin(op: Op): Op {
    match op
    case ADDI => ADD
    case SLTI => SLT
    case SLTIU => SLTU
    case XORI => XOR
    case ORI => OR
    case ANDI => AND
    case SLLI => SLL
    case SRLI => SRL
    case SRAI => SRA
    case _ => op
  }

  predicate Taken(op: Op, a: Word, b: Word) {
    match op
    case BEQ => a == b
    case BNE => a != b
    case BLT => Signed(a) < Signed(b)
    case BGE => Signed(a) >= Signed(b)
    case BLTU => a < b
    case BGEU => a >= b
    case _ => false
  }

  function RegisterOp<M>(h: Hart<M>, op: Op, w: Word): (h': Hart<M>)
    requires h.Shaped()
    ensures h'.Shaped()
  {
    h.SetReg(Rd(w), RegisterResult(op, h.x[Rs1(w)], h.x[Rs2(w)]))
  }

  function ImmediateOp<M>(h: Hart<M>, op: Op, w: Word): (h': Hart<M>)
    requires h.Shaped()
    ensures h'.Shaped()
  {
    h.SetReg(Rd(w), RegisterResult(ImmediateTwin(op), h.x[Rs1(w)], ToWord(GetIImm(w))))
  }

  /** The upper 20 bits in their place. */
  function Upper(w: Word): Word {
    w - w % 0x1000
  }

  /** LUI loads the upper immediate, AUIPC adds it to the address of the instruction. */
  function UpperOp<M>(h: Hart<M>, op: Op, w: Word): (h': Hart<M>)
    requires h.Shaped()
    ensures h'.Shaped()
  {
    h.SetReg(Rd(w), if op == LUI then Upper(w) else ToWord(Upper(w) + h.pc - 4))
  }

  function BranchOp<M>(h: Hart<M>, op: Op, w: Word): (h': Hart<M>)
    requires h.Shaped()
    ensures h'.Shaped()
  {
    if Taken(op, h.x[Rs1(w)], h.x[Rs2(w)]) then h.(pc := ToWord(h.pc + GetBImm(w) - 4)) else h
  }

  /** The jumps compute their target from the registers as they were. */
  function JumpOp<M>(h: Hart<M>, op: Op, w: Word): (h': Hart<M>)
    requires h.Shaped()
    ensures h'.Shaped()
  {
    var target := if op == JAL then h.pc + GetJImm(w) - 4 else h.x[Rs1(w)] + GetIImm(w);
    h.SetReg(Rd(w), h.pc).(pc := ToWord(target))
  }

  function WidthOf(op: Op): Width {
    match op
    case LB | LBU | SB => ByteWidth
    case LH | LHU | SH => HalfWidth
    case _ => WordWidth
  }

  /** LB and LH copy the sign bit of what was read into the upper bits. */
  function Extended(op: Op, value: Word): Word {
    if op == LB && Bit(value, 7) then Or32(value, 0xFFFF_FF00)
    else if op == LH && Bit(value, 15) then Or32(value, 0xFFFF_0000)
    else value
  }

  lemma UnsignedLoads(value: Word)
    ensures Extended(LBU, value) == Extended(LHU, value) == Extended(LW, value) == value
    ensures WidthOf(LBU) == ByteWidth && WidthOf(LHU) == HalfWidth && WidthOf(LW) == WordWidth
  {
  }

  /** SB and SH pass on the low byte or halfword of rs2. */
  function Truncated(op: Op, value: Word): Word {
    match op
    case SB => value % 0x100
    case SH => value % 0x1_0000
    case _ => value
  }

  function LoadInto<M>(bus: Bus<M>, h: Hart<M>, op: Op, w: Word, at: Word): (h': Hart<M>)
    requires h.Shaped()
    ensures h'.Shaped()
  {
    var (h1, value) := Read(bus, h, WidthOf(op), Add32(h.x[Rs1(w)], ToWord(GetIImm(w))));
    if h1.life != Live || h1.pendingException != 0 then h1
    else h1.SetReg(Rd(bus.word(h1.mem, at)), Extended(op, value))
  }

  function StoreFrom<M>(bus: Bus<M>, h: Hart<M>, op: Op, w: Word): (h': Hart<M>)
    requires h.Shaped()
    ensures h'.Shaped()
  {
    Write(bus, h, WidthOf(op), Add32(h.x[Rs1(w)], ToWord(GetSImm(w))), Truncated(op, h.x[Rs2(w)]))
  }

  function AmoResult(op: Op, was: Word, b: Word): Word {
    match op
    case AMOADD_W => Add32(was, b)
    case AMOAND_W => And32(was, b)
    case AMOOR_W => Or32(was, b)
    case AMOXOR_W => Xor32(was, b)
    case _ => b
  }

  function Amo<M>(bus: Bus<M>, h: Hart<M>, op: Op, w: Word, at: Word): (h': Hart<M>)
    requires h.Shaped()
    ensures h'.Shaped()
  {
    var address := h.x[Rs1(w)];
    var (h1, value) := Read(bus, h, WordWidth, address);
    if h1.life != Live then h1
    else
      var h2 := Write(bus, h1, WordWidth, address, AmoResult(op, value, h1.x[Rs2(bus.word(h1.mem, at))]));
      if h2.life != Live then h2 else h2.SetReg(Rd(bus.word(h2.mem, at)), value)
  }

  /** AMOSWAP writes rd before it reads rs2. */
  function SwapAmo<M>(bus: Bus<M>, h: Hart<M>, w: Word, at: Word): (h': Hart<M>)
    requires h.Shaped()
    ensures h'.Shaped()
  {
    var address := h.x[Rs1(w)];
    var (h1, value) := Read(bus, h, WordWidth, address);
    if h1.life != Live then h1
    else
      var again := bus.word(h1.mem, at);
      var h2 := h1.SetReg(Rd(again), value);
      Write(bus, h2, WordWidth, address, h2.x[Rs2(again)])
  }

  function LoadReserve<M>(bus: Bus<M>, h: Hart<M>, w: Word, at: Word): (h': Hart<M>)
    requires h.Shaped()
    ensures h'.Shaped()
  {
    var address := h.x[Rs1(w)];
    var (h1, value) := Read(bus, h, WordWidth, address);
    if h1.life != Live then h1 else h1.SetReg(Rd(bus.word(h1.mem, at)), value).(loadReservation := address)
  }

  function StoreConditional<M>(bus: Bus<M>, h: Hart<M>, w: Word, at: Word): (h': Hart<M>)
    requires h.Shaped()
    ensures h'.Shaped()
  {
    var address, value := h.x[Rs1(w)], h.x[Rs2(w)];
    if h.loadReservation == address then
      var h1 := Write(bus, h, WordWidth, address, value);
      if h1.life != Live then h1
      else h1.SetReg(Rd(bus.word(h1.mem, at)), 0).(loadReservation := 0xFFFF_FFFF)
    else
      h.SetReg(Rd(w), 1).(loadReservation := 0xFFFF_FFFF)
  }

  function AtomicOp<M>(bus: Bus<M>, h: Hart<M>, op: Op, w: Word, at: Word): (h': Hart<M>)
    requires h.Shaped()
    ensures h'.Shaped()
  {
    match op
    case AMOSWAP_W => SwapAmo(bus, h, w, at)
    case LR_W => LoadReserve(bus, h, w, at)
    case SC_W => StoreConditional(bus, h, w, at)
    case _ => Amo(bus, h, op, w, at)
  }

  /** The CSR instructions, in the order in which the source reads and writes: CSRRS and
      CSRRC write rd before they read rs1, and CSRRWI clears bits instead of writing. */
  function CsrOp<M>(h: Hart<M>, op: Op, w: Word): (h': Hart<M>)
    requires h.Shaped()
    ensures h'.Shaped()
  {
    CsrInRange(w);
    var csr, imm := GetIImmUnsigned(w), Rs1(w);
    var was := h.csr[csr];
    var h1 := h.SetReg(Rd(w), was);
    match op
    case CSRRW => h.SetCsr(csr, h.x[Rs1(w)]).SetReg(Rd(w), was)
    case CSRRS => h1.SetCsr(csr, Or32(was, h1.x[Rs1(w)]))
    case CSRRC => h1.SetCsr(csr, And32(was, Not32(h1.x[Rs1(w)])))
    case CSRRWI => h1.SetCsr(csr, And32(was, Not32(imm)))
    case CSRRSI => if imm == 0 then h1 else h1.SetCsr(csr, Or32(was, imm))
    case _ => if imm == 0 then h1 else h1.SetCsr(csr, And32(was, Not32(imm)))
  }

  lemma CsrInRange(w: Word)
    ensures GetIImmUnsigned(w) < 4096
  {
    IImmUnsignedValue(w);
  }

  function SystemOp<M>(h: Hart<M>, op: Op): (h': Hart<M>)
    requires h.Shaped()
    ensures h'.Shaped()
  {
    match op
    case ECALL => Ecall(h)
    case MRET => Mret(h)
    case SRET => Sret(h)
    case URET => h.(pc := h.csr[CSR_UEPC])
    case WFI => h.(life := Exited(EXIT_WFI))
    case _ => h
  }

  /** What the handler of op does to a state whose pc is already one instruction ahead.  The
      word w is the one by which the handler was chosen; what a handler takes from the
      instruction after an access to memory it takes from the word that then lies at `at`. */
  function Handle<M>(bus: Bus<M>, h: Hart<M>, op: Op, w: Word, at: Word): (h': Hart<M>)
    requires h.Shaped()
    ensures h'.Shaped()
  {
    match KindOf(op)
    case RegisterKind => RegisterOp(h, op, w)
    case ImmediateKind => ImmediateOp(h, op, w)
    case UpperKind => UpperOp(h, op, w)
    case BranchKind => BranchOp(h, op, w)
    case JumpKind => JumpOp(h, op, w)
    case LoadKind => LoadInto(bus, h, op, w, at)
    case StoreKind => StoreFrom(bus, h, op, w)
    case AtomicKind => AtomicOp(bus, h, op, w, at)
    case CsrKind => CsrOp(h, op, w)
    case SystemKind => SystemOp(h, op)
  }

  lemma HandleByKind<M>(bus: Bus<M>, h: Hart<M>, op: Op, w: Word, at: Word)
    requires h.Shaped()
    ensures Handle(bus, h, op, w, at) == match KindOf(op)
                                     case RegisterKind => RegisterOp(h, op, w)
                                     case ImmediateKind => ImmediateOp(h, op, w)
                                     case UpperKind => UpperOp(h, op, w)
                                     case BranchKind => BranchOp(h, op, w)
                                     case JumpKind => JumpOp(h, op, w)
                                     case LoadKind => LoadInto(bus, h, op, w, at)
                                     case StoreKind => StoreFrom(bus, h, op, w)
                                     case AtomicKind => AtomicOp(bus, h, op, w, at)
                                     case CsrKind => CsrOp(h, op, w)
                                     case SystemKind => SystemOp(h, op)
  {
  }

  // ---------------------------------------------------------------- one step

  /** Taking a trap neither reads nor writes the pc history. */
  lemma TrapKeepsHistory<M>(h: Hart<M>, history: seq<Word>, cause: Word, tval: Word)
    requires h.Shaped() && |history| == 8
    ensures TakeTrap(h.(pcHistory := history), cause, tval) == TakeTrap(h, cause, tval).(pcHistory := history)
    ensures TakeTrap(h, cause, tval).instructionCounter == h.instructionCounter
  {
    hide MachineTrapStatus, SupervisorTrapStatus, Bit, Sub32;
  }

  /** After the handler: a pending exception is taken, the pc is recorded, and the counter
      and the two counter CSRs advance. */
  function Finish<M>(h: Hart<M>): (h': Hart<M>)
    requires h.Shaped()
    ensures h'.Shaped()
  {
    var t := if h.hasPendingException then TakeTrap(h, h.pendingException, h.pendingTval) else h;
    var count := Add32(h.instructionCounter, 1);
    t.(pcHistory := h.pcHistory[1..] + [t.pc], instructionCounter := count)
     .SetCsr(CSR_TIME, count).SetCsr(CSR_CYCLE, count)
  }

  /** The rest of the step once the word is fetched. */
  function Execute<M>(bus: Bus<M>, h: Hart<M>, w: Word, at: Word): (h': Hart<M>)
    requires h.Shaped()
    ensures h'.Shaped()
  {
    match FirstMatch(w, EMULATOR_CHAIN)
    case Unknown => h.(life := Exited(EXIT_ILLEGAL_INSTRUCTION))
    case Selected(op) =>
      var h1 := Handle(bus, h, op, w, at);
      if h1.life != Live then h1 else Finish(h1)
  }

  /** The instruction word that a fetch finds, if it succeeds. */
  function FetchAt<M>(bus: Bus<M>, mem: M, a: Access, address: Word): Fetch<M> {
    match bus.target(mem, a, address)
    case Target(m, at) => Fetched(m, bus.word(m, at))
    case TargetFault(m) => FetchFault(m)
    case TargetUnmapped(m) => FetchUnmapped(m)
    case TargetNull(m) => FetchNull(m)
  }

  /** The fetch of the step from h. */
  function FetchOf<M>(bus: Bus<M>, h: Hart<M>): Fetch<M>
    requires h.Shaped()
  {
    FetchAt(bus, h.mem, h.Access(), h.pc)
  }

  /** The pointer through which the handler of that step reads its instruction. */
  function PointerOf<M>(bus: Bus<M>, h: Hart<M>): Word
    requires h.Shaped()
  {
    match bus.target(h.mem, h.Access(), h.pc)
    case Target(_, at) => at
    case _ => 0
  }

  /** One call of emulate_op. */
  function Step<M>(bus: Bus<M>, h: Hart<M>): (h': Hart<M>)
    requires h.Shaped()
    ensures h'.Shaped()
  {
    var next := h.(pc := Add32(h.pc, 4));
    match FetchOf(bus, h)
    case FetchFault(m) =>
      TakeTrap(Fault(next, m, CAUSE_FETCH_PAGE_FAULT, h.pc), CAUSE_FETCH_PAGE_FAULT, h.pc)
    case FetchUnmapped(m) =>
      TakeTrap(next.(mem := m), h.pendingException, h.pendingTval)
    case FetchNull(m) =>
      next.(mem := m, life := Crashed)
    case Fetched(m, w) =>
      Execute(bus, next.(mem := m), w, PointerOf(bus, h))
  }
}
