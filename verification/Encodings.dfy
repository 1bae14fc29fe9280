/** Words and instructions, both ways: which words encode an instruction of the RISC-V
    Unprivileged ISA, and what one call of emulate_op does on each of them. */
module Encodings {
  import opened Words
  import opened Memory
  import opened Decode
  import opened Opcodes
  import opened Operands
  import opened Isa
  import opened HartSpec
  import opened Runs
  import opened Conformance

  predicate IsShift(op: Op) {
    op == SLLI || op == SRLI || op == SRAI
  }

  /** The instructions of Instr. */
  predicate IsInstr(op: Op) {
    KindOf(op) in {RegisterKind, ImmediateKind, UpperKind, BranchKind, JumpKind}
  }

  /** The instruction that a word of op is. */
  function InstrOf(w: Word, op: Op): Instr {
    match KindOf(op)
    case RegisterKind => Register(op, Rd(w), Rs1(w), Rs2(w))
    case ImmediateKind =>
      if IsShift(op) then ShiftImmediate(op, Rd(w), Rs1(w), Rs2(w)) else Immediate(op, Rd(w), Rs1(w), GetIImm(w))
    case UpperKind => UpperImmediate(op, Rd(w), w / 0x1000)
    case BranchKind => Branch(op, Rs1(w), Rs2(w), GetBImm(w))
    case _ => if op == JAL then JumpAndLink(Rd(w), GetJImm(w)) else JumpRegister(Rd(w), Rs1(w), GetIImm(w))
  }

  // ---------------------------------------------------------------- fields of the listing

  lemma RegisterListed(w: Word, op: Op)
    requires KindOf(op) == RegisterKind && IsA(w, op)
    ensures Opcode(w) == 0x33 && Funct3(w) == Listed3(op) && Funct7(w) == Listed7(op)
  {
    RegisterFields(op);
    hide Listed3, Listed7, PatternOf, Opcode, Funct3, Funct7;
  }

  lemma ShiftListed(w: Word, op: Op)
    requires IsShift(op) && IsA(w, op)
    ensures Opcode(w) == 0x13 && Funct3(w) == Listed3(op) && Funct7(w) == Listed7(op) + w / 0x200_0000 % 2
  {
    ShiftFields(op);
    hide Listed3, Listed7, PatternOf, Opcode, Funct3;
    DivDiv(w, 0x200_0000, 2);
  }

  lemma ImmediateListed(w: Word, op: Op)
    requires KindOf(op) == ImmediateKind && !IsShift(op) && IsA(w, op)
    ensures op == ADDI || op == SLTI || op == SLTIU || op == XORI || op == ORI || op == ANDI
    ensures Opcode(w) == 0x13 && Funct3(w) == Listed3(op)
  {
    ImmediateOps(op);
    ImmediateFields(op);
    hide Listed3, PatternOf, Opcode, Funct3, KindOf;
  }

  lemma ImmediateOps(op: Op)
    requires KindOf(op) == ImmediateKind
    ensures IsShift(op) || op == ADDI || op == SLTI || op == SLTIU || op == XORI || op == ORI || op == ANDI
  {
  }

  lemma BranchListed(w: Word, op: Op)
    requires KindOf(op) == BranchKind && IsA(w, op)
    ensures Opcode(w) == 0x63 && Funct3(w) == Listed3(op)
  {
    BranchFields(op);
    hide Listed3, PatternOf, Opcode, Funct3;
  }

  lemma OtherListed(w: Word)
    ensures IsA(w, LUI) ==> Opcode(w) == 0x37
    ensures IsA(w, AUIPC) ==> Opcode(w) == 0x17
    ensures IsA(w, JAL) ==> Opcode(w) == 0x6F
    ensures IsA(w, JALR) ==> Opcode(w) == 0x67 && Funct3(w) == 0
  {
    OtherPatterns();
    hide PatternOf, Opcode, Funct3;
  }

  lemma OtherOps(op: Op)
    ensures KindOf(op) == UpperKind <==> op == LUI || op == AUIPC
    ensures KindOf(op) == JumpKind <==> op == JAL || op == JALR
  {
  }

  // ---------------------------------------------------------------- immediates in their ranges

  lemma ImmediatesFit(w: Word)
    ensures -0x800 <= GetIImm(w) < 0x800
    ensures -0x1000 <= GetBImm(w) < 0x1000 && GetBImm(w) % 2 == 0
    ensures -0x10_0000 <= GetJImm(w) < 0x10_0000 && GetJImm(w) % 2 == 0
  {
    hide GetIImm, GetBImm, GetJImm;
    IFits(w);
    BFits(w);
    JFits(w);
  }

  lemma IFits(w: Word)
    ensures -0x800 <= GetIImm(w) < 0x800
  {
    hide GetIImm;
    IImmOfGroups(w);
  }

  lemma BFits(w: Word)
    ensures -0x1000 <= GetBImm(w) < 0x1000 && GetBImm(w) % 2 == 0
  {
    hide GetBImm;
    BImmOfGroups(w);
  }

  lemma JFits(w: Word)
    ensures -0x10_0000 <= GetJImm(w) < 0x10_0000 && GetJImm(w) % 2 == 0
  {
    hide GetJImm;
    JImmOfGroups(w);
  }

  // ---------------------------------------------------------------- words to instructions

  /** A word of an instruction is the encoding of the instruction that the decoders find in it;
      a shift by an immediate only if bit 25 is clear, which the emulator does not ask for. */
  lemma EncodeInstr(w: Word, op: Op)
    requires IsInstr(op) && IsA(w, op) && (IsShift(op) ==> w / 0x200_0000 % 2 == 0)
    ensures Encodable(InstrOf(w, op)) && OpOf(InstrOf(w, op)) == op && Encode(InstrOf(w, op)) == w
  {
    hide IsA, Listed3, Listed7, Join, EncodeI, EncodeB, EncodeU, EncodeJ, GetIImm, GetBImm, GetJImm, Opcode, Funct3, Funct7;
    hide KindOf, Rd, Rs1, Rs2;
    if KindOf(op) == RegisterKind {
      RegisterListed(w, op);
      GroupsJoin(w);
    } else if KindOf(op) == ImmediateKind {
      EncodeImmediate(w, op);
    } else if KindOf(op) == BranchKind {
      BranchListed(w, op);
      EncodeDecoded(w);
      ImmediatesFit(w);
    } else if KindOf(op) == UpperKind {
      EncodeUpper(w, op);
    } else {
      EncodeJump(w, op);
    }
  }

  lemma EncodeUpper(w: Word, op: Op)
    requires KindOf(op) == UpperKind && IsA(w, op)
    ensures Encodable(InstrOf(w, op)) && OpOf(InstrOf(w, op)) == op && Encode(InstrOf(w, op)) == w
  {
    hide IsA, KindOf, EncodeU, Opcode, Rd, InstrOf;
    UpperInstr(w, op);
    EncodeDecoded(w);
    OtherListed(w);
    OtherOps(op);
  }

  lemma EncodeJump(w: Word, op: Op)
    requires KindOf(op) == JumpKind && IsA(w, op)
    ensures Encodable(InstrOf(w, op)) && OpOf(InstrOf(w, op)) == op && Encode(InstrOf(w, op)) == w
  {
    hide IsA, KindOf, InstrOf, Encodable, Encode;
    JumpInstr(w, op);
    OtherOps(op);
    if op == JAL {
      EncodeJal(w);
    } else {
      EncodeJalr(w);
    }
  }

  lemma EncodeJal(w: Word)
    requires IsA(w, JAL)
    ensures var i := JumpAndLink(Rd(w), GetJImm(w)); Encodable(i) && Encode(i) == w
  {
    hide IsA, EncodeJ, Opcode, Rd, GetJImm;
    JFits(w);
    OtherListed(w);
    EncodeDecoded(w);
  }

  lemma EncodeJalr(w: Word)
    requires IsA(w, JALR)
    ensures var i := JumpRegister(Rd(w), Rs1(w), GetIImm(w)); Encodable(i) && Encode(i) == w
  {
    hide IsA, EncodeI, Opcode, Funct3, Rd, Rs1, GetIImm;
    IFits(w);
    OtherListed(w);
    EncodeDecoded(w);
  }

  lemma UpperInstr(w: Word, op: Op)
    requires KindOf(op) == UpperKind
    ensures InstrOf(w, op) == UpperImmediate(op, Rd(w), w / 0x1000)
  {
    hide KindOf, Rd;
  }

  lemma JumpInstr(w: Word, op: Op)
    requires KindOf(op) == JumpKind
    ensures InstrOf(w, op) ==
            if op == JAL then JumpAndLink(Rd(w), GetJImm(w)) else JumpRegister(Rd(w), Rs1(w), GetIImm(w))
  {
    hide KindOf, Rd, Rs1, GetIImm, GetJImm;
  }

  lemma EncodeImmediate(w: Word, op: Op)
    requires KindOf(op) == ImmediateKind && IsA(w, op) && (IsShift(op) ==> w / 0x200_0000 % 2 == 0)
    ensures Encodable(InstrOf(w, op)) && OpOf(InstrOf(w, op)) == op && Encode(InstrOf(w, op)) == w
  {
    hide IsA, Listed3, Listed7, Join, EncodeI, EncodeB, EncodeU, EncodeJ, GetIImm, GetBImm, GetJImm, Opcode, Funct3, Funct7;
    hide KindOf, Rd, Rs1, Rs2;
    if IsShift(op) {
      ShiftListed(w, op);
      GroupsJoin(w);
    } else {
      ImmediateListed(w, op);
      EncodeDecoded(w);
      ImmediatesFit(w);
    }
  }

  /** The other way round: decoding the encoding of an instruction gives it back. */
  lemma InstrOfEncode(i: Instr)
    requires Encodable(i)
    ensures Encode(i) < 0x1_0000_0000 && IsInstr(OpOf(i)) && InstrOf(Encode(i), OpOf(i)) == i
  {
    hide Listed3, Listed7, Join, EncodeI, EncodeB, EncodeU, EncodeJ, GetIImm, GetBImm, GetJImm, KindOf, Rd, Rs1, Rs2, IsA;
    EncodingIsA(i);
    InstrOps(i);
    match i {
      case Register(op, rd, rs1, rs2) =>
        RegisterFields(op);
        DecodeR(0x33, rd, Listed3(op), rs1, rs2, Listed7(op));
      case Immediate(op, rd, rs1, imm) =>
        ImmediateFields(op);
        DecodeI(0x13, rd, Listed3(op), rs1, imm);
      case ShiftImmediate(op, rd, rs1, shamt) =>
        ShiftFields(op);
        DecodeR(0x13, rd, Listed3(op), rs1, shamt, Listed7(op));
      case UpperImmediate(op, rd, imm20) =>
        DecodeU(if op == LUI then 0x37 else 0x17, rd, imm20);
      case Branch(op, rs1, rs2, offset) =>
        BranchFields(op);
        DecodeB(0x63, Listed3(op), rs1, rs2, offset);
      case JumpAndLink(rd, offset) =>
        DecodeJ(0x6F, rd, offset);
      case JumpRegister(rd, rs1, imm) =>
        DecodeI(0x67, rd, 0, rs1, imm);
    }
  }

  /** The kinds that the decoder tells instructions by. */
  lemma InstrOps(i: Instr)
    requires Encodable(i)
    ensures KindOf(OpOf(i)) ==
            match i
            case Register(_, _, _, _) => RegisterKind
            case Immediate(_, _, _, _) => ImmediateKind
            case ShiftImmediate(_, _, _, _) => ImmediateKind
            case UpperImmediate(_, _, _) => UpperKind
            case Branch(_, _, _, _) => BranchKind
            case _ => JumpKind
    ensures IsShift(OpOf(i)) <==> i.ShiftImmediate?
  {
    hide KindOf;
    KindsOf();
    match i {
      case Register(op, _, _, _) => NoShift(op);
      case Branch(op, _, _, _) => NoShift(op);
      case _ =>
    }
  }

  lemma KindsOf()
    ensures KindOf(ADDI) == KindOf(SLTI) == KindOf(SLTIU) == KindOf(XORI) == KindOf(ORI) == KindOf(ANDI) == ImmediateKind
    ensures KindOf(SLLI) == KindOf(SRLI) == KindOf(SRAI) == ImmediateKind
    ensures KindOf(LUI) == KindOf(AUIPC) == UpperKind && KindOf(JAL) == KindOf(JALR) == JumpKind
  {
    hide KindOf;
    ArithmeticKinds();
    ShiftKinds();
    OtherOps(LUI);
    OtherOps(AUIPC);
    OtherOps(JAL);
    OtherOps(JALR);
  }

  lemma ArithmeticKinds()
    ensures KindOf(ADDI) == ImmediateKind && KindOf(SLTI) == ImmediateKind && KindOf(SLTIU) == ImmediateKind
    ensures KindOf(XORI) == ImmediateKind && KindOf(ORI) == ImmediateKind && KindOf(ANDI) == ImmediateKind
  {
  }

  lemma ShiftKinds()
    ensures KindOf(SLLI) == ImmediateKind && KindOf(SRLI) == ImmediateKind && KindOf(SRAI) == ImmediateKind
  {
  }

  lemma NoShift(op: Op)
    requires KindOf(op) == RegisterKind || KindOf(op) == BranchKind
    ensures !IsShift(op)
  {
    hide KindOf;
    KindsOf();
  }

  /** Exactly the words that the emulator takes for an instruction are its encodings, but for
      shifts by an immediate with bit 25 set. */
  lemma EncodedIff(w: Word, op: Op)
    requires IsInstr(op)
    ensures (exists i :: Encodable(i) && OpOf(i) == op && Encode(i) == w)
            <==> IsA(w, op) && (IsShift(op) ==> w / 0x200_0000 % 2 == 0)
  {
    hide Encode, Encodable, InstrOf, IsA, KindOf;
    if IsA(w, op) && (IsShift(op) ==> w / 0x200_0000 % 2 == 0) {
      EncodeInstr(w, op);
    }
    forall i | Encodable(i) && OpOf(i) == op && Encode(i) == w
      ensures IsA(w, op) && (IsShift(op) ==> w / 0x200_0000 % 2 == 0)
    {
      EncodingIsA(i);
      InstrOps(i);
      if IsShift(op) {
        ShiftBit(i);
      }
    }
  }

  lemma ShiftBit(i: Instr)
    requires Encodable(i) && i.ShiftImmediate?
    ensures Encode(i) / 0x200_0000 % 2 == 0
  {
    hide Listed3, Listed7, Join, KindOf, PatternOf;
    ShiftFields(i.op);
    DecodeR(0x13, i.rd, Listed3(i.op), i.rs1, i.shamt, Listed7(i.op));
  }

  /** The word 0x02001013, which encodes nothing, is taken for slli zero, zero, 0. */
  lemma ShiftWithBitSet()
    ensures FirstMatch(0x0200_1013, EMULATOR_CHAIN) == Selected(SLLI)
    ensures !exists i :: Encodable(i) && OpOf(i) == SLLI && Encode(i) == 0x0200_1013
  {
    hide FirstMatch, Encode, Encodable, KindOf;
    KindsOf();
    ShiftRow();
    EmulatorSelects(0x0200_1013, SLLI);
    EncodedIff(0x0200_1013, SLLI);
  }

  lemma ShiftRow()
    ensures PatternOf(SLLI) == ByFunct6(1, 0)
  {
  }

  // ---------------------------------------------------------------- every such word, executed

  /** What emulate_op does on any word that encodes an instruction: StepConforms, from the word. */
  lemma WordConforms<M>(bus: Bus<M>, h: Hart<M>, m: M, w: Word, op: Op)
    requires Boundary(h) && h.life == Live && FetchOf(bus, h) == Fetched(m, w)
    requires IsInstr(op) && IsA(w, op) && (IsShift(op) ==> w / 0x200_0000 % 2 == 0)
    ensures Encodable(InstrOf(w, op))
    ensures var h', i := Step(bus, h), InstrOf(w, op);
            && Boundary(h') && h'.life == Live && h'.mem == m && h'.privilege == h.privilege
            && (Does(i, h.pc, h.x, h'.pc, h'.x) <==> Agrees(i, h.pc, h.x))
  {
    hide Encode, Encodable, InstrOf, IsA, KindOf, Step, Does, Agrees, Completes, EvenTransfer, FetchOf;
    EncodeInstr(w, op);
    StepConforms(bus, h, InstrOf(w, op), m);
  }
}
