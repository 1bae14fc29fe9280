/** The instructions of chapter 2 and chapter 7 of the RISC-V Unprivileged ISA (version
    20191213), with their meaning over the integers, and the proof of when exactly one call
    of emulate_op on the encoding of an instruction does what the ISA says. */
module Conformance {
  import opened Words
  import opened Options
  import opened Memory
  import opened Decode
  import opened Opcodes
  import opened MulDiv
  import opened Operands
  import opened Isa
  import opened HartSpec
  import opened Runs

  /** Register-register, register-immediate, upper-immediate, branch and jump instructions.
      Op gives the mnemonic. */
  datatype Instr =
    | Register(op: Op, rd: Word, rs1: Word, rs2: Word)
    | Immediate(op: Op, rd: Word, rs1: Word, imm: int)
    | ShiftImmediate(op: Op, rd: Word, rs1: Word, shamt: Word)
    | UpperImmediate(op: Op, rd: Word, imm20: Word)
    | Branch(op: Op, rs1: Word, rs2: Word, offset: int)
    | JumpAndLink(rd: Word, offset: int)
    | JumpRegister(rd: Word, rs1: Word, imm: int)

  /** The instructions that have an encoding. */
  predicate Encodable(i: Instr) {
    match i
    case Register(op, rd, rs1, rs2) => KindOf(op) == RegisterKind && rd < 32 && rs1 < 32 && rs2 < 32
    case Immediate(op, rd, rs1, imm) =>
      && (op == ADDI || op == SLTI || op == SLTIU || op == XORI || op == ORI || op == ANDI)
      && rd < 32 && rs1 < 32 && -0x800 <= imm < 0x800
    case ShiftImmediate(op, rd, rs1, shamt) =>
      (op == SLLI || op == SRLI || op == SRAI) && rd < 32 && rs1 < 32 && shamt < 32
    case UpperImmediate(op, rd, imm20) => (op == LUI || op == AUIPC) && rd < 32 && imm20 < 0x10_0000
    case Branch(op, rs1, rs2, offset) =>
      KindOf(op) == BranchKind && rs1 < 32 && rs2 < 32 && -0x1000 <= offset < 0x1000 && offset % 2 == 0
    case JumpAndLink(rd, offset) => rd < 32 && -0x10_0000 <= offset < 0x10_0000 && offset % 2 == 0
    case JumpRegister(rd, rs1, imm) => rd < 32 && rs1 < 32 && -0x800 <= imm < 0x800
  }

  function OpOf(i: Instr): Op {
    match i
    case JumpAndLink(_, _) => JAL
    case JumpRegister(_, _, _) => JALR
    case _ => i.op
  }

  /** funct3 and funct7 of the listing (chapter 24). */
  function Listed3(op: Op): nat {
    match PatternOf(op)
    case ByFunct3(_, funct3) => funct3
    case ByFunct7(funct3, _) => funct3
    case ByFunct6(funct3, _) => funct3
    case _ => 0
  }

  function Listed7(op: Op): nat {
    match PatternOf(op)
    case ByFunct7(_, funct7) => funct7
    case ByFunct6(_, funct6) => funct6 * 2
    case _ => 0
  }

  function Encode(i: Instr): nat {
    match i
    case Register(op, rd, rs1, rs2) => Join(0x33, rd, Listed3(op), rs1, rs2, Listed7(op))
    case Immediate(op, rd, rs1, imm) => EncodeI(0x13, rd, Listed3(op), rs1, imm)
    case ShiftImmediate(op, rd, rs1, shamt) => Join(0x13, rd, Listed3(op), rs1, shamt, Listed7(op))
    case UpperImmediate(op, rd, imm20) => EncodeU(if op == LUI then 0x37 else 0x17, rd, imm20)
    case Branch(op, rs1, rs2, offset) => EncodeB(0x63, Listed3(op), rs1, rs2, offset)
    case JumpAndLink(rd, offset) => EncodeJ(0x6F, rd, offset)
    case JumpRegister(rd, rs1, imm) => EncodeI(0x67, rd, 0, rs1, imm)
  }

  // ---------------------------------------------------------------- meaning

  /** What the ISA says of the result r of a computation on the operands a and b. */
  ghost predicate Result(op: Op, a: Word, b: Word, r: Word) {
    match op
    case ADD => r == (a + b) % 0x1_0000_0000
    case SUB => r == (a - b) % 0x1_0000_0000
    case SLL => r == a * Pow2(b % 32) % 0x1_0000_0000
    case SLT => r == if Signed(a) < Signed(b) then 1 else 0
    case SLTU => r == if a < b then 1 else 0
    case XOR => forall i: nat :: i < 32 ==> Bit(r, i) == (Bit(a, i) != Bit(b, i))
    case SRL => r == a / Pow2(b % 32)
    case SRA => Signed(r) == Signed(a) / Pow2(b % 32)
    case OR => forall i: nat :: i < 32 ==> Bit(r, i) == (Bit(a, i) || Bit(b, i))
    case AND => forall i: nat :: i < 32 ==> Bit(r, i) == (Bit(a, i) && Bit(b, i))
    case MUL => r == a * b % 0x1_0000_0000
    case MULH => Signed(r) == Signed(a) * Signed(b) / 0x1_0000_0000
    case MULHSU => Signed(r) == Signed(a) * b / 0x1_0000_0000
    case MULHU => r == a * b / 0x1_0000_0000
    case DIV =>
      if b == 0 then r == 0xFFFF_FFFF
      else if Signed(a) == -0x8000_0000 && Signed(b) == -1 then r == a
      else exists rem :: Divides(Signed(a), Signed(b), Signed(r), rem)
    case DIVU => if b == 0 then r == 0xFFFF_FFFF else r == a / b
    case REM =>
      if b == 0 then r == a
      else if Signed(a) == -0x8000_0000 && Signed(b) == -1 then r == 0
      else exists q :: Divides(Signed(a), Signed(b), q, Signed(r))
    case REMU => if b == 0 then r == a else r == a % b
    case _ => false
  }

  /** The branch condition. */
  predicate Holds(op: Op, a: Word, b: Word) {
    match op
    case BEQ => a == b
    case BNE => a != b
    case BLT => Signed(a) < Signed(b)
    case BGE => Signed(b) <= Signed(a)
    case BLTU => a < b
    case BGEU => b <= a
    case _ => false
  }

  /** Where an instruction at pc transfers control to, if it does: a taken branch or a jump.
      JALR clears bit 0 of the sum. */
  function Transfer(i: Instr, pc: Word, x: seq<Word>): Option<Word>
    requires Encodable(i) && |x| == 32
  {
    match i
    case Branch(op, rs1, rs2, offset) =>
      if Holds(op, x[rs1], x[rs2]) then Some((pc + offset) % 0x1_0000_0000) else None
    case JumpAndLink(_, offset) => Some((pc + offset) % 0x1_0000_0000)
    case JumpRegister(_, rs1, imm) =>
      var target := (x[rs1] + imm) % 0x1_0000_0000;
      Some(target - target % 2)
    case _ => None
  }

  /** Sections 2.2 and 2.5: without the C extension, which misa leaves out, instructions are
      four-byte aligned, and a transfer to any other target raises an exception. */
  predicate Misaligned(i: Instr, pc: Word, x: seq<Word>)
    requires Encodable(i) && |x| == 32
  {
    Transfer(i, pc, x).Some? && Transfer(i, pc, x).value % 4 != 0
  }

  /** The meaning of an instruction at pc: the registers change from x to x' and the pc to
      pc'.  A transfer to a misaligned target is reported on the branch or jump itself: no
      register changes, and the pc becomes a trap vector, which is four-byte aligned. */
  ghost predicate Does(i: Instr, pc: Word, x: seq<Word>, pc': Word, x': seq<Word>)
    requires Encodable(i) && |x| == 32 && |x'| == 32
  {
    if Misaligned(i, pc, x) then x' == x && pc' % 4 == 0 else Completes(i, pc, x, pc', x')
  }

  /** The meaning of an instruction that raises no exception.  Only rd may change, and never
      x0. */
  ghost predicate Completes(i: Instr, pc: Word, x: seq<Word>, pc': Word, x': seq<Word>)
    requires Encodable(i) && |x| == 32 && |x'| == 32
  {
    var next := (pc + 4) % 0x1_0000_0000;
    match i
    case Register(op, rd, rs1, rs2) =>
      pc' == next && OnlyChanges(x, x', rd) && (rd != 0 ==> Result(op, x[rs1], x[rs2], x'[rd]))
    case Immediate(op, rd, rs1, imm) =>
      pc' == next && OnlyChanges(x, x', rd)
      && (rd != 0 ==> Result(ImmediateTwin(op), x[rs1], imm % 0x1_0000_0000, x'[rd]))
    case ShiftImmediate(op, rd, rs1, shamt) =>
      pc' == next && OnlyChanges(x, x', rd) && (rd != 0 ==> Result(ImmediateTwin(op), x[rs1], shamt, x'[rd]))
    case UpperImmediate(op, rd, imm20) =>
      pc' == next && OnlyChanges(x, x', rd)
      && (rd != 0 ==> x'[rd] == (imm20 * 0x1000 + (if op == AUIPC then pc else 0)) % 0x1_0000_0000)
    case Branch(op, rs1, rs2, offset) =>
      x' == x && pc' == if Holds(op, x[rs1], x[rs2]) then (pc + offset) % 0x1_0000_0000 else next
    case JumpAndLink(rd, offset) =>
      pc' == (pc + offset) % 0x1_0000_0000 && OnlyChanges(x, x', rd) && (rd != 0 ==> x'[rd] == next)
    case JumpRegister(rd, rs1, imm) =>
      var target := (x[rs1] + imm) % 0x1_0000_0000;
      pc' == target - target % 2 && OnlyChanges(x, x', rd) && (rd != 0 ==> x'[rd] == next)
  }

  ghost predicate OnlyChanges(x: seq<Word>, x': seq<Word>, rd: Word)
    requires |x| == 32 && |x'| == 32
  {
    x'[0] == x[0] && forall r :: 0 <= r < 32 && r != rd ==> x'[r] == x[r]
  }

  // ---------------------------------------------------------------- results

  lemma ShiftResults(a: Word, s: nat)
    requires s < 32
    ensures Shl32(a, s) == a * Pow2(s) % 0x1_0000_0000
    ensures Shr32(a, s) == a / Pow2(s)
    ensures Signed(Sar32(a, s)) == Signed(a) / Pow2(s)
  {
    ScaleValue(a, s);
    HighLow(a, s);
    if a >= 0x8000_0000 {
      ArithmeticShift(a, s);
    } else {
      ShrBelowHalf(a, s);
    }
  }

  lemma ShrBelowHalf(a: Word, s: nat)
    requires a < 0x8000_0000
    ensures Signed(Sar32(a, s)) == Signed(a) / Pow2(s)
  {
    HighLow(a, s);
  }

  /** Complement, logical shift, complement: floor division of a negative number. */
  lemma ArithmeticShift(a: Word, s: nat)
    requires a >= 0x8000_0000
    ensures Signed(Sar32(a, s)) == Signed(a) / Pow2(s)
  {
    hide High, Low;
    HighLow(Not32(a), s);
    var m: int, q: int, r: int := Not32(a), High(Not32(a), s), Low(Not32(a), s);
    assert Signed(a) == 0 - m - 1 == Pow2(s) * (0 - q - 1) + (Pow2(s) - 1 - r) by {
      assert Pow2(s) * (0 - q - 1) == 0 - Pow2(s) * q - Pow2(s);
    }
    DivUnique(Signed(a), Pow2(s), 0 - q - 1, Pow2(s) - 1 - r);
  }

  lemma BitwiseResults(a: Word, b: Word)
    ensures Result(XOR, a, b, Xor32(a, b)) && Result(OR, a, b, Or32(a, b)) && Result(AND, a, b, And32(a, b))
  {
    forall i: nat | i < 32
      ensures Bit(Xor32(a, b), i) == (Bit(a, i) != Bit(b, i))
      ensures Bit(Or32(a, b), i) == (Bit(a, i) || Bit(b, i))
      ensures Bit(And32(a, b), i) == (Bit(a, i) && Bit(b, i))
    {
      XorBit(a, b, i);
      OrBit(a, b, i);
      AndBit(a, b, i);
    }
  }

  lemma UpperHalf(n: int, high: int, low: Word)
    requires high * 0x1_0000_0000 + low == n
    ensures n / 0x1_0000_0000 == high
  {
  }

  lemma ProductResults(a: Word, b: Word)
    ensures Result(MUL, a, b, Mul32(a, b)) && Result(MULH, a, b, Mulh32(a, b))
    ensures Result(MULHSU, a, b, Mulhsu32(a, b)) && Result(MULHU, a, b, Mulhu32(a, b))
  {
    hide Mul32, Mulh32, Mulhsu32, Mulhu32, Signed;
    LowWord(a, b);
    SignedProduct(a, b);
    UpperHalf(Signed(a) * Signed(b), Signed(Mulh32(a, b)), Mul32(a, b));
    MixedProduct(a, b);
    UpperHalf(Signed(a) * b, Signed(Mulhsu32(a, b)), Mul32(a, b));
    UnsignedProduct(a, b);
    UpperHalf(a * b, Mulhu32(a, b), Mul32(a, b));
  }

  lemma SignedQuotientResults(a: Word, b: Word)
    ensures Result(DIV, a, b, Div32(a, b)) && Result(REM, a, b, Rem32(a, b))
  {
    hide Div32, Rem32, Signed, Divides;
    SignedDivision(a, b);
    if b != 0 && !(Signed(a) == -0x8000_0000 && Signed(b) == -1) {
      assert Divides(Signed(a), Signed(b), Signed(Div32(a, b)), Signed(Rem32(a, b)));
    }
  }

  lemma UnsignedQuotientResults(a: Word, b: Word)
    ensures Result(DIVU, a, b, Divu32(a, b)) && Result(REMU, a, b, Remu32(a, b))
  {
  }

  /** Every register-register instruction computes what the ISA says, for all operands. */
  lemma RegisterResults(op: Op, a: Word, b: Word)
    requires KindOf(op) == RegisterKind
    ensures Result(op, a, b, RegisterResult(op, a, b))
  {
    hide Result, RegisterResult;
    match op {
      case SLL | SRL | SRA | XOR | OR | AND => DigitwiseResults(op, a, b);
      case MUL | MULH | MULHSU | MULHU => HalfProductResults(op, a, b);
      case DIV | REM | DIVU | REMU => QuotientResults(op, a, b);
      case _ => SumResults(op, a, b);
    }
  }

  lemma SumResults(op: Op, a: Word, b: Word)
    requires op == ADD || op == SUB || op == SLT || op == SLTU
    ensures Result(op, a, b, RegisterResult(op, a, b))
  {
  }

  lemma DigitwiseResults(op: Op, a: Word, b: Word)
    requires op == SLL || op == SRL || op == SRA || op == XOR || op == OR || op == AND
    ensures Result(op, a, b, RegisterResult(op, a, b))
  {
    hide Shl32, Shr32, Sar32, Xor32, Or32, And32, Signed, Bit;
    match op {
      case SLL | SRL | SRA => ShiftResults(a, b % 32);
      case XOR | OR | AND => BitwiseResults(a, b);
    }
  }

  lemma HalfProductResults(op: Op, a: Word, b: Word)
    requires op == MUL || op == MULH || op == MULHSU || op == MULHU
    ensures Result(op, a, b, RegisterResult(op, a, b))
  {
    hide Mul32, Mulh32, Mulhsu32, Mulhu32, Signed;
    ProductResults(a, b);
  }

  lemma QuotientResults(op: Op, a: Word, b: Word)
    requires op == DIV || op == REM || op == DIVU || op == REMU
    ensures Result(op, a, b, RegisterResult(op, a, b))
  {
    hide Div32, Divu32, Rem32, Remu32, Signed, Divides;
    match op {
      case DIV | REM => SignedQuotientResults(a, b);
      case DIVU | REMU => UnsignedQuotientResults(a, b);
    }
  }

  // ---------------------------------------------------------------- encodings are decoded

  lemma RegisterFields(op: Op)
    requires KindOf(op) == RegisterKind
    ensures Listed3(op) < 8 && Listed7(op) < 128
    ensures PatternOf(op) == ByFunct7(Listed3(op), Listed7(op))
  {
  }

  lemma ShiftFields(op: Op)
    requires op == SLLI || op == SRLI || op == SRAI
    ensures Listed3(op) < 8 && Listed7(op) < 128 && Listed7(op) % 2 == 0
    ensures PatternOf(op) == ByFunct6(Listed3(op), Listed7(op) / 2)
  {
  }

  lemma ImmediateFields(op: Op)
    requires op == ADDI || op == SLTI || op == SLTIU || op == XORI || op == ORI || op == ANDI
    ensures Listed3(op) < 8 && PatternOf(op) == ByFunct3(0x13, Listed3(op))
  {
  }

  lemma BranchFields(op: Op)
    requires KindOf(op) == BranchKind
    ensures Listed3(op) < 8 && PatternOf(op) == ByFunct3(0x63, Listed3(op))
  {
  }

  /** The encoding of an instruction is a word of that instruction. */
  lemma EncodingIsA(i: Instr)
    requires Encodable(i)
    ensures Encode(i) < 0x1_0000_0000 && IsA(Encode(i), OpOf(i))
  {
    hide Listed3, Listed7, PatternOf, Opcode, Funct3, Funct7, GetIImm, GetBImm, GetJImm, EncodeI, EncodeB, EncodeU, EncodeJ, Join;
    match i {
      case Register(op, rd, rs1, rs2) =>
        RegisterFields(op);
        DecodeR(0x33, rd, Listed3(op), rs1, rs2, Listed7(op));
      case Immediate(op, rd, rs1, imm) =>
        ImmediateFields(op);
        DecodeI(0x13, rd, Listed3(op), rs1, imm);
      case ShiftImmediate(op, rd, rs1, shamt) =>
        ShiftFields(op);
        DecodeR(0x13, rd, Listed3(op), rs1, shamt, Listed7(op));
        HalfOfFunct7(Encode(i), Listed7(op));
      case UpperImmediate(op, rd, imm20) =>
        DecodeU(if op == LUI then 0x37 else 0x17, rd, imm20);
        OtherPatterns();
      case Branch(op, rs1, rs2, offset) =>
        BranchFields(op);
        DecodeB(0x63, Listed3(op), rs1, rs2, offset);
      case JumpAndLink(rd, offset) =>
        DecodeJ(0x6F, rd, offset);
        OtherPatterns();
      case JumpRegister(rd, rs1, imm) =>
        DecodeI(0x67, rd, 0, rs1, imm);
        OtherPatterns();
    }
  }

  lemma OtherPatterns()
    ensures PatternOf(LUI) == ByOpcode(0x37) && PatternOf(AUIPC) == ByOpcode(0x17) && PatternOf(JAL) == ByOpcode(0x6F)
    ensures PatternOf(JALR) == ByFunct3(0x67, 0)
  {
  }

  lemma HalfOfFunct7(w: Word, funct7: nat)
    requires Funct7(w) == funct7 && funct7 % 2 == 0
    ensures Funct6(w) == funct7 / 2
  {
    DivDiv(w, 0x200_0000, 2);
  }

  // ---------------------------------------------------------------- one step

  lemma NextPc(pc: Word)
    ensures Add32(pc, 4) == (pc + 4) % 0x1_0000_0000
  {
  }

  /** The pc of the handler is 4 ahead, which the offset takes back. */
  lemma PlusFourMinusFour(pc: Word, offset: int)
    ensures ToWord(Add32(pc, 4) + offset - 4) == (pc + offset) % 0x1_0000_0000
  {
  }

  lemma ComputesInto<M>(h: Hart<M>, rd: Word, value: Word)
    requires h.Shaped() && rd < 32
    ensures OnlyChanges(h.x, h.SetReg(rd, value).x, rd) && (rd != 0 ==> h.SetReg(rd, value).x[rd] == value)
    ensures var h' := h.SetReg(rd, value); Same(h, h') && h'.pc == h.pc
  {
  }

  /** Everything but registers and pc. */
  ghost predicate Same<M>(h: Hart<M>, h': Hart<M>) {
    h' == h.(pc := h'.pc, x := h'.x)
  }

  lemma RegisterCompletes<M>(h: Hart<M>, i: Instr, pc: Word)
    requires h.Shaped() && i.Register? && Encodable(i) && h.pc == Add32(pc, 4)
    ensures Encode(i) < 0x1_0000_0000
    ensures var h' := RegisterOp(h, i.op, Encode(i)); Completes(i, pc, h.x, h'.pc, h'.x) && Same(h, h')
  {
    hide OnlyChanges, Result, RegisterResult, Listed3, Listed7, Join, Add32;
    RegisterFields(i.op);
    DecodeR(0x33, i.rd, Listed3(i.op), i.rs1, i.rs2, Listed7(i.op));
    NextPc(pc);
    RegisterResults(i.op, h.x[i.rs1], h.x[i.rs2]);
    ComputesInto(h, i.rd, RegisterResult(i.op, h.x[i.rs1], h.x[i.rs2]));
  }

  lemma ImmediateCompletes<M>(h: Hart<M>, i: Instr, pc: Word)
    requires h.Shaped() && i.Immediate? && Encodable(i) && h.pc == Add32(pc, 4)
    ensures Encode(i) < 0x1_0000_0000
    ensures var h' := ImmediateOp(h, i.op, Encode(i)); Completes(i, pc, h.x, h'.pc, h'.x) && Same(h, h')
  {
    hide OnlyChanges, Result, RegisterResult, Listed3, EncodeI, Add32, GetIImm;
    ImmediateFields(i.op);
    DecodeI(0x13, i.rd, Listed3(i.op), i.rs1, i.imm);
    NextPc(pc);
    RegisterResults(ImmediateTwin(i.op), h.x[i.rs1], ToWord(i.imm));
    ComputesInto(h, i.rd, RegisterResult(ImmediateTwin(i.op), h.x[i.rs1], ToWord(i.imm)));
  }

  lemma ShiftCompletes<M>(h: Hart<M>, i: Instr, pc: Word)
    requires h.Shaped() && i.ShiftImmediate? && Encodable(i) && h.pc == Add32(pc, 4)
    ensures Encode(i) < 0x1_0000_0000
    ensures var h' := ImmediateOp(h, i.op, Encode(i)); Completes(i, pc, h.x, h'.pc, h'.x) && Same(h, h')
  {
    hide OnlyChanges, RegisterResult, Listed3, Listed7, Join, Add32, GetIImm, EncodeI, EncodeB, EncodeU, EncodeJ;
    hide Result, ToWord, Holds, Rd, Rs1, Rs2;
    ShiftFields(i.op);
    DecodeR(0x13, i.rd, Listed3(i.op), i.rs1, i.shamt, Listed7(i.op));
    ShamtIsImm(Encode(i));
    NextPc(pc);
    var operand := ToWord(GetIImm(Encode(i)));
    RegisterResults(ImmediateTwin(i.op), h.x[i.rs1], operand);
    ComputesInto(h, i.rd, RegisterResult(ImmediateTwin(i.op), h.x[i.rs1], operand));
    ShiftOperand(ImmediateTwin(i.op), h.x[i.rs1], operand, i.shamt, RegisterResult(ImmediateTwin(i.op), h.x[i.rs1], operand));
  }

  /** A shift looks only at the low five bits of its second operand. */
  lemma ShiftOperand(op: Op, a: Word, b: Word, shamt: Word, r: Word)
    requires op == SLL || op == SRL || op == SRA
    requires shamt < 32 && b % 32 == shamt && Result(op, a, b, r)
    ensures Result(op, a, shamt, r)
  {
    hide Signed, Divides, Bit, Pow2;
  }

  lemma UpperCompletes<M>(h: Hart<M>, i: Instr, pc: Word)
    requires h.Shaped() && i.UpperImmediate? && Encodable(i) && h.pc == Add32(pc, 4)
    ensures Encode(i) < 0x1_0000_0000
    ensures var h' := UpperOp(h, i.op, Encode(i)); Completes(i, pc, h.x, h'.pc, h'.x) && Same(h, h')
  {
    hide OnlyChanges, EncodeU, Add32, ToWord, Upper, Listed3, Listed7, EncodeI, EncodeB, EncodeJ, Join, Result;
    hide ImmediateTwin, Holds, Rd, Rs1;
    DecodeU(if i.op == LUI then 0x37 else 0x17, i.rd, i.imm20);
    NextPc(pc);
    UpperWritten(i.op == LUI, i.imm20, Encode(i), pc);
    var value := if i.op == LUI then Upper(Encode(i)) else ToWord(Upper(Encode(i)) + h.pc - 4);
    ComputesInto(h, i.rd, value);
  }

  lemma UpperWritten(lui: bool, imm20: nat, w: Word, pc: Word)
    requires w / 0x1000 == imm20
    ensures (if lui then Upper(w) else ToWord(Upper(w) + Add32(pc, 4) - 4)) ==
            (imm20 * 0x1000 + (if lui then 0 else pc)) % 0x1_0000_0000
  {
    hide ToWord, Add32, Upper;
    PlusFourMinusFour(pc, Upper(w));
    UpperValue(w, pc);
  }

  lemma UpperValue(w: Word, pc: Word)
    ensures Upper(w) == w / 0x1000 * 0x1000 == Upper(w) % 0x1_0000_0000
    ensures (pc + Upper(w)) % 0x1_0000_0000 == (w / 0x1000 * 0x1000 + pc) % 0x1_0000_0000
  {
  }

  lemma BranchCompletes<M>(h: Hart<M>, i: Instr, pc: Word)
    requires h.Shaped() && i.Branch? && Encodable(i) && h.pc == Add32(pc, 4)
    ensures Encode(i) < 0x1_0000_0000
    ensures var h' := BranchOp(h, i.op, Encode(i)); Completes(i, pc, h.x, h'.pc, h'.x) && Same(h, h')
  {
    hide Listed3, EncodeB, Add32, ToWord, GetBImm, Taken, Holds, PatternOf;
    BranchFields(i.op);
    DecodeB(0x63, Listed3(i.op), i.rs1, i.rs2, i.offset);
    NextPc(pc);
    PlusFourMinusFour(pc, i.offset);
    TakenHolds(i.op, h.x[i.rs1], h.x[i.rs2]);
  }

  lemma TakenHolds(op: Op, a: Word, b: Word)
    ensures Taken(op, a, b) == Holds(op, a, b)
  {
  }

  lemma JumpParts<M>(h: Hart<M>, op: Op, w: Word)
    requires h.Shaped()
    ensures var h' := JumpOp(h, op, w);
            && Same(h, h') && h'.x == h.SetReg(Rd(w), h.pc).x
            && h'.pc == ToWord(if op == JAL then h.pc + GetJImm(w) - 4 else h.x[Rs1(w)] + GetIImm(w))
  {
    hide ToWord, GetJImm, GetIImm;
  }

  lemma JumpCompletes<M>(h: Hart<M>, i: Instr, pc: Word)
    requires h.Shaped() && i.JumpAndLink? && Encodable(i) && h.pc == Add32(pc, 4)
    ensures Encode(i) < 0x1_0000_0000
    ensures var h' := JumpOp(h, JAL, Encode(i)); Completes(i, pc, h.x, h'.pc, h'.x) && Same(h, h')
  {
    hide OnlyChanges, EncodeI, EncodeB, EncodeU, EncodeJ, Join, Add32, ToWord, GetJImm, GetIImm, JumpOp, Same, Rd, Rs1;
    hide Listed3, Listed7, Result, ImmediateTwin, Holds;
    DecodeJ(0x6F, i.rd, i.offset);
    JumpParts(h, JAL, Encode(i));
    NextPc(pc);
    PlusFourMinusFour(pc, i.offset);
    ComputesInto(h, i.rd, h.pc);
  }

  lemma JumpRegisterFields(i: Instr)
    requires i.JumpRegister? && Encodable(i)
    ensures Encode(i) < 0x1_0000_0000
    ensures Rd(Encode(i)) == i.rd && Rs1(Encode(i)) == i.rs1 && GetIImm(Encode(i)) == i.imm
  {
    hide EncodeI, EncodeB, EncodeU, EncodeJ, Join, GetIImm, Rd, Rs1, Listed3, Listed7;
    DecodeI(0x67, i.rd, 0, i.rs1, i.imm);
  }

  /** JALR does not clear bit 0 of its target, which the ISA does: the jumps are the same
      exactly when the sum is even. */
  lemma JumpRegisterCompletes<M>(h: Hart<M>, i: Instr, pc: Word)
    requires h.Shaped() && i.JumpRegister? && Encodable(i) && h.pc == Add32(pc, 4)
    ensures Encode(i) < 0x1_0000_0000
    ensures var h' := JumpOp(h, JALR, Encode(i));
            Same(h, h') && (Completes(i, pc, h.x, h'.pc, h'.x) <==> (h.x[i.rs1] + i.imm) % 2 == 0)
  {
    hide Completes, EncodeI, EncodeB, EncodeU, EncodeJ, Join, Add32, GetIImm, GetJImm, ToWord, JumpOp, Same, Rd, Rs1;
    hide Listed3, Listed7, Encode;
    JumpRegisterFields(i);
    var w := Encode(i);
    JumpParts(h, JALR, w);
    JumpRegisterMeans(h.x, JumpOp(h, JALR, w).x, i, pc, JumpOp(h, JALR, w).pc, h.SetReg(i.rd, h.pc), h);
  }

  lemma JumpRegisterMeans<M>(x: seq<Word>, x': seq<Word>, i: Instr, pc: Word, pc': Word, h': Hart<M>, h: Hart<M>)
    requires h.Shaped() && x == h.x && i.JumpRegister? && Encodable(i) && h.pc == Add32(pc, 4)
    requires h' == h.SetReg(i.rd, h.pc) && x' == h'.x && pc' == ToWord(x[i.rs1] + i.imm)
    ensures Completes(i, pc, x, pc', x') <==> (x[i.rs1] + i.imm) % 2 == 0
  {
    hide OnlyChanges, Add32, ToWord, Encode;
    NextPc(pc);
    ComputesInto(h, i.rd, h.pc);
    EvenTarget(x[i.rs1] + i.imm);
  }

  lemma EvenTarget(n: int)
    ensures var target := n % 0x1_0000_0000; ToWord(n) == target - target % 2 <==> n % 2 == 0
  {
    DivDiv(n, 2, 0x8000_0000);
  }

  // ---------------------------------------------------------------- misaligned targets

  /** The instructions on which emulator and ISA agree: all but branches that are taken and
      jumps to a target that is not four-byte aligned, and JALR to a sum that is not. */
  predicate Agrees(i: Instr, pc: Word, x: seq<Word>)
    requires Encodable(i) && |x| == 32
  {
    match i
    case Branch(op, rs1, rs2, offset) => Holds(op, x[rs1], x[rs2]) ==> (pc + offset) % 4 == 0
    case JumpAndLink(_, offset) => (pc + offset) % 4 == 0
    case JumpRegister(_, rs1, imm) => (x[rs1] + imm) % 4 == 0
    case _ => true
  }

  lemma LowTwoDigits(n: int)
    ensures n % 0x1_0000_0000 % 4 == n % 4 && n % 0x1_0000_0000 % 2 == n % 2
  {
    DivDiv(n, 4, 0x4000_0000);
    DivDiv(n, 2, 0x8000_0000);
  }

  /** A transfer to a misaligned target is no trap, whose vector would be aligned. */
  lemma TransferDoes(i: Instr, pc: Word, x: seq<Word>, pc': Word, x': seq<Word>)
    requires Encodable(i) && |x| == 32 && |x'| == 32 && !i.JumpRegister?
    requires Completes(i, pc, x, pc', x')
    ensures Does(i, pc, x, pc', x') <==> Agrees(i, pc, x)
  {
    hide Holds, Result, OnlyChanges, ImmediateTwin;
    match i {
      case Branch(_, _, _, offset) => LowTwoDigits(pc + offset);
      case JumpAndLink(_, offset) => LowTwoDigits(pc + offset);
      case _ =>
    }
  }

  lemma JumpRegisterTransfers(i: Instr, pc: Word, x: seq<Word>, pc': Word, x': seq<Word>)
    requires Encodable(i) && |x| == 32 && |x'| == 32 && i.JumpRegister?
    requires Completes(i, pc, x, pc', x') <==> (x[i.rs1] + i.imm) % 2 == 0
    requires pc' == (x[i.rs1] + i.imm) % 0x1_0000_0000
    ensures Does(i, pc, x, pc', x') <==> Agrees(i, pc, x)
  {
    hide Completes, Holds;
    JumpTarget(x[i.rs1] + i.imm);
  }

  lemma JumpTarget(n: int)
    ensures var target := n % 0x1_0000_0000;
            && (target % 4 == 0 <==> n % 4 == 0)
            && ((target - target % 2) % 4 == 0 <==> n % 4 < 2)
            && (n % 4 == 1 ==> n % 2 != 0) && (n % 4 == 0 ==> n % 2 == 0)
  {
    LowTwoDigits(n);
    EvenPart(n % 0x1_0000_0000);
    DivDiv(n, 2, 2);
  }

  lemma EvenPart(t: nat)
    ensures (t - t % 2) % 4 == 0 <==> t % 4 < 2
  {
    var q, r := t / 4, t % 4;
    DivUnique(t, 2, 2 * q + r / 2, r % 2);
    DivUnique(t - r % 2, 4, q, r - r % 2);
  }

  /** Branches: the +4 of the fetch and the -4 of the handler cancel modulo 2^32, and the
      emulator does what the ISA says exactly if the target is aligned or not taken. */
  lemma BranchDoes<M>(h: Hart<M>, i: Instr, pc: Word)
    requires h.Shaped() && i.Branch? && Encodable(i) && h.pc == Add32(pc, 4)
    ensures Encode(i) < 0x1_0000_0000
    ensures var h' := BranchOp(h, i.op, Encode(i));
            Same(h, h') && (Does(i, pc, h.x, h'.pc, h'.x) <==> Agrees(i, pc, h.x))
  {
    hide Encode, BranchOp, Add32, Completes, Does, Agrees, Same;
    BranchCompletes(h, i, pc);
    var h' := BranchOp(h, i.op, Encode(i));
    TransferDoes(i, pc, h.x, h'.pc, h'.x);
  }

  lemma JumpDoes<M>(h: Hart<M>, i: Instr, pc: Word)
    requires h.Shaped() && i.JumpAndLink? && Encodable(i) && h.pc == Add32(pc, 4)
    ensures Encode(i) < 0x1_0000_0000
    ensures var h' := JumpOp(h, JAL, Encode(i));
            Same(h, h') && (Does(i, pc, h.x, h'.pc, h'.x) <==> Agrees(i, pc, h.x))
  {
    hide Encode, JumpOp, Add32, Completes, Does, Agrees, Same;
    JumpCompletes(h, i, pc);
    var h' := JumpOp(h, JAL, Encode(i));
    TransferDoes(i, pc, h.x, h'.pc, h'.x);
  }

  /** JALR: a sum that is odd goes to an odd address, one that is 2 modulo 4 is misaligned. */
  lemma JumpRegisterDoes<M>(h: Hart<M>, i: Instr, pc: Word)
    requires h.Shaped() && i.JumpRegister? && Encodable(i) && h.pc == Add32(pc, 4)
    ensures Encode(i) < 0x1_0000_0000
    ensures var h' := JumpOp(h, JALR, Encode(i));
            Same(h, h') && (Does(i, pc, h.x, h'.pc, h'.x) <==> Agrees(i, pc, h.x))
  {
    hide Encode, JumpOp, Add32, Completes, Does, Agrees, Same, GetIImm, GetJImm, Rd, Rs1;
    JumpRegisterCompletes(h, i, pc);
    JumpRegisterFields(i);
    JumpParts(h, JALR, Encode(i));
    var h' := JumpOp(h, JALR, Encode(i));
    JumpRegisterTransfers(i, pc, h.x, h'.pc, h'.x);
  }

  lemma ComputationAgrees(i: Instr, pc: Word, x: seq<Word>, pc': Word, x': seq<Word>)
    requires Encodable(i) && |x| == 32 && |x'| == 32 && !i.Branch? && !i.JumpAndLink? && !i.JumpRegister?
    ensures (Does(i, pc, x, pc', x') <==> Completes(i, pc, x, pc', x')) && Agrees(i, pc, x)
  {
    hide Completes, Holds;
  }

  /** An instruction completes as the ISA says, if alignment is left out, but for a JALR to an
      odd sum. */
  predicate EvenTransfer(i: Instr, x: seq<Word>)
    requires Encodable(i) && |x| == 32
  {
    i.JumpRegister? ==> (x[i.rs1] + i.imm) % 2 == 0
  }

  lemma HandlerDoes<M>(bus: Bus<M>, h: Hart<M>, i: Instr, pc: Word, at: Word)
    requires h.Shaped() && Encodable(i) && h.pc == Add32(pc, 4)
    ensures Encode(i) < 0x1_0000_0000
    ensures var h' := Handle(bus, h, OpOf(i), Encode(i), at);
            && Same(h, h')
            && (Completes(i, pc, h.x, h'.pc, h'.x) <==> EvenTransfer(i, h.x))
            && (Does(i, pc, h.x, h'.pc, h'.x) <==> Agrees(i, pc, h.x))
  {
    hide Does, Completes, Agrees, Encode, IsA, Add32, RegisterOp, ImmediateOp, UpperOp, BranchOp, JumpOp, Handle, Same;
    hide LoadInto, StoreFrom, AtomicOp, CsrOp, SystemOp;
    EncodingIsA(i);
    HandleByKind(bus, h, OpOf(i), Encode(i), at);
    var h' := Handle(bus, h, OpOf(i), Encode(i), at);
    match i {
      case Branch(_, _, _, _) =>
        BranchCompletes(h, i, pc);
        BranchDoes(h, i, pc);
      case JumpAndLink(_, _) =>
        JumpCompletes(h, i, pc);
        JumpDoes(h, i, pc);
      case JumpRegister(_, _, _) =>
        JumpRegisterCompletes(h, i, pc);
        JumpRegisterDoes(h, i, pc);
      case Register(_, _, _, _) =>
        RegisterCompletes(h, i, pc);
        ComputationAgrees(i, pc, h.x, h'.pc, h'.x);
      case Immediate(_, _, _, _) =>
        ImmediateCompletes(h, i, pc);
        ComputationAgrees(i, pc, h.x, h'.pc, h'.x);
      case ShiftImmediate(_, _, _, _) =>
        ShiftCompletes(h, i, pc);
        ComputationAgrees(i, pc, h.x, h'.pc, h'.x);
      case UpperImmediate(_, _, _) =>
        UpperCompletes(h, i, pc);
        ComputationAgrees(i, pc, h.x, h'.pc, h'.x);
    }
  }

  /** The word of an instruction. */
  function Encoding(i: Instr): (w: Word)
    requires Encodable(i)
    ensures w == Encode(i)
  {
    EncodingIsA(i);
    Encode(i)
  }

  /** One call of emulate_op on the encoding of an instruction, in any state at a step
      boundary: memory stays as the fetch left it, privilege and CSRs stay but for the
      counters, and no trap is taken.  Registers and pc change as the ISA says, for all
      operands and also if rd is rs1 or rs2, exactly if no taken branch or jump goes to a
      misaligned target.  To such a target the emulator goes on all the same, and links. */
  lemma StepConforms<M>(bus: Bus<M>, h: Hart<M>, i: Instr, m: M)
    requires Boundary(h) && h.life == Live && Encodable(i)
    requires FetchOf(bus, h) == Fetched(m, Encoding(i))
    ensures var h' := Step(bus, h);
            && Boundary(h') && h'.life == Live && h'.mem == m && h'.privilege == h.privilege
            && (forall k :: 0 <= k < 4096 && k != CSR_TIME && k != CSR_CYCLE ==> h'.csr[k] == h.csr[k])
            && (Does(i, h.pc, h.x, h'.pc, h'.x) <==> Agrees(i, h.pc, h.x))
            && (Completes(i, h.pc, h.x, h'.pc, h'.x) <==> EvenTransfer(i, h.x))
  {
    hide Does, Completes, Agrees, EvenTransfer, Encode, Add32, Handle, Finish, Step, FirstMatch, IsA;
    EncodingIsA(i);
    EmulatorSelects(Encode(i), OpOf(i));
    StepSelected(bus, h, m, Encode(i), OpOf(i));
    HandlerDoes(bus, AtHandler(h, m), i, h.pc, PointerOf(bus, h));
    FinishPlain(Handle(bus, AtHandler(h, m), OpOf(i), Encode(i), PointerOf(bus, h)));
    StepKeepsBoundary(bus, h);
  }

  /** A jump that the ISA forbids: jal ra, 2 at 0x1000 has to raise an exception and leave ra
      alone; the emulator links and goes on at 0x1002. */
  lemma MisalignedJump<M>(bus: Bus<M>, h: Hart<M>, m: M)
    requires Boundary(h) && h.life == Live && h.pc == 0x1000
    requires FetchOf(bus, h) == Fetched(m, Encoding(JumpAndLink(1, 2)))
    ensures var h' := Step(bus, h);
            && h'.Shaped() && h'.pc == 0x1002 && h'.x[1] == 0x1004
            && !Does(JumpAndLink(1, 2), h.pc, h.x, h'.pc, h'.x)
  {
    hide Step, Encoding, FetchOf, Does, Completes;
    StepConforms(bus, h, JumpAndLink(1, 2), m);
    ForbiddenJump(h.x, Step(bus, h).pc, Step(bus, h).x);
  }

  lemma ForbiddenJump(x: seq<Word>, pc': Word, x': seq<Word>)
    requires |x| == 32 && |x'| == 32 && Completes(JumpAndLink(1, 2), 0x1000, x, pc', x')
    ensures pc' == 0x1002 && x'[1] == 0x1004
  {
    hide OnlyChanges;
  }
}
