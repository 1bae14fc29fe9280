/** What disassemble_op prints for an instruction, operand by operand: the numerals as they are
    written in assembly language, and exactly when an alias is chosen. */
module Listings {
  import opened Words
  import opened Options
  import opened Decode
  import opened Operands
  import opened Opcodes
  import opened ListingTable
  import opened Isa
  import opened HartSpec
  import opened Conformance
  import opened Encodings
  import opened Disassembler

  lemma LineOfWord(w: Word, op: Op, pc: Word, named: Word -> bool)
    requires IsA(w, op)
    ensures Disassemble(w, pc, named) == LineOf(op, w, pc, named)
  {
    hide IsA, LineOf, FirstListed, FirstMatch;
    BothProgramsSelect(w, op);
  }

  /** The word of an instruction, and what the decoders find in it. */
  lemma LineOfInstr(i: Instr, pc: Word, named: Word -> bool)
    requires Encodable(i)
    ensures Disassemble(Encoding(i), pc, named) == LineOf(OpOf(i), Encoding(i), pc, named)
    ensures InstrOf(Encoding(i), OpOf(i)) == i
  {
    hide LineOf, Disassemble, IsA, Encode, InstrOf, Encodable;
    EncodingIsA(i);
    InstrOfEncode(i);
    LineOfWord(Encoding(i), OpOf(i), pc, named);
  }

  // ---------------------------------------------------------------- immediates

  lemma LineOfImmediate(i: Instr, pc: Word, named: Word -> bool)
    requires Encodable(i) && i.Immediate?
    ensures var w := Encoding(i);
            && Disassemble(w, pc, named) == ImmediateLine(i.op, w)
            && Rd(w) == i.rd && Rs1(w) == i.rs1 && GetIImm(w) == i.imm
  {
    hide Disassemble, Encoding, Rd, Rs1, Rs2, GetIImm, GetBImm, GetJImm, KindOf, ImmediateLine;
    LineOfInstr(i, pc, named);
    KindsOf();
  }

  /** addi: the immediate is printed signed; nop, li and mv are printed for it exactly in these
      cases. */
  lemma AddiListing(rd: Word, rs1: Word, imm: int, pc: Word, named: Word -> bool)
    requires rd < 32 && rs1 < 32 && -0x800 <= imm < 0x800
    ensures Encodable(Immediate(ADDI, rd, rs1, imm))
    ensures Disassemble(Encoding(Immediate(ADDI, rd, rs1, imm)), pc, named) ==
            if rd == 0 && rs1 == 0 && imm == 0 then Line(NOP, [])
            else if rs1 == 0 then Line(LI, [Reg(rd), Dec(imm)])
            else if imm == 0 then Line(MV, [Reg(rd), Reg(rs1)])
            else Line(Own(ADDI), [Reg(rd), Reg(rs1), Dec(imm)])
  {
    hide Disassemble, Encoding, Rd, Rs1, GetIImm, IField, Shamt, KindOf;
    LineOfImmediate(Immediate(ADDI, rd, rs1, imm), pc, named);
  }

  /** The other immediates are printed signed too, also that of sltiu, which is compared
      unsigned; seqz and not are printed for sltiu 1 and xori -1. */
  lemma ImmediateListing(op: Op, rd: Word, rs1: Word, imm: int, pc: Word, named: Word -> bool)
    requires op == SLTI || op == SLTIU || op == XORI || op == ORI || op == ANDI
    requires rd < 32 && rs1 < 32 && -0x800 <= imm < 0x800
    ensures Encodable(Immediate(op, rd, rs1, imm))
    ensures Disassemble(Encoding(Immediate(op, rd, rs1, imm)), pc, named) ==
            if op == SLTIU && imm == 1 then Line(SEQZ, [Reg(rd), Reg(rs1)])
            else if op == XORI && imm == -1 then Line(NOT, [Reg(rd), Reg(rs1)])
            else Line(Own(op), [Reg(rd), Reg(rs1), Dec(imm)])
  {
    hide Disassemble, Encoding, Rd, Rs1, GetIImm, IField, Shamt, KindOf;
    var i := Immediate(op, rd, rs1, imm);
    LineOfImmediate(i, pc, named);
    IFieldIsImm(Encoding(i));
    ImmediateLineIs(op, Encoding(i));
    hide ImmediateLine;
  }

  lemma ImmediateLineIs(op: Op, w: Word)
    requires op == SLTI || op == SLTIU || op == XORI || op == ORI || op == ANDI
    requires IField(w) == GetIImm(w)
    ensures ImmediateLine(op, w) ==
            if op == SLTIU && GetIImm(w) == 1 then Line(SEQZ, [Reg(Rd(w)), Reg(Rs1(w))])
            else if op == XORI && GetIImm(w) == -1 then Line(NOT, [Reg(Rd(w)), Reg(Rs1(w))])
            else Line(Own(op), [Reg(Rd(w)), Reg(Rs1(w)), Dec(GetIImm(w))])
  {
    hide Rd, Rs1, GetIImm, IField, Shamt;
  }

  lemma ShiftListing(op: Op, rd: Word, rs1: Word, shamt: Word, pc: Word, named: Word -> bool)
    requires op == SLLI || op == SRLI || op == SRAI
    requires rd < 32 && rs1 < 32 && shamt < 32
    ensures Encodable(ShiftImmediate(op, rd, rs1, shamt))
    ensures Disassemble(Encoding(ShiftImmediate(op, rd, rs1, shamt)), pc, named) ==
            Line(Own(op), [Reg(rd), Reg(rs1), Hex(shamt)])
  {
    hide Disassemble, Encoding, Rd, Rs1, Rs2, Shamt, KindOf, GetIImm, IField;
    var i := ShiftImmediate(op, rd, rs1, shamt);
    LineOfShift(i, pc, named);
    ShamtIsField(Encoding(i));
  }

  lemma LineOfShift(i: Instr, pc: Word, named: Word -> bool)
    requires Encodable(i) && i.ShiftImmediate?
    ensures var w := Encoding(i);
            && Disassemble(w, pc, named) == ImmediateLine(i.op, w)
            && Rd(w) == i.rd && Rs1(w) == i.rs1 && Rs2(w) == i.shamt
  {
    hide Disassemble, Encoding, Rd, Rs1, Rs2, GetIImm, GetBImm, GetJImm, KindOf, ImmediateLine;
    LineOfInstr(i, pc, named);
    KindsOf();
  }

  lemma ShamtIsField(w: Word)
    ensures Shamt(w) == Rs2(w)
  {
  }

  lemma UpperListing(op: Op, rd: Word, imm20: Word, pc: Word, named: Word -> bool)
    requires (op == LUI || op == AUIPC) && rd < 32 && imm20 < 0x10_0000
    ensures Encodable(UpperImmediate(op, rd, imm20))
    ensures Disassemble(Encoding(UpperImmediate(op, rd, imm20)), pc, named) == Line(Own(op), [Reg(rd), Hex(imm20)])
  {
    hide Disassemble, Encoding, Rd, KindOf;
    KindsOf();
    LineOfInstr(UpperImmediate(op, rd, imm20), pc, named);
  }

  // ---------------------------------------------------------------- registers

  /** sgtz, snez and neg stand for slt, sltu and sub with rs1 == zero. */
  lemma RegisterListing(op: Op, rd: Word, rs1: Word, rs2: Word, pc: Word, named: Word -> bool)
    requires KindOf(op) == RegisterKind && rd < 32 && rs1 < 32 && rs2 < 32
    ensures Disassemble(Encoding(Register(op, rd, rs1, rs2)), pc, named) ==
            if op == SLT && rs1 == 0 then Line(SGTZ, [Reg(rd), Reg(rs2)])
            else if op == SLTU && rs1 == 0 then Line(SNEZ, [Reg(rd), Reg(rs2)])
            else if op == SUB && rs1 == 0 then Line(NEG, [Reg(rd), Reg(rs2)])
            else Line(Own(op), [Reg(rd), Reg(rs1), Reg(rs2)])
  {
    hide Disassemble, Encoding, Rd, Rs1, Rs2, KindOf;
    LineOfRegister(Register(op, rd, rs1, rs2), pc, named);
  }

  lemma LineOfRegister(i: Instr, pc: Word, named: Word -> bool)
    requires Encodable(i) && i.Register?
    ensures var w := Encoding(i);
            && Disassemble(w, pc, named) == RegisterLine(i.op, w)
            && Rd(w) == i.rd && Rs1(w) == i.rs1 && Rs2(w) == i.rs2
  {
    hide Disassemble, Encoding, Rd, Rs1, Rs2, GetIImm, GetBImm, GetJImm, KindOf, RegisterLine;
    LineOfInstr(i, pc, named);
  }

  // ---------------------------------------------------------------- branches and jumps

  /** Branches name their target; beqz, bnez, bgez, blez, bltz and bgtz compare with zero. */
  lemma BranchListing(op: Op, rs1: Word, rs2: Word, offset: int, pc: Word, named: Word -> bool)
    requires KindOf(op) == BranchKind && rs1 < 32 && rs2 < 32 && -0x1000 <= offset < 0x1000 && offset % 2 == 0
    ensures Disassemble(Encoding(Branch(op, rs1, rs2, offset)), pc, named) ==
            var target := Hex((pc + offset) % 0x1_0000_0000);
            if op == BEQ && rs2 == 0 then Line(BEQZ, [Reg(rs1), target])
            else if op == BNE && rs2 == 0 then Line(BNEZ, [Reg(rs1), target])
            else if op == BGE && rs2 == 0 then Line(BGEZ, [Reg(rs1), target])
            else if op == BGE && rs1 == 0 then Line(BLEZ, [Reg(rs2), target])
            else if op == BLT && rs2 == 0 then Line(BLTZ, [Reg(rs1), target])
            else if op == BLT && rs1 == 0 then Line(BGTZ, [Reg(rs2), target])
            else Line(Own(op), [Reg(rs1), Reg(rs2), target])
  {
    hide Disassemble, Encoding, Rs1, Rs2, GetBImm, KindOf, Target;
    LineOfBranch(Branch(op, rs1, rs2, offset), pc, named);
    TargetIs(offset, pc);
  }

  lemma LineOfBranch(i: Instr, pc: Word, named: Word -> bool)
    requires Encodable(i) && i.Branch?
    ensures var w := Encoding(i);
            && Disassemble(w, pc, named) == BranchLine(i.op, w, pc)
            && Rs1(w) == i.rs1 && Rs2(w) == i.rs2 && GetBImm(w) == i.offset
  {
    hide Disassemble, Encoding, Rd, Rs1, Rs2, GetIImm, GetBImm, GetJImm, KindOf, BranchLine;
    LineOfInstr(i, pc, named);
  }

  lemma TargetIs(offset: int, pc: Word)
    ensures Target(offset, pc) == (pc + offset) % 0x1_0000_0000
  {
  }

  lemma JumpListing(rd: Word, offset: int, pc: Word, named: Word -> bool)
    requires rd < 32 && -0x10_0000 <= offset < 0x10_0000 && offset % 2 == 0
    ensures Disassemble(Encoding(JumpAndLink(rd, offset)), pc, named) ==
            var target := Hex((pc + offset) % 0x1_0000_0000);
            if rd == 0 then Line(J, [target]) else Line(Own(JAL), [Reg(rd), target])
  {
    hide Disassemble, Encoding, Rd, GetJImm, Target, KindOf;
    KindsOf();
    LineOfInstr(JumpAndLink(rd, offset), pc, named);
    TargetIs(offset, pc);
  }

  /** jalr: ret, the one-operand form and jr for a zero offset, the offset(register) form when rd
      is the base register, and else all three operands. */
  lemma JumpRegisterListing(rd: Word, rs1: Word, imm: int, pc: Word, named: Word -> bool)
    requires rd < 32 && rs1 < 32 && -0x800 <= imm < 0x800
    ensures Encodable(JumpRegister(rd, rs1, imm))
    ensures Disassemble(Encoding(JumpRegister(rd, rs1, imm)), pc, named) ==
            if imm == 0 && rd == 0 && rs1 == 1 then Line(RET, [])
            else if imm == 0 && rd == 1 then Line(Own(JALR), [Reg(rs1)])
            else if imm == 0 && rd == 0 then Line(JR, [Reg(rs1)])
            else if rd == rs1 then Line(Own(JALR), [Based(imm, rs1)])
            else Line(Own(JALR), [Reg(rd), Reg(rs1), Dec(imm)])
  {
    hide Disassemble, Encoding, Rd, Rs1, GetIImm, KindOf;
    KindsOf();
    LineOfInstr(JumpRegister(rd, rs1, imm), pc, named);
  }

  // ---------------------------------------------------------------- memory

  function LoadFunct3(op: Op): nat {
    match op
    case LB => 0
    case LH => 1
    case LW => 2
    case LBU => 4
    case _ => 5
  }

  /** Loads: rd, and the signed offset on its base register. */
  lemma LoadListing(op: Op, rd: Word, rs1: Word, imm: int, pc: Word, named: Word -> bool)
    requires op == LB || op == LH || op == LW || op == LBU || op == LHU
    requires rd < 32 && rs1 < 32 && -0x800 <= imm < 0x800
    ensures EncodeI(0x03, rd, LoadFunct3(op), rs1, imm) < 0x1_0000_0000
    ensures Disassemble(EncodeI(0x03, rd, LoadFunct3(op), rs1, imm), pc, named) ==
            Line(Own(op), [Reg(rd), Based(imm, rs1)])
  {
    hide Disassemble, EncodeI, Rd, Rs1, GetIImm, KindOf, PatternOf, Opcode, Funct3;
    DecodeI(0x03, rd, LoadFunct3(op), rs1, imm);
    LoadPattern(op);
    LineOfWord(EncodeI(0x03, rd, LoadFunct3(op), rs1, imm), op, pc, named);
  }

  lemma LoadPattern(op: Op)
    requires op == LB || op == LH || op == LW || op == LBU || op == LHU
    ensures PatternOf(op) == ByFunct3(0x03, LoadFunct3(op)) && KindOf(op) == LoadKind
  {
  }

  function StoreFunct3(op: Op): nat {
    match op
    case SB => 0
    case SH => 1
    case _ => 2
  }

  lemma StoreListing(op: Op, rs1: Word, rs2: Word, imm: int, pc: Word, named: Word -> bool)
    requires (op == SB || op == SH || op == SW) && rs1 < 32 && rs2 < 32 && -0x800 <= imm < 0x800
    ensures EncodeS(0x23, StoreFunct3(op), rs1, rs2, imm) < 0x1_0000_0000
    ensures Disassemble(EncodeS(0x23, StoreFunct3(op), rs1, rs2, imm), pc, named) ==
            Line(Own(op), [Reg(rs2), Based(imm, rs1)])
  {
    hide Disassemble, EncodeS, Rs1, Rs2, GetSImm, KindOf, PatternOf, Opcode, Funct3;
    DecodeS(0x23, StoreFunct3(op), rs1, rs2, imm);
    StorePattern(op);
    LineOfWord(EncodeS(0x23, StoreFunct3(op), rs1, rs2, imm), op, pc, named);
  }

  lemma StorePattern(op: Op)
    requires op == SB || op == SH || op == SW
    ensures PatternOf(op) == ByFunct3(0x23, StoreFunct3(op)) && KindOf(op) == StoreKind
  {
  }

  /** Atomics: rd, rs2, and the address register, in brackets; lr has no rs2. */
  lemma AtomicListing(w: Word, op: Op, pc: Word, named: Word -> bool)
    requires IsA(w, op) && KindOf(op) == AtomicKind
    ensures Disassemble(w, pc, named) ==
            var rd, rs1, rs2 := w / 0x80 % 32, w / 0x8000 % 32, w / 0x10_0000 % 32;
            if op == LR_W then Line(Own(LR_W), [Reg(rd), Indirect(rs1)])
            else Line(Own(op), [Reg(rd), Reg(rs2), Indirect(rs1)])
  {
    hide Disassemble, KindOf, IsA;
    LineOfWord(w, op, pc, named);
  }

  // ---------------------------------------------------------------- CSRs and the rest

  /** CSR instructions: csrr for csrrs with rs1 == zero, the short form for rd == zero, and else
      all operands; the five-bit immediates are printed unsigned, and a CSR without a name as
      unknown. */
  lemma CsrListing(w: Word, op: Op, pc: Word, named: Word -> bool)
    requires IsA(w, op) && KindOf(op) == CsrKind
    ensures Disassemble(w, pc, named) ==
            var rd, rs1, number: Word := w / 0x80 % 32, w / 0x8000 % 32, w / 0x10_0000;
            var csr := Csr(if named(number) then Some(number) else None);
            var source := if op == CSRRWI || op == CSRRSI || op == CSRRCI then Dec(rs1) else Reg(rs1);
            if op == CSRRS && rs1 == 0 then Line(CSRR, [Reg(rd), csr])
            else if rd == 0 then
              Line(if op == CSRRS then CSRS else if op == CSRRW then CSRW else if op == CSRRC then CSRC
                   else if op == CSRRSI then CSRSI else if op == CSRRWI then CSRWI else CSRCI, [csr, source])
            else Line(Own(op), [Reg(rd), csr, source])
  {
    hide Disassemble, KindOf, IsA, GetIImmUnsigned, Rd, Rs1;
    LineOfCsr(w, op, pc, named);
    CsrFieldsOf(w);
    IsCsrOp(op);
    CsrLineIs(op, w, named);
    hide CsrLine;
  }

  lemma CsrLineIs(op: Op, w: Word, named: Word -> bool)
    requires op == CSRRS || op == CSRRW || op == CSRRC || op == CSRRSI || op == CSRRWI || op == CSRRCI
    ensures CsrLine(op, w, named) ==
            var number := GetIImmUnsigned(w);
            var csr := Csr(if named(number) then Some(number) else None);
            var source := if op == CSRRWI || op == CSRRSI || op == CSRRCI then Dec(Rs1(w)) else Reg(Rs1(w));
            if op == CSRRS && Rs1(w) == 0 then Line(CSRR, [Reg(Rd(w)), csr])
            else if Rd(w) == 0 then
              Line(if op == CSRRS then CSRS else if op == CSRRW then CSRW else if op == CSRRC then CSRC
                   else if op == CSRRSI then CSRSI else if op == CSRRWI then CSRWI else CSRCI, [csr, source])
            else Line(Own(op), [Reg(Rd(w)), csr, source])
  {
    hide Rd, Rs1, GetIImmUnsigned;
  }

  lemma LineOfCsr(w: Word, op: Op, pc: Word, named: Word -> bool)
    requires IsA(w, op) && KindOf(op) == CsrKind
    ensures Disassemble(w, pc, named) == CsrLine(op, w, named)
  {
    hide Disassemble, KindOf, IsA, CsrLine;
    LineOfWord(w, op, pc, named);
  }

  lemma CsrFieldsOf(w: Word)
    ensures Rd(w) == w / 0x80 % 32 && Rs1(w) == w / 0x8000 % 32 && GetIImmUnsigned(w) == w / 0x10_0000
  {
    hide GetIImmUnsigned;
    IImmUnsignedValue(w);
  }

  lemma SystemListing(w: Word, op: Op, pc: Word, named: Word -> bool)
    requires IsA(w, op) && KindOf(op) == SystemKind
    ensures Disassemble(w, pc, named) == Line(Own(op), [])
  {
    hide Disassemble, KindOf, IsA;
    LineOfWord(w, op, pc, named);
  }

  /** Any other word is reported as it is. */
  lemma UnknownListing(w: Word, pc: Word, named: Word -> bool)
    requires forall op :: !IsA(w, op)
    ensures Disassemble(w, pc, named) == UnknownInstruction(w)
  {
    hide IsA, LineOf, FirstMatch;
    if FirstListed(w, DISASSEMBLER_CHAIN).Selected? {
      BothProgramsSelect(w, FirstListed(w, DISASSEMBLER_CHAIN).op);
    }
  }
}
