/** The disassembler (disassembler.c): the listing of a word at an address, what a listing
    says in assembly language, and the proof that words with the same listing do the same
    when the emulator executes them. */
module Disassembler {
  import opened Words
  import opened Memory
  import opened Options
  import opened Decode
  import opened Operands
  import opened Opcodes
  import opened ListingTable
  import opened HartSpec
  import opened Runs
  import opened Conformance

  /** The mnemonics: that of each instruction, and those of its aliases. */
  datatype Mnemonic =
    | Own(op: Op)
    | NOP | LI | MV | BEQZ | BNEZ | BGEZ | BLEZ | BLTZ | BGTZ | J | RET | JR | SGTZ | SNEZ | SEQZ | NOT | NEG
    | CSRR | CSRS | CSRW | CSRC | CSRSI | CSRWI | CSRCI

  /** Register name, decimal and hexadecimal numeral, CSR name ("unknown-csr" is None),
      offset(register) and (register). */
  datatype Operand =
    | Reg(r: Word)
    | Dec(n: int)
    | Hex(v: Word)
    | Csr(csr: Option<Word>)
    | Based(offset: int, base: Word)
    | Indirect(base: Word)

  datatype Listing =
    | Line(mnemonic: Mnemonic, operands: seq<Operand>)
    | UnknownInstruction(word: Word)

  /** %x of an immediate added to the pc. */
  function Target(offset: int, pc: Word): Word {
    ToWord(offset + pc)
  }

  function ThreeRegisters(op: Op, w: Word): Listing {
    Line(Own(op), [Reg(Rd(w)), Reg(Rs1(w)), Reg(Rs2(w))])
  }

  /** slt, sltu and sub have an alias for rs1 == zero. */
  function RegisterLine(op: Op, w: Word): Listing {
    match op
    case SLT => if Rs1(w) == 0 then Line(SGTZ, [Reg(Rd(w)), Reg(Rs2(w))]) else ThreeRegisters(op, w)
    case SLTU => if Rs1(w) == 0 then Line(SNEZ, [Reg(Rd(w)), Reg(Rs2(w))]) else ThreeRegisters(op, w)
    case SUB => if Rs1(w) == 0 then Line(NEG, [Reg(Rd(w)), Reg(Rs2(w))]) else ThreeRegisters(op, w)
    case _ => ThreeRegisters(op, w)
  }

  function WithImmediate(op: Op, w: Word, n: int): Listing {
    Line(Own(op), [Reg(Rd(w)), Reg(Rs1(w)), Dec(n)])
  }

  function ImmediateLine(op: Op, w: Word): Listing {
    match op
    case ADDI =>
      var imm := GetIImm(w);
      if Rs1(w) == 0 then
        if Rd(w) == 0 && imm == 0 then Line(NOP, []) else Line(LI, [Reg(Rd(w)), Dec(imm)])
      else if imm == 0 then Line(MV, [Reg(Rd(w)), Reg(Rs1(w))])
      else WithImmediate(op, w, imm)
    case ANDI => WithImmediate(op, w, GetIImm(w))
    case SLTIU =>
      if IField(w) == 1 then Line(SEQZ, [Reg(Rd(w)), Reg(Rs1(w))]) else WithImmediate(op, w, IField(w))
    case XORI =>
      if IField(w) == -1 then Line(NOT, [Reg(Rd(w)), Reg(Rs1(w))]) else WithImmediate(op, w, IField(w))
    case SLLI | SRLI | SRAI => Line(Own(op), [Reg(Rd(w)), Reg(Rs1(w)), Hex(Shamt(w))])
    case _ => WithImmediate(op, w, IField(w))
  }

  function BranchLine(op: Op, w: Word, pc: Word): Listing {
    var target := Hex(Target(GetBImm(w), pc));
    var both := Line(Own(op), [Reg(Rs1(w)), Reg(Rs2(w)), target]);
    match op
    case BEQ => if Rs2(w) == 0 then Line(BEQZ, [Reg(Rs1(w)), target]) else both
    case BNE => if Rs2(w) == 0 then Line(BNEZ, [Reg(Rs1(w)), target]) else both
    case BGE =>
      if Rs2(w) == 0 then Line(BGEZ, [Reg(Rs1(w)), target])
      else if Rs1(w) == 0 then Line(BLEZ, [Reg(Rs2(w)), target]) else both
    case BLT =>
      if Rs2(w) == 0 then Line(BLTZ, [Reg(Rs1(w)), target])
      else if Rs1(w) == 0 then Line(BGTZ, [Reg(Rs2(w)), target]) else both
    case _ => both
  }

  function JumpLine(op: Op, w: Word, pc: Word): Listing {
    if op == JAL then
      var target := Hex(Target(GetJImm(w), pc));
      if Rd(w) == 0 then Line(J, [target]) else Line(Own(JAL), [Reg(Rd(w)), target])
    else
      var offset := GetIImm(w);
      if offset == 0 && Rd(w) == 0 && Rs1(w) == 1 then Line(RET, [])
      else if offset == 0 && Rd(w) == 1 then Line(Own(JALR), [Reg(Rs1(w))])
      else if offset == 0 && Rd(w) == 0 then Line(JR, [Reg(Rs1(w))])
      else if Rd(w) == Rs1(w) then Line(Own(JALR), [Based(offset, Rs1(w))])
      else Line(Own(JALR), [Reg(Rd(w)), Reg(Rs1(w)), Dec(offset)])
  }

  function AtomicLine(op: Op, w: Word): Listing {
    if op == LR_W then Line(Own(LR_W), [Reg(Rd(w)), Indirect(Rs1(w))])
    else Line(Own(op), [Reg(Rd(w)), Reg(Rs2(w)), Indirect(Rs1(w))])
  }

  /** csr_name: a number that the table does not list comes out as "unknown-csr". */
  function CsrOperand(w: Word, named: Word -> bool): Operand {
    var csr := GetIImmUnsigned(w);
    Csr(if named(csr) then Some(csr) else None)
  }

  /** The mnemonic of a CSR instruction with rd == zero. */
  function ShortCsr(op: Op): Mnemonic {
    match op
    case CSRRS => CSRS
    case CSRRW => CSRW
    case CSRRC => CSRC
    case CSRRSI => CSRSI
    case CSRRWI => CSRWI
    case _ => CSRCI
  }

  predicate TakesImmediate(op: Op) {
    op == CSRRSI || op == CSRRWI || op == CSRRCI
  }

  /** The last operand: a register, or the five bits themselves. */
  function Source(op: Op, rs1: Word): Operand {
    if TakesImmediate(op) then Dec(rs1) else Reg(rs1)
  }

  function CsrLine(op: Op, w: Word, named: Word -> bool): Listing {
    var csr := CsrOperand(w, named);
    var source := Source(op, Rs1(w));
    if op == CSRRS && Rs1(w) == 0 then Line(CSRR, [Reg(Rd(w)), csr])
    else if Rd(w) == 0 then Line(ShortCsr(op), [csr, source])
    else Line(Own(op), [Reg(Rd(w)), csr, source])
  }

  function LineOf(op: Op, w: Word, pc: Word, named: Word -> bool): Listing {
    match KindOf(op)
    case RegisterKind => RegisterLine(op, w)
    case ImmediateKind => ImmediateLine(op, w)
    case UpperKind => Line(Own(op), [Reg(Rd(w)), Hex(w / 0x1000)])
    case BranchKind => BranchLine(op, w, pc)
    case JumpKind => JumpLine(op, w, pc)
    case LoadKind => Line(Own(op), [Reg(Rd(w)), Based(GetIImm(w), Rs1(w))])
    case StoreKind => Line(Own(op), [Reg(Rs2(w)), Based(GetSImm(w), Rs1(w))])
    case AtomicKind => AtomicLine(op, w)
    case CsrKind => CsrLine(op, w, named)
    case SystemKind => Line(Own(op), [])
  }

  /** disassemble_op */
  function Disassemble(w: Word, pc: Word, named: Word -> bool): Listing {
    match FirstListed(w, DISASSEMBLER_CHAIN)
    case Unknown => UnknownInstruction(w)
    case Selected(op) => LineOf(op, w, pc, named)
  }

  // ---------------------------------------------------------------- assembly language

  /** An instruction with its operands, as an assembler sees it: jumps and branches name
      their target. */
  datatype Assembly =
    | Compute(op: Op, rd: Word, rs1: Word, rs2: Word)
    | ComputeImmediate(op: Op, rd: Word, rs1: Word, operand: Word)
    | LoadUpper(op: Op, rd: Word, imm20: Word)
    | BranchTo(op: Op, rs1: Word, rs2: Word, target: Word)
    | JumpTo(rd: Word, target: Word)
    | JumpThrough(rd: Word, rs1: Word, offset: int)
    | LoadFrom(op: Op, rd: Word, rs1: Word, offset: int)
    | StoreTo(op: Op, rs2: Word, rs1: Word, offset: int)
    | Reserve(rd: Word, rs1: Word)
    | AtomicAt(op: Op, rd: Word, rs2: Word, rs1: Word)
    | CsrAccess(op: Op, rd: Word, csr: Word, source: Word)
    | Plain(op: Op)
    | NoInstruction

  /** What the emulator takes from a word at an address, and nothing that it ignores. */
  function TakenFrom(op: Op, w: Word, pc: Word): Assembly {
    match KindOf(op)
    case RegisterKind => Compute(op, Rd(w), Rs1(w), Rs2(w))
    case ImmediateKind =>
      ComputeImmediate(op, Rd(w), Rs1(w),
                       if op == SLLI || op == SRLI || op == SRAI then Shamt(w) else ToWord(GetIImm(w)))
    case UpperKind => LoadUpper(op, Rd(w), w / 0x1000)
    case BranchKind => BranchTo(op, Rs1(w), Rs2(w), Target(GetBImm(w), pc))
    case JumpKind =>
      if op == JAL then JumpTo(Rd(w), Target(GetJImm(w), pc)) else JumpThrough(Rd(w), Rs1(w), GetIImm(w))
    case LoadKind => LoadFrom(op, Rd(w), Rs1(w), GetIImm(w))
    case StoreKind => StoreTo(op, Rs2(w), Rs1(w), GetSImm(w))
    case AtomicKind =>
      if op == LR_W then Reserve(Rd(w), Rs1(w)) else AtomicAt(op, Rd(w), Rs2(w), Rs1(w))
    case CsrKind => CsrAccess(op, Rd(w), GetIImmUnsigned(w), Rs1(w))
    case SystemKind => Plain(op)
  }

  function AssemblyOf(w: Word, pc: Word): Assembly {
    match FirstMatch(w, EMULATOR_CHAIN)
    case Unknown => NoInstruction
    case Selected(op) => TakenFrom(op, w, pc)
  }

  // operands by position

  function RegAt(s: seq<Operand>, i: nat): Word {
    if i < |s| && s[i].Reg? then s[i].r else 0
  }

  function DecAt(s: seq<Operand>, i: nat): int {
    if i < |s| && s[i].Dec? then s[i].n else 0
  }

  function HexAt(s: seq<Operand>, i: nat): Word {
    if i < |s| && s[i].Hex? then s[i].v else 0
  }

  function CsrAt(s: seq<Operand>, i: nat): Word {
    if i < |s| && s[i].Csr? && s[i].csr.Some? then s[i].csr.value else 0
  }

  function OffsetAt(s: seq<Operand>, i: nat): int {
    if i < |s| && s[i].Based? then s[i].offset else 0
  }

  function BaseAt(s: seq<Operand>, i: nat): Word {
    if i < |s| && (s[i].Based? || s[i].Indirect?) then s[i].base else 0
  }

  function SourceAt(op: Op, s: seq<Operand>, i: nat): Word {
    if TakesImmediate(op) then ToWord(DecAt(s, i)) else RegAt(s, i)
  }

  /** A line with the own mnemonic of an instruction. */
  function OwnMeaning(op: Op, s: seq<Operand>): Assembly {
    match KindOf(op)
    case RegisterKind => Compute(op, RegAt(s, 0), RegAt(s, 1), RegAt(s, 2))
    case ImmediateKind =>
      ComputeImmediate(op, RegAt(s, 0), RegAt(s, 1),
                       if op == SLLI || op == SRLI || op == SRAI then HexAt(s, 2) else ToWord(DecAt(s, 2)))
    case UpperKind => LoadUpper(op, RegAt(s, 0), HexAt(s, 1))
    case BranchKind => BranchTo(op, RegAt(s, 0), RegAt(s, 1), HexAt(s, 2))
    case JumpKind =>
      if op == JAL then JumpTo(RegAt(s, 0), HexAt(s, 1))
      else if |s| == 3 then JumpThrough(RegAt(s, 0), RegAt(s, 1), DecAt(s, 2))
      else if |s| == 1 && s[0].Reg? then JumpThrough(1, RegAt(s, 0), 0)
      else JumpThrough(BaseAt(s, 0), BaseAt(s, 0), OffsetAt(s, 0))
    case LoadKind => LoadFrom(op, RegAt(s, 0), BaseAt(s, 1), OffsetAt(s, 1))
    case StoreKind => StoreTo(op, RegAt(s, 0), BaseAt(s, 1), OffsetAt(s, 1))
    case AtomicKind =>
      if op == LR_W then Reserve(RegAt(s, 0), BaseAt(s, 1))
      else AtomicAt(op, RegAt(s, 0), RegAt(s, 1), BaseAt(s, 2))
    case CsrKind => CsrAccess(op, RegAt(s, 0), CsrAt(s, 1), SourceAt(op, s, 2))
    case SystemKind => Plain(op)
  }

  /** The aliases: the pseudoinstructions of chapter 25 of the RISC-V Unprivileged ISA stand
      for their base instructions. */
  function AliasMeaning(alias: Mnemonic, s: seq<Operand>): Assembly {
    match alias
    case Own(op) => OwnMeaning(op, s)
    case NOP => ComputeImmediate(ADDI, 0, 0, 0)
    case LI => ComputeImmediate(ADDI, RegAt(s, 0), 0, ToWord(DecAt(s, 1)))
    case MV => ComputeImmediate(ADDI, RegAt(s, 0), RegAt(s, 1), 0)
    case SEQZ => ComputeImmediate(SLTIU, RegAt(s, 0), RegAt(s, 1), 1)
    case NOT => ComputeImmediate(XORI, RegAt(s, 0), RegAt(s, 1), 0xFFFF_FFFF)
    case NEG => Compute(SUB, RegAt(s, 0), 0, RegAt(s, 1))
    case SNEZ => Compute(SLTU, RegAt(s, 0), 0, RegAt(s, 1))
    case SGTZ => Compute(SLT, RegAt(s, 0), 0, RegAt(s, 1))
    case BEQZ => BranchTo(BEQ, RegAt(s, 0), 0, HexAt(s, 1))
    case BNEZ => BranchTo(BNE, RegAt(s, 0), 0, HexAt(s, 1))
    case BGEZ => BranchTo(BGE, RegAt(s, 0), 0, HexAt(s, 1))
    case BLEZ => BranchTo(BGE, 0, RegAt(s, 0), HexAt(s, 1))
    case BLTZ => BranchTo(BLT, RegAt(s, 0), 0, HexAt(s, 1))
    case BGTZ => BranchTo(BLT, 0, RegAt(s, 0), HexAt(s, 1))
    case J => JumpTo(0, HexAt(s, 0))
    case RET => JumpThrough(0, 1, 0)
    case JR => JumpThrough(0, RegAt(s, 0), 0)
    case CSRR => CsrAccess(CSRRS, RegAt(s, 0), CsrAt(s, 1), 0)
    case CSRS => CsrAccess(CSRRS, 0, CsrAt(s, 0), RegAt(s, 1))
    case CSRW => CsrAccess(CSRRW, 0, CsrAt(s, 0), RegAt(s, 1))
    case CSRC => CsrAccess(CSRRC, 0, CsrAt(s, 0), RegAt(s, 1))
    case CSRSI => CsrAccess(CSRRSI, 0, CsrAt(s, 0), ToWord(DecAt(s, 1)))
    case CSRWI => CsrAccess(CSRRWI, 0, CsrAt(s, 0), ToWord(DecAt(s, 1)))
    case CSRCI => CsrAccess(CSRRCI, 0, CsrAt(s, 0), ToWord(DecAt(s, 1)))
  }

  /** What a line says in assembly language.  A jalr with one operand of the form
      offset(register) jumps through the register and links to it, as this disassembler
      means it. */
  function Meaning(line: Listing): Assembly {
    match line
    case UnknownInstruction(_) => NoInstruction
    case Line(mnemonic, operands) => AliasMeaning(mnemonic, operands)
  }

  // ---------------------------------------------------------------- listings are faithful

  lemma OwnMeans(op: Op, s: seq<Operand>)
    ensures Meaning(Line(Own(op), s)) == OwnMeaning(op, s)
  {
    hide OwnMeaning;
  }

  lemma RegisterLineMeans(op: Op, w: Word, pc: Word)
    requires KindOf(op) == RegisterKind
    ensures Meaning(RegisterLine(op, w)) == TakenFrom(op, w, pc)
  {
    hide Rd, Rs1, Rs2, KindOf;
    if (op == SLT || op == SLTU || op == SUB) && Rs1(w) == 0 {
      RegisterAliasMeans(op, w);
    } else {
      hide RegisterLine, Meaning;
      OwnLine(op, w);
      OwnMeans(op, [Reg(Rd(w)), Reg(Rs1(w)), Reg(Rs2(w))]);
    }
  }

  lemma OwnLine(op: Op, w: Word)
    requires (op == SLT || op == SLTU || op == SUB) ==> Rs1(w) != 0
    ensures RegisterLine(op, w) == ThreeRegisters(op, w)
  {
    hide Rd, Rs1, Rs2;
  }

  lemma RegisterAliasMeans(op: Op, w: Word)
    requires op == SLT || op == SLTU || op == SUB
    requires Rs1(w) == 0
    ensures Meaning(RegisterLine(op, w)) == Compute(op, Rd(w), 0, Rs2(w))
  {
    hide Rd, Rs1, Rs2;
  }

  lemma ImmediateLineMeans(op: Op, w: Word, pc: Word)
    requires KindOf(op) == ImmediateKind
    ensures Meaning(ImmediateLine(op, w)) == TakenFrom(op, w, pc)
  {
    hide KindOf, ImmediateLine, Meaning, TakenFrom;
    IsImmediate(op);
    if op == ADDI {
      AddiMeans(w, pc);
    } else if op == SLTIU {
      SltiuMeans(w, pc);
    } else if op == XORI {
      XoriMeans(w, pc);
    } else if op == SLLI || op == SRLI || op == SRAI {
      ShiftMeans(op, w, pc);
    } else {
      OtherImmediateMeans(op, w, pc);
    }
  }

  lemma IsImmediate(op: Op)
    requires KindOf(op) == ImmediateKind
    ensures op in {ADDI, SLTIU, XORI, SLLI, SRLI, SRAI, ANDI, ORI, SLTI}
  {
  }

  lemma AddiMeans(w: Word, pc: Word)
    ensures Meaning(ImmediateLine(ADDI, w)) == TakenFrom(ADDI, w, pc)
  {
    hide Rd, Rs1, GetIImm;
  }

  lemma SltiuMeans(w: Word, pc: Word)
    ensures Meaning(ImmediateLine(SLTIU, w)) == TakenFrom(SLTIU, w, pc)
  {
    hide Rd, Rs1, GetIImm, IField;
    IFieldIsImm(w);
  }

  lemma XoriMeans(w: Word, pc: Word)
    ensures Meaning(ImmediateLine(XORI, w)) == TakenFrom(XORI, w, pc)
  {
    hide Rd, Rs1, GetIImm, IField;
    IFieldIsImm(w);
  }

  lemma ShiftMeans(op: Op, w: Word, pc: Word)
    requires op == SLLI || op == SRLI || op == SRAI
    ensures Meaning(ImmediateLine(op, w)) == TakenFrom(op, w, pc)
  {
    hide Rd, Rs1, Shamt, GetIImm, IField;
  }

  lemma OtherImmediateMeans(op: Op, w: Word, pc: Word)
    requires op == ANDI || op == ORI || op == SLTI
    ensures Meaning(ImmediateLine(op, w)) == TakenFrom(op, w, pc)
  {
    hide Rd, Rs1, GetIImm, IField;
    IFieldIsImm(w);
  }

  lemma AtomicLineMeans(op: Op, w: Word, pc: Word)
    requires KindOf(op) == AtomicKind
    ensures Meaning(AtomicLine(op, w)) == TakenFrom(op, w, pc)
  {
    hide Rd, Rs1, Rs2, KindOf, Meaning;
    OwnMeans(op, AtomicLine(op, w).operands);
  }

  lemma OwnLineMeans(op: Op, w: Word, pc: Word, named: Word -> bool)
    requires var kind := KindOf(op); kind == UpperKind || kind == LoadKind || kind == StoreKind || kind == SystemKind
    ensures Meaning(LineOf(op, w, pc, named)) == TakenFrom(op, w, pc)
  {
    hide Rd, Rs1, Rs2, GetIImm, GetSImm, KindOf;
  }

  lemma BranchLineMeans(op: Op, w: Word, pc: Word)
    requires KindOf(op) == BranchKind
    ensures Meaning(BranchLine(op, w, pc)) == TakenFrom(op, w, pc)
  {
    hide Rs1, Rs2, GetBImm, Target, KindOf;
  }

  lemma JumpLineMeans(op: Op, w: Word, pc: Word)
    requires KindOf(op) == JumpKind
    ensures Meaning(JumpLine(op, w, pc)) == TakenFrom(op, w, pc)
  {
    hide Rd, Rs1, GetJImm, GetIImm, Target;
  }

  lemma CsrLineMeans(op: Op, w: Word, pc: Word, named: Word -> bool)
    requires KindOf(op) == CsrKind && named(GetIImmUnsigned(w))
    ensures Meaning(CsrLine(op, w, named)) == TakenFrom(op, w, pc)
  {
    hide Rd, Rs1, GetIImmUnsigned, OwnMeaning, KindOf, AliasMeaning;
    IsCsrOp(op);
    if op == CSRRS && Rs1(w) == 0 {
      CsrReadMeans(Rd(w), GetIImmUnsigned(w));
    } else if Rd(w) == 0 {
      ShortCsrMeans(op, GetIImmUnsigned(w), Rs1(w));
    } else {
      OwnCsrMeans(op, Rd(w), GetIImmUnsigned(w), Rs1(w));
    }
  }

  lemma IsCsrOp(op: Op)
    requires KindOf(op) == CsrKind
    ensures op == CSRRS || op == CSRRW || op == CSRRC || op == CSRRSI || op == CSRRWI || op == CSRRCI
  {
  }

  lemma CsrReadMeans(rd: Word, csr: Word)
    ensures AliasMeaning(CSRR, [Reg(rd), Csr(Some(csr))]) == CsrAccess(CSRRS, rd, csr, 0)
  {
  }

  lemma ShortCsrMeans(op: Op, csr: Word, rs1: Word)
    requires op == CSRRS || op == CSRRW || op == CSRRC || op == CSRRSI || op == CSRRWI || op == CSRRCI
    ensures AliasMeaning(ShortCsr(op), [Csr(Some(csr)), Source(op, rs1)]) == CsrAccess(op, 0, csr, rs1)
  {
  }

  lemma OwnCsrMeans(op: Op, rd: Word, csr: Word, rs1: Word)
    requires KindOf(op) == CsrKind
    ensures AliasMeaning(Own(op), [Reg(rd), Csr(Some(csr)), Source(op, rs1)]) == CsrAccess(op, rd, csr, rs1)
  {
    hide KindOf;
  }

  /** The words whose listing names everything: all but CSR instructions on a register that the
      table of names does not have. */
  predicate Nameable(w: Word, named: Word -> bool) {
    var selection := FirstMatch(w, EMULATOR_CHAIN);
    selection.Selected? && KindOf(selection.op) == CsrKind ==> named(GetIImmUnsigned(w))
  }

  lemma LineMeans(op: Op, w: Word, pc: Word, named: Word -> bool)
    requires KindOf(op) == CsrKind ==> named(GetIImmUnsigned(w))
    ensures Meaning(LineOf(op, w, pc, named)) == TakenFrom(op, w, pc)
  {
    hide KindOf, Meaning, TakenFrom, RegisterLine, ImmediateLine, BranchLine, JumpLine, AtomicLine, CsrLine;
    hide Rd, Rs1, Rs2, GetIImm, GetSImm, GetIImmUnsigned;
    match KindOf(op) {
      case RegisterKind => RegisterLineMeans(op, w, pc);
      case ImmediateKind => ImmediateLineMeans(op, w, pc);
      case BranchKind => BranchLineMeans(op, w, pc);
      case JumpKind => JumpLineMeans(op, w, pc);
      case AtomicKind => AtomicLineMeans(op, w, pc);
      case CsrKind => CsrLineMeans(op, w, pc, named);
      case _ => OwnLineMeans(op, w, pc, named);
    }
  }

  /** For every word and address, the listing says in assembly language exactly what the
      emulator takes from the word. */
  lemma ListingMeans(w: Word, pc: Word, named: Word -> bool)
    requires Nameable(w, named)
    ensures Meaning(Disassemble(w, pc, named)) == AssemblyOf(w, pc)
  {
    hide FirstMatch, FirstListed, LineOf, TakenFrom, Meaning, GetIImmUnsigned;
    BothProgramsSelect(w, ADD);
    match FirstMatch(w, EMULATOR_CHAIN) {
      case Selected(op) => LineMeans(op, w, pc, named);
      case Unknown => UnknownMeans(w);
    }
  }

  lemma UnknownMeans(w: Word)
    ensures Meaning(UnknownInstruction(w)) == NoInstruction
  {
  }

  // ---------------------------------------------------------------- the emulator takes nothing else

  /** The instruction of an assembly line. */
  function OpOfAssembly(a: Assembly): Op {
    match a
    case JumpTo(_, _) => JAL
    case JumpThrough(_, _, _) => JALR
    case Reserve(_, _) => LR_W
    case NoInstruction => ADD
    case _ => a.op
  }

  lemma TakenOp(op: Op, w: Word, pc: Word)
    ensures OpOfAssembly(TakenFrom(op, w, pc)) == op && TakenFrom(op, w, pc) != NoInstruction
  {
    hide KindOf, TakenFrom, OpOfAssembly;
    if KindOf(op) == JumpKind {
      IsJump(op);
      TakenJump(op, w, pc);
    } else if KindOf(op) == AtomicKind {
      TakenAtomic(op, w, pc);
    } else if KindOf(op) == RegisterKind || KindOf(op) == ImmediateKind || KindOf(op) == UpperKind {
      TakenCompute(op, w, pc);
    } else {
      TakenOther(op, w, pc);
    }
  }

  lemma TakenJump(op: Op, w: Word, pc: Word)
    requires KindOf(op) == JumpKind && (op == JAL || op == JALR)
    ensures OpOfAssembly(TakenFrom(op, w, pc)) == op && TakenFrom(op, w, pc) != NoInstruction
  {
    hide KindOf, Rd, Rs1, GetIImm, GetJImm, Target;
  }

  lemma TakenAtomic(op: Op, w: Word, pc: Word)
    requires KindOf(op) == AtomicKind
    ensures OpOfAssembly(TakenFrom(op, w, pc)) == op && TakenFrom(op, w, pc) != NoInstruction
  {
    hide KindOf, Rd, Rs1, Rs2;
  }

  lemma TakenCompute(op: Op, w: Word, pc: Word)
    requires KindOf(op) == RegisterKind || KindOf(op) == ImmediateKind || KindOf(op) == UpperKind
    ensures OpOfAssembly(TakenFrom(op, w, pc)) == op && TakenFrom(op, w, pc) != NoInstruction
  {
    hide KindOf, Rd, Rs1, Rs2, GetIImm, Shamt, ToWord;
  }

  lemma TakenOther(op: Op, w: Word, pc: Word)
    requires KindOf(op) in {BranchKind, LoadKind, StoreKind, CsrKind, SystemKind}
    ensures OpOfAssembly(TakenFrom(op, w, pc)) == op && TakenFrom(op, w, pc) != NoInstruction
  {
    hide KindOf, Rd, Rs1, Rs2, GetIImm, GetSImm, GetBImm, GetIImmUnsigned, Shamt, Target, ToWord;
  }

  lemma IsJump(op: Op)
    requires KindOf(op) == JumpKind
    ensures op == JAL || op == JALR
  {
  }

  lemma SameImmediate<M>(h: Hart<M>, op: Op, w: Word, w': Word, pc: Word)
    requires h.Shaped() && KindOf(op) == ImmediateKind && TakenFrom(op, w, pc) == TakenFrom(op, w', pc)
    ensures ImmediateOp(h, op, w) == ImmediateOp(h, op, w')
  {
    hide KindOf, RegisterResult, Rd, Rs1, GetIImm, ToWord, Shamt, ImmediateTwin;
    if op == SLLI || op == SRLI || op == SRAI {
      ShamtIsImm(w);
      ShamtIsImm(w');
      SameShift(op, h.x[Rs1(w)], ToWord(GetIImm(w)), ToWord(GetIImm(w')));
    }
  }

  lemma SameShift(op: Op, a: Word, b: Word, b': Word)
    requires (op == SLLI || op == SRLI || op == SRAI) && b % 32 == b' % 32
    ensures RegisterResult(ImmediateTwin(op), a, b) == RegisterResult(ImmediateTwin(op), a, b')
  {
  }

  lemma SameUpper<M>(h: Hart<M>, op: Op, w: Word, w': Word, pc: Word)
    requires h.Shaped() && KindOf(op) == UpperKind && TakenFrom(op, w, pc) == TakenFrom(op, w', pc)
    ensures UpperOp(h, op, w) == UpperOp(h, op, w')
  {
    hide KindOf, Rd, UpperOp;
    UpperAlike(h, op, w, w');
  }

  lemma UpperAlike<M>(h: Hart<M>, op: Op, w: Word, w': Word)
    requires h.Shaped() && Rd(w) == Rd(w') && w / 0x1000 == w' / 0x1000
    ensures UpperOp(h, op, w) == UpperOp(h, op, w')
  {
    hide Rd, ToWord, Upper;
    SameUpperBits(w, w');
  }

  lemma SameUpperBits(w: Word, w': Word)
    requires w / 0x1000 == w' / 0x1000
    ensures Upper(w) == Upper(w')
  {
  }

  lemma SameBranch<M>(h: Hart<M>, op: Op, w: Word, w': Word, pc: Word)
    requires h.Shaped() && h.pc == Add32(pc, 4)
    requires KindOf(op) == BranchKind && TakenFrom(op, w, pc) == TakenFrom(op, w', pc)
    ensures BranchOp(h, op, w) == BranchOp(h, op, w')
  {
    hide KindOf, Rs1, Rs2, Add32, GetBImm, Taken, ToWord, Target;
    SameTarget(pc, GetBImm(w), GetBImm(w'));
  }

  lemma SameJump<M>(h: Hart<M>, op: Op, w: Word, w': Word, pc: Word)
    requires h.Shaped() && h.pc == Add32(pc, 4)
    requires KindOf(op) == JumpKind && TakenFrom(op, w, pc) == TakenFrom(op, w', pc)
    ensures JumpOp(h, op, w) == JumpOp(h, op, w')
  {
    hide KindOf, JumpOp, Rd, Rs1, GetIImm, GetJImm, Target;
    IsJump(op);
    if op == JAL {
      SameLink(h, w, w', pc);
    } else {
      SameThrough(h, w, w');
    }
  }

  lemma SameLink<M>(h: Hart<M>, w: Word, w': Word, pc: Word)
    requires h.Shaped() && h.pc == Add32(pc, 4) && Rd(w) == Rd(w') && Target(GetJImm(w), pc) == Target(GetJImm(w'), pc)
    ensures JumpOp(h, JAL, w) == JumpOp(h, JAL, w')
  {
    hide Rd, Rs1, Add32, GetIImm, GetJImm, ToWord, Target;
    SameTarget(pc, GetJImm(w), GetJImm(w'));
  }

  lemma SameThrough<M>(h: Hart<M>, w: Word, w': Word)
    requires h.Shaped() && Rd(w) == Rd(w') && Rs1(w) == Rs1(w') && GetIImm(w) == GetIImm(w')
    ensures JumpOp(h, JALR, w) == JumpOp(h, JALR, w')
  {
    hide Rd, Rs1, GetIImm, GetJImm, ToWord;
  }

  /** The target that is printed is the one that the handler computes, though its pc is
      already 4 ahead. */
  lemma SameTarget(pc: Word, offset: int, offset': int)
    requires Target(offset, pc) == Target(offset', pc)
    ensures ToWord(Add32(pc, 4) + offset - 4) == ToWord(Add32(pc, 4) + offset' - 4)
  {
    hide Add32;
    PlusFourMinusFour(pc, offset);
    PlusFourMinusFour(pc, offset');
  }

  lemma SameMemoryAccess<M>(bus: Bus<M>, h: Hart<M>, op: Op, w: Word, w': Word, pc: Word, at: Word)
    requires h.Shaped() && TakenFrom(op, w, pc) == TakenFrom(op, w', pc)
    ensures KindOf(op) == LoadKind ==> LoadInto(bus, h, op, w, at) == LoadInto(bus, h, op, w', at)
    ensures KindOf(op) == StoreKind ==> StoreFrom(bus, h, op, w) == StoreFrom(bus, h, op, w')
  {
    hide KindOf, Rd, Rs1, Rs2, GetIImm, GetSImm, Read, Write, Extended, Truncated, WidthOf, Add32, ToWord;
  }

  lemma SameAtomic<M>(bus: Bus<M>, h: Hart<M>, op: Op, w: Word, w': Word, pc: Word, at: Word)
    requires h.Shaped() && KindOf(op) == AtomicKind && TakenFrom(op, w, pc) == TakenFrom(op, w', pc)
    ensures AtomicOp(bus, h, op, w, at) == AtomicOp(bus, h, op, w', at)
  {
    hide KindOf, Rd, Rs1, Rs2, Amo, SwapAmo, LoadReserve, StoreConditional;
    if op == LR_W {
      SameReserve(bus, h, w, w', at);
    } else {
      SameAmo(bus, h, op, w, w', at);
      SameSwap(bus, h, w, w', at);
      SameConditional(bus, h, w, w', at);
    }
  }

  lemma SameReserve<M>(bus: Bus<M>, h: Hart<M>, w: Word, w': Word, at: Word)
    requires h.Shaped() && Rd(w) == Rd(w') && Rs1(w) == Rs1(w')
    ensures LoadReserve(bus, h, w, at) == LoadReserve(bus, h, w', at)
  {
    hide Rd, Rs1, Read;
  }

  lemma SameAmo<M>(bus: Bus<M>, h: Hart<M>, op: Op, w: Word, w': Word, at: Word)
    requires h.Shaped() && Rd(w) == Rd(w') && Rs1(w) == Rs1(w') && Rs2(w) == Rs2(w')
    ensures Amo(bus, h, op, w, at) == Amo(bus, h, op, w', at)
  {
    hide Rd, Rs1, Rs2, Read, Write, AmoResult;
  }

  lemma SameSwap<M>(bus: Bus<M>, h: Hart<M>, w: Word, w': Word, at: Word)
    requires h.Shaped() && Rd(w) == Rd(w') && Rs1(w) == Rs1(w') && Rs2(w) == Rs2(w')
    ensures SwapAmo(bus, h, w, at) == SwapAmo(bus, h, w', at)
  {
    hide Rd, Rs1, Rs2, Read, Write;
  }

  lemma SameConditional<M>(bus: Bus<M>, h: Hart<M>, w: Word, w': Word, at: Word)
    requires h.Shaped() && Rd(w) == Rd(w') && Rs1(w) == Rs1(w') && Rs2(w) == Rs2(w')
    ensures StoreConditional(bus, h, w, at) == StoreConditional(bus, h, w', at)
  {
    hide Rd, Rs1, Rs2, Write;
  }

  lemma SameRegister<M>(h: Hart<M>, op: Op, w: Word, w': Word, pc: Word)
    requires h.Shaped() && TakenFrom(op, w, pc) == TakenFrom(op, w', pc)
    ensures KindOf(op) == RegisterKind ==> RegisterOp(h, op, w) == RegisterOp(h, op, w')
    ensures KindOf(op) == CsrKind ==> CsrOp(h, op, w) == CsrOp(h, op, w')
  {
    hide KindOf, Rd, Rs1, Rs2, RegisterResult, GetIImmUnsigned, Or32, And32, Not32;
  }

  /** A handler depends on the word only through what is taken from it. */
  lemma SameHandling<M>(bus: Bus<M>, h: Hart<M>, op: Op, w: Word, op': Op, w': Word, pc: Word, at: Word)
    requires h.Shaped() && h.pc == Add32(pc, 4) && TakenFrom(op, w, pc) == TakenFrom(op', w', pc)
    ensures op == op' && Handle(bus, h, op, w, at) == Handle(bus, h, op', w', at)
  {
    hide KindOf, TakenFrom, Handle, Add32;
    hide RegisterOp, ImmediateOp, UpperOp, BranchOp, JumpOp, LoadInto, StoreFrom, AtomicOp, CsrOp, SystemOp;
    TakenOp(op, w, pc);
    TakenOp(op', w', pc);
    HandleByKind(bus, h, op, w, at);
    HandleByKind(bus, h, op, w', at);
    match KindOf(op) {
      case ImmediateKind => SameImmediate(h, op, w, w', pc);
      case UpperKind => SameUpper(h, op, w, w', pc);
      case BranchKind => SameBranch(h, op, w, w', pc);
      case JumpKind => SameJump(h, op, w, w', pc);
      case LoadKind | StoreKind => SameMemoryAccess(bus, h, op, w, w', pc, at);
      case AtomicKind => SameAtomic(bus, h, op, w, w', pc, at);
      case RegisterKind | CsrKind => SameRegister(h, op, w, w', pc);
      case SystemKind =>
    }
  }

  lemma SameExecution<M>(bus: Bus<M>, h: Hart<M>, w: Word, w': Word, pc: Word, at: Word)
    requires h.Shaped() && h.pc == Add32(pc, 4) && AssemblyOf(w, pc) == AssemblyOf(w', pc)
    ensures Execute(bus, h, w, at) == Execute(bus, h, w', at)
  {
    hide FirstMatch, TakenFrom, Handle, Finish, Add32;
    var s, s' := FirstMatch(w, EMULATOR_CHAIN), FirstMatch(w', EMULATOR_CHAIN);
    if s.Selected? {
      TakenOp(s.op, w, pc);
      if s'.Selected? {
        SameHandling(bus, h, s.op, w, s'.op, w', pc, at);
      }
    } else if s'.Selected? {
      TakenOp(s'.op, w', pc);
    }
  }

  /** The listing determines behaviour: two words with the same listing at an address, in all
      their ignored bits and aliases, are executed alike there, from every state of the hart
      and of the memory. What is read again at `at` is the same in both. */
  lemma ListingDeterminesExecution<M>(bus: Bus<M>, h: Hart<M>, w: Word, w': Word, pc: Word, named: Word -> bool, at: Word)
    requires h.Shaped() && h.pc == Add32(pc, 4)
    requires Nameable(w, named) && Nameable(w', named)
    requires Disassemble(w, pc, named) == Disassemble(w', pc, named)
    ensures Execute(bus, h, w, at) == Execute(bus, h, w', at)
  {
    hide Execute, Disassemble, AssemblyOf, Meaning, Nameable, Add32;
    ListingMeans(w, pc, named);
    ListingMeans(w', pc, named);
    SameExecution(bus, h, w, w', pc, at);
  }

  // ---------------------------------------------------------------- the exception

  /** csrw of ra to a CSR: the word 0x9073 with the number in its upper twelve bits. */
  function WriteCsrWord(csr: Word): Word
    requires csr < 4096
  {
    0x9073 + csr * 0x10_0000
  }

  lemma WriteCsrFields(csr: Word)
    requires csr < 4096
    ensures var w := WriteCsrWord(csr);
            && IsA(w, CSRRW) && Rd(w) == 0 && Rs1(w) == 1 && GetIImmUnsigned(w) == csr
  {
    hide GetIImmUnsigned, PatternOf, Rd, Rs1;
    var w := WriteCsrWord(csr);
    IImmUnsignedValue(w);
    DivUnique(w, 0x10_0000, csr, 0x9073);
    CsrrwPattern();
    WriteCsrDigits(csr);
  }

  lemma CsrrwPattern()
    ensures PatternOf(CSRRW) == ByFunct3(0x73, 1)
  {
  }

  lemma WriteCsrDigits(csr: Word)
    requires csr < 4096
    ensures var w := WriteCsrWord(csr); Opcode(w) == 0x73 && Funct3(w) == 1 && Rd(w) == 0 && Rs1(w) == 1
  {
    hide Rd, Rs1;
    var w := WriteCsrWord(csr);
    DivUnique(w, 128, 0x120 + csr * 0x2000, 0x73);
    DivUnique(0x120 + csr * 0x2000, 32, 9 + csr * 0x100, 0);
    DivUnique(w, 0x1000, 9 + csr * 0x100, 0x73);
    DivUnique(9 + csr * 0x100, 8, 1 + csr * 0x20, 1);
    DivUnique(w, 0x8000, 1 + csr * 0x20, 0x1073);
    DivUnique(1 + csr * 0x20, 32, csr, 1);
    RegistersAt(w);
  }

  lemma RegistersAt(w: Word)
    ensures Rd(w) == w / 0x80 % 32 && Rs1(w) == w / 0x8000 % 32
  {
  }

  /** Words whose CSR numbers have no name are the exception: any two such numbers give two
      words with one listing that are executed differently, from every state without a
      pending exception in which the CSR does not hold the value already. */
  lemma UnnamedCsrsLookAlike<M>(bus: Bus<M>, h: Hart<M>, a: Word, b: Word, pc: Word, named: Word -> bool, at: Word)
    requires a < 4096 && b < 4096 && a != b && !named(a) && !named(b)
    requires h.Shaped() && h.life == Live && !h.hasPendingException && h.csr[a] != h.x[1]
    requires a != CSR_TIME && a != CSR_CYCLE
    ensures Disassemble(WriteCsrWord(a), pc, named) == Disassemble(WriteCsrWord(b), pc, named)
    ensures Execute(bus, h, WriteCsrWord(a), at) != Execute(bus, h, WriteCsrWord(b), at)
  {
    hide Disassemble, Execute, IsA, WriteCsrWord, Rd, Rs1, GetIImmUnsigned;
    WriteCsrFields(a);
    WriteCsrFields(b);
    SameCsrLine(WriteCsrWord(a), WriteCsrWord(b), pc, named);
    WriteCsrExecuted(bus, h, WriteCsrWord(a), a, a, at);
    WriteCsrExecuted(bus, h, WriteCsrWord(b), b, a, at);
  }

  lemma WriteCsrExecuted<M>(bus: Bus<M>, h: Hart<M>, w: Word, csr: Word, k: Word, at: Word)
    requires h.Shaped() && h.life == Live && !h.hasPendingException && csr < 4096
    requires IsA(w, CSRRW) && Rd(w) == 0 && Rs1(w) == 1 && GetIImmUnsigned(w) == csr
    requires k < 4096 && k != CSR_TIME && k != CSR_CYCLE
    ensures Execute(bus, h, w, at).csr[k] == if k == csr then h.x[1] else h.csr[k]
  {
    hide FirstMatch, IsA, Handle, Finish, Rd, Rs1, GetIImmUnsigned;
    EmulatorSelects(w, CSRRW);
    WriteCsrHandled(bus, h, w, csr, at);
    FinishPlain(Handle(bus, h, CSRRW, w, at));
  }

  lemma SameCsrLine(w: Word, w': Word, pc: Word, named: Word -> bool)
    requires IsA(w, CSRRW) && IsA(w', CSRRW)
    requires Rd(w) == Rd(w') == 0 && Rs1(w) == Rs1(w') && !named(GetIImmUnsigned(w)) && !named(GetIImmUnsigned(w'))
    ensures Disassemble(w, pc, named) == Disassemble(w', pc, named)
  {
    hide FirstListed, IsA, Rd, Rs1, GetIImmUnsigned, LineOf;
    BothProgramsSelect(w, CSRRW);
    BothProgramsSelect(w', CSRRW);
    SameWriteLine(w, w', pc, named);
  }

  lemma SameWriteLine(w: Word, w': Word, pc: Word, named: Word -> bool)
    requires Rd(w) == Rd(w') == 0 && Rs1(w) == Rs1(w') && !named(GetIImmUnsigned(w)) && !named(GetIImmUnsigned(w'))
    ensures LineOf(CSRRW, w, pc, named) == LineOf(CSRRW, w', pc, named)
  {
    hide Rd, Rs1, GetIImmUnsigned, LineOf;
    WriteLine(w, pc, named);
    WriteLine(w', pc, named);
  }

  lemma WriteLine(w: Word, pc: Word, named: Word -> bool)
    requires Rd(w) == 0 && !named(GetIImmUnsigned(w))
    ensures LineOf(CSRRW, w, pc, named) == Line(CSRW, [Csr(None), Reg(Rs1(w))])
  {
    hide Rd, Rs1, GetIImmUnsigned;
  }

  lemma WriteCsrHandled<M>(bus: Bus<M>, h: Hart<M>, w: Word, csr: Word, at: Word)
    requires h.Shaped() && csr < 4096 && Rd(w) == 0 && Rs1(w) == 1 && GetIImmUnsigned(w) == csr
    ensures Handle(bus, h, CSRRW, w, at) == h.SetCsr(csr, h.x[1])
  {
    hide Handle, CsrOp, RegisterOp, ImmediateOp, UpperOp, BranchOp, JumpOp, LoadInto, StoreFrom, AtomicOp, SystemOp;
    HandleByKind(bus, h, CSRRW, w, at);
    WriteCsrOp(h, w, csr);
  }

  lemma WriteCsrOp<M>(h: Hart<M>, w: Word, csr: Word)
    requires h.Shaped() && csr < 4096 && Rd(w) == 0 && Rs1(w) == 1 && GetIImmUnsigned(w) == csr
    ensures CsrOp(h, CSRRW, w) == h.SetCsr(csr, h.x[1])
  {
    hide Rd, Rs1, GetIImmUnsigned;
  }
}
