/** The mask/match table of opcodes.h, the if-chain of emulate_op, and the proof that every
    word matches at most one row: which instruction is selected does not depend on the order
    of the arms. */
module Opcodes {
  import opened Words

  /** One value for each row that the two chains use, in the order of their arms. */
  datatype Op =
    | ADD | ADDI | AND | ANDI | AUIPC | BEQ | BGE | BGEU | BLT | BLTU | BNE | EBREAK | ECALL | FENCE
    | FENCE_I | JAL | JALR | LB | LBU | LH | LHU | LUI | LW | OR | ORI | SB | SH | SLL | SLLI | SLT
    | SLTI | SLTIU | SLTU | SRA | SRAI | SRL | SRLI | SUB | SW | XOR | XORI | WFI | MRET | SRET
    | URET | CSRRS | CSRRW | CSRRC | CSRRSI | CSRRWI | CSRRCI | AMOADD_W | AMOOR_W | AMOAND_W
    | AMOXOR_W | AMOSWAP_W | LR_W | SC_W | SFENCE_VMA | MUL | MULH | MULHSU | MULHU | DIV | DIVU
    | REM | REMU

  /** The mask of the table row (opcodes.h). */
  function MaskOf(op: Op): Word {
    match op
    case ADD | AND | OR | SLL | SLT | SLTU | SRA | SRL | SUB | XOR | MUL | MULH | MULHSU | MULHU
        | DIV | DIVU | REM | REMU => 0xFE00_707F
    case ADDI | ANDI | BEQ | BGE | BGEU | BLT | BLTU | BNE | FENCE | FENCE_I | JALR | LB | LBU | LH
        | LHU | LW | ORI | SB | SH | SLTI | SLTIU | SW | XORI | CSRRS | CSRRW | CSRRC | CSRRSI
        | CSRRWI | CSRRCI => 0x707F
    case AUIPC | JAL | LUI => 0x7F
    case EBREAK | ECALL | WFI | MRET | SRET | URET => 0xFFFF_FFFF
    case SLLI | SRAI | SRLI => 0xFC00_707F
    case AMOADD_W | AMOOR_W | AMOAND_W | AMOXOR_W | AMOSWAP_W | SC_W => 0xF800_707F
    case LR_W => 0xF9F0_707F
    case SFENCE_VMA => 0xFE00_7FFF
  }

  /** The match value of the table row (opcodes.h). */
  function MatchOf(op: Op): Word {
    match op
    case ADD => 0x33
    case ADDI => 0x13
    case AND => 0x7033
    case ANDI => 0x7013
    case AUIPC => 0x17
    case BEQ => 0x63
    case BGE => 0x5063
    case BGEU => 0x7063
    case BLT => 0x4063
    case BLTU => 0x6063
    case BNE => 0x1063
    case EBREAK => 0x10_0073
    case ECALL => 0x73
    case FENCE => 0xF
    case FENCE_I => 0x100F
    case JAL => 0x6F
    case JALR => 0x67
    case LB => 0x3
    case LBU => 0x4003
    case LH => 0x1003
    case LHU => 0x5003
    case LUI => 0x37
    case LW => 0x2003
    case OR => 0x6033
    case ORI => 0x6013
    case SB => 0x23
    case SH => 0x1023
    case SLL => 0x1033
    case SLLI => 0x1013
    case SLT => 0x2033
    case SLTI => 0x2013
    case SLTIU => 0x3013
    case SLTU => 0x3033
    case SRA => 0x4000_5033
    case SRAI => 0x4000_5013
    case SRL => 0x5033
    case SRLI => 0x5013
    case SUB => 0x4000_0033
    case SW => 0x2023
    case XOR => 0x4033
    case XORI => 0x4013
    case WFI => 0x1050_0073
    case MRET => 0x3020_0073
    case SRET => 0x1020_0073
    case URET => 0x20_0073
    case CSRRS => 0x2073
    case CSRRW => 0x1073
    case CSRRC => 0x3073
    case CSRRSI => 0x6073
    case CSRRWI => 0x5073
    case CSRRCI => 0x7073
    case AMOADD_W => 0x202F
    case AMOOR_W => 0x4000_202F
    case AMOAND_W => 0x6000_202F
    case AMOXOR_W => 0x2000_202F
    case AMOSWAP_W => 0x800_202F
    case LR_W => 0x1000_202F
    case SC_W => 0x1800_202F
    case SFENCE_VMA => 0x1200_0073
    case MUL => 0x200_0033
    case MULH => 0x200_1033
    case MULHSU => 0x200_2033
    case MULHU => 0x200_3033
    case DIV => 0x200_4033
    case DIVU => 0x200_5033
    case REM => 0x200_6033
    case REMU => 0x200_7033
  }

  /** The test of the INS_MATCH macro. */
  predicate Matches(w: Word, op: Op) {
    And32(w, MaskOf(op)) == MatchOf(op)
  }

  // The arms of the chains, group by group, in their order.

  const BASE_ARMS: seq<Op> := [
    ADD, ADDI, AND, ANDI, AUIPC, BEQ, BGE, BGEU, BLT, BLTU, BNE, EBREAK, ECALL, FENCE, FENCE_I, JAL,
    JALR, LB, LBU, LH, LHU, LUI, LW, OR, ORI, SB, SH, SLL, SLLI, SLT, SLTI, SLTIU, SLTU, SRA, SRAI,
    SRL, SRLI, SUB, SW, XOR, XORI
  ]

  const PRIVILEGED_ARMS: seq<Op> := [
    WFI, MRET, SRET, URET
  ]

  const CSR_ARMS: seq<Op> := [
    CSRRS, CSRRW, CSRRC, CSRRSI, CSRRWI, CSRRCI
  ]

  const ATOMIC_ARMS: seq<Op> := [
    AMOADD_W, AMOOR_W, AMOAND_W, AMOXOR_W, AMOSWAP_W, LR_W, SC_W
  ]

  const MULTIPLY_ARMS: seq<Op> := [
    MUL, MULH, MULHSU, MULHU, DIV, DIVU, REM, REMU
  ]

  /** The arms of emulate_op, top to bottom (cpu.c). */
  const EMULATOR_CHAIN: seq<Op> :=
    BASE_ARMS + PRIVILEGED_ARMS + CSR_ARMS + ATOMIC_ARMS + [SFENCE_VMA] + MULTIPLY_ARMS

  datatype Selection = Selected(op: Op) | Unknown

  /** An if-chain takes the first arm whose test succeeds. */
  function FirstMatch(w: Word, chain: seq<Op>): Selection {
    if chain == [] then Unknown
    else if Matches(w, chain[0]) then Selected(chain[0])
    else FirstMatch(w, chain[1..])
  }

  // ---------------------------------------------------------------- the instruction listing

  /** The fields of a word that tell instructions apart. */
  function Opcode(w: Word): nat { w % 128 }
  function Funct3(w: Word): nat { w / 0x1000 % 8 }
  function Funct7(w: Word): nat { w / 0x200_0000 }
  function Funct6(w: Word): nat { w / 0x400_0000 }
  function Funct5(w: Word): nat { w / 0x800_0000 }

  /** Which fields single out an instruction in the listing of chapter 24 of the RISC-V
      Unprivileged ISA (and of the privileged instruction set), and their values.  Shift
      immediates have a six-bit upper field here: bit 25 is free. */
  datatype Pattern =
    | ByOpcode(opcode: nat)
    | ByFunct3(opcode: nat, funct3: nat)
    | ByFunct7(funct3: nat, funct7: nat)
    | ByFunct6(funct3: nat, funct6: nat)
    | ByFunct5(funct5: nat)
    | LoadReserved
    | Whole(word: Word)
    | FenceVma

  function PatternOf(op: Op): Pattern {
    match op
    case ADD => ByFunct7(0, 0)
    case ADDI => ByFunct3(0x13, 0)
    case AND => ByFunct7(7, 0)
    case ANDI => ByFunct3(0x13, 7)
    case AUIPC => ByOpcode(0x17)
    case BEQ => ByFunct3(0x63, 0)
    case BGE => ByFunct3(0x63, 5)
    case BGEU => ByFunct3(0x63, 7)
    case BLT => ByFunct3(0x63, 4)
    case BLTU => ByFunct3(0x63, 6)
    case BNE => ByFunct3(0x63, 1)
    case EBREAK => Whole(0x10_0073)
    case ECALL => Whole(0x73)
    case FENCE => ByFunct3(0x0F, 0)
    case FENCE_I => ByFunct3(0x0F, 1)
    case JAL => ByOpcode(0x6F)
    case JALR => ByFunct3(0x67, 0)
    case LB => ByFunct3(0x03, 0)
    case LBU => ByFunct3(0x03, 4)
    case LH => ByFunct3(0x03, 1)
    case LHU => ByFunct3(0x03, 5)
    case LUI => ByOpcode(0x37)
    case LW => ByFunct3(0x03, 2)
    case OR => ByFunct7(6, 0)
    case ORI => ByFunct3(0x13, 6)
    case SB => ByFunct3(0x23, 0)
    case SH => ByFunct3(0x23, 1)
    case SLL => ByFunct7(1, 0)
    case SLLI => ByFunct6(1, 0)
    case SLT => ByFunct7(2, 0)
    case SLTI => ByFunct3(0x13, 2)
    case SLTIU => ByFunct3(0x13, 3)
    case SLTU => ByFunct7(3, 0)
    case SRA => ByFunct7(5, 0x20)
    case SRAI => ByFunct6(5, 0x10)
    case SRL => ByFunct7(5, 0)
    case SRLI => ByFunct6(5, 0)
    case SUB => ByFunct7(0, 0x20)
    case SW => ByFunct3(0x23, 2)
    case XOR => ByFunct7(4, 0)
    case XORI => ByFunct3(0x13, 4)
    case WFI => Whole(0x1050_0073)
    case MRET => Whole(0x3020_0073)
    case SRET => Whole(0x1020_0073)
    case URET => Whole(0x20_0073)
    case CSRRS => ByFunct3(0x73, 2)
    case CSRRW => ByFunct3(0x73, 1)
    case CSRRC => ByFunct3(0x73, 3)
    case CSRRSI => ByFunct3(0x73, 6)
    case CSRRWI => ByFunct3(0x73, 5)
    case CSRRCI => ByFunct3(0x73, 7)
    case AMOADD_W => ByFunct5(0)
    case AMOOR_W => ByFunct5(8)
    case AMOAND_W => ByFunct5(12)
    case AMOXOR_W => ByFunct5(4)
    case AMOSWAP_W => ByFunct5(1)
    case LR_W => LoadReserved
    case SC_W => ByFunct5(3)
    case SFENCE_VMA => FenceVma
    case MUL => ByFunct7(0, 1)
    case MULH => ByFunct7(1, 1)
    case MULHSU => ByFunct7(2, 1)
    case MULHU => ByFunct7(3, 1)
    case DIV => ByFunct7(4, 1)
    case DIVU => ByFunct7(5, 1)
    case REM => ByFunct7(6, 1)
    case REMU => ByFunct7(7, 1)
  }

  predicate Fits(w: Word, pattern: Pattern) {
    match pattern
    case ByOpcode(opcode) => Opcode(w) == opcode
    case ByFunct3(opcode, funct3) => Opcode(w) == opcode && Funct3(w) == funct3
    case ByFunct7(funct3, funct7) => Opcode(w) == 0x33 && Funct3(w) == funct3 && Funct7(w) == funct7
    case ByFunct6(funct3, funct6) => Opcode(w) == 0x13 && Funct3(w) == funct3 && Funct6(w) == funct6
    case ByFunct5(funct5) => Opcode(w) == 0x2F && Funct3(w) == 2 && Funct5(w) == funct5
    case LoadReserved => Opcode(w) == 0x2F && Funct3(w) == 2 && Funct5(w) == 2 && w / 0x10_0000 % 32 == 0
    case Whole(word) => w == word
    case FenceVma => w % 0x8000 == 0x73 && Funct7(w) == 9
  }

  /** The word is an encoding of an op instruction, as far as the pattern tells. */
  predicate IsA(w: Word, op: Op) {
    Fits(w, PatternOf(op))
  }

  // ---------------------------------------------------------------- what the masks keep

  /** Digits above position 25 do not show in opcode and funct3. */
  lemma Cut(low: nat, high: nat)
    ensures (low + high * 0x200_0000) % 128 == low % 128
    ensures (low + high * 0x200_0000) / 0x1000 % 8 == low / 0x1000 % 8
  {
    var n := low + high * 0x200_0000;
    DivUnique(n, 128, low / 128 + high * 0x4_0000, low % 128);
    DivUnique(n, 0x1000, low / 0x1000 + high * 0x2000, low % 0x1000);
    DivUnique(n / 0x1000, 8, low / 0x1000 / 8 + high * 0x400, low / 0x1000 % 8);
  }

  lemma Mask7f(w: nat)
    ensures And(w, 0x7F) == w % 128
  {
    Pow2Values();
    AndOnesAt(w, 7, 128);
  }

  /** opcode and funct3 */
  lemma Mask707f(w: nat)
    ensures And(w, 0x707F) == w % 128 + w / 0x1000 % 8 * 0x1000
  {
    Split707f(w);
    Mask7f(w % 0x1000);
    DivDiv(w, 128, 32);
  }

  lemma Split707f(w: nat)
    ensures And(w, 0x707F) == And(w % 0x1000, 0x7F) + w / 0x1000 % 8 * 0x1000
  {
    Pow2Values();
    HighLowAt(w, 12, 0x1000);
    HighLowAt(0x707F, 12, 0x1000);
    AndParts(w, 0x707F, 12, 0x1000, 0x7F, 7);
    AndOnesAt(w / 0x1000, 3, 8);
  }

  lemma Split25(w: Word, mask: Word, low: nat, high: nat)
    requires mask == low + high * 0x200_0000 && low < 0x200_0000
    ensures And(w, mask) == And(w % 0x200_0000, low) + And(w / 0x200_0000, high) * 0x200_0000
  {
    At25(w);
    At25(mask);
    DivUnique(mask, 0x200_0000, high, low);
    AndParts(w, mask, 25, 0x200_0000, low, high);
  }

  lemma At25(w: nat)
    ensures Pow2(25) == 0x200_0000 && High(w, 25) == w / 0x200_0000 && Low(w, 25) == w % 0x200_0000
  {
    Pow2Values();
    HighLowAt(w, 25, 0x200_0000);
  }

  /** A mask that adds a group of the upper seven digits to opcode and funct3. */
  lemma MaskUpper(w: Word, mask: Word, high: nat)
    requires mask == 0x707F + high * 0x200_0000
    ensures And(w, mask) == w % 128 + w / 0x1000 % 8 * 0x1000 + And(w / 0x200_0000, high) * 0x200_0000
  {
    Split25(w, mask, 0x707F, high);
    Mask707f(w % 0x200_0000);
    Cut(w % 0x200_0000, w / 0x200_0000);
  }

  lemma TopSeven(n: nat)
    requires n < 128
    ensures And(n, 0x7F) == n
  {
    Pow2Values();
    AndOnesAt(n, 7, 128);
  }

  lemma TopSix(n: nat)
    requires n < 128
    ensures And(n, 0x7E) == n / 2 * 2
  {
    Pow2Values();
    AndOnesAt(n / 2, 6, 64);
    AndDouble(n, 0x7E);
  }

  lemma TopFive(n: nat)
    requires n < 128
    ensures And(n, 0x7C) == n / 4 * 4
  {
    Pow2Values();
    HighLowAt(n, 2, 4);
    HighLowAt(0x7C, 2, 4);
    AndParts(n, 0x7C, 2, 4, 0, 0x1F);
    AndOnesAt(n / 4, 5, 32);
  }

  /** What each mask of the table keeps, as arithmetic on the word. */
  lemma MaskFe00707f(w: Word)
    ensures And(w, 0xFE00_707F) == w % 128 + w / 0x1000 % 8 * 0x1000 + w / 0x200_0000 * 0x200_0000
  {
    MaskUpper(w, 0xFE00_707F, 0x7F);
    TopSeven(w / 0x200_0000);
  }

  lemma MaskFc00707f(w: Word)
    ensures And(w, 0xFC00_707F) == w % 128 + w / 0x1000 % 8 * 0x1000 + w / 0x400_0000 * 0x400_0000
  {
    MaskUpper(w, 0xFC00_707F, 0x7E);
    TopSix(w / 0x200_0000);
    DivDiv(w, 0x200_0000, 2);
  }

  lemma MaskF800707f(w: Word)
    ensures And(w, 0xF800_707F) == w % 128 + w / 0x1000 % 8 * 0x1000 + w / 0x800_0000 * 0x800_0000
  {
    MaskUpper(w, 0xF800_707F, 0x7C);
    TopFive(w / 0x200_0000);
    DivDiv(w, 0x200_0000, 4);
  }

  lemma MaskF9f0707f(w: Word)
    ensures And(w, 0xF9F0_707F) ==
      w % 128 + w / 0x1000 % 8 * 0x1000 + w / 0x10_0000 % 32 * 0x10_0000 + w / 0x800_0000 * 0x800_0000
  {
    Split25(w, 0xF9F0_707F, 0x1F0_707F, 0x7C);
    TopFive(w / 0x200_0000);
    DivDiv(w, 0x200_0000, 4);
    Mask1f0707f(w % 0x200_0000);
    Cut(w % 0x200_0000, w / 0x200_0000);
    MidFive(w);
  }

  lemma MidFive(w: Word)
    ensures w % 0x200_0000 / 0x10_0000 == w / 0x10_0000 % 32
  {
    DivUnique(w, 0x10_0000, w % 0x200_0000 / 0x10_0000 + w / 0x200_0000 * 32, w % 0x200_0000 % 0x10_0000);
    DivUnique(w / 0x10_0000, 32, w / 0x200_0000, w % 0x200_0000 / 0x10_0000);
  }

  lemma Mask1f0707f(w: nat)
    requires w < 0x200_0000
    ensures And(w, 0x1F0_707F) == w % 128 + w / 0x1000 % 8 * 0x1000 + w / 0x10_0000 * 0x10_0000
  {
    Pow2Values();
    HighLowAt(w, 20, 0x10_0000);
    HighLowAt(0x1F0_707F, 20, 0x10_0000);
    AndParts(w, 0x1F0_707F, 20, 0x10_0000, 0x707F, 0x1F);
    AndOnesAt(w / 0x10_0000, 5, 32);
    Mask707f(w % 0x10_0000);
    CutAt20(w % 0x10_0000, w / 0x10_0000);
  }

  lemma CutAt20(low: nat, high: nat)
    ensures (low + high * 0x10_0000) % 128 == low % 128
    ensures (low + high * 0x10_0000) / 0x1000 % 8 == low / 0x1000 % 8
  {
    var n := low + high * 0x10_0000;
    DivUnique(n, 128, low / 128 + high * 0x2000, low % 128);
    DivUnique(n, 0x1000, low / 0x1000 + high * 0x100, low % 0x1000);
    DivUnique(n / 0x1000, 8, low / 0x1000 / 8 + high * 0x20, low / 0x1000 % 8);
  }

  lemma MaskFe007fff(w: Word)
    ensures And(w, 0xFE00_7FFF) == w % 0x8000 + w / 0x200_0000 * 0x200_0000
  {
    Split25(w, 0xFE00_7FFF, 0x7FFF, 0x7F);
    TopSeven(w / 0x200_0000);
    Pow2Values();
    AndOnesAt(w % 0x200_0000, 15, 0x8000);
    DivUnique(w, 0x8000, w % 0x200_0000 / 0x8000 + w / 0x200_0000 * 0x400, w % 0x200_0000 % 0x8000);
  }

  lemma MaskAll(w: Word)
    ensures And(w, 0xFFFF_FFFF) == w
  {
    WordDigits();
    AndOnesAt(w, 32, 0x1_0000_0000);
  }

  // ---------------------------------------------------------------- rows and patterns

  /** A sum of separated fields determines the fields. */
  lemma FieldsUnique(a: nat, b: nat, c: nat, a': nat, b': nat, c': nat)
    requires a < 0x1000 && a' < 0x1000 && b < 8 && b' < 8
    requires a + b * 0x1000 + c * 0x200_0000 == a' + b' * 0x1000 + c' * 0x200_0000
    ensures a == a' && b == b' && c == c'
  {
  }

  /** mask and match of a row, and the pattern of its instruction, describe the same words. */
  predicate RowSays(mask: Word, value: Word, pattern: Pattern) {
    match pattern
    case ByOpcode(opcode) => mask == 0x7F && value == opcode < 128
    case ByFunct3(opcode, funct3) => mask == 0x707F && opcode < 128 && funct3 < 8 && value == opcode + funct3 * 0x1000
    case ByFunct7(funct3, funct7) => mask == 0xFE00_707F && funct3 < 8 && value == 0x33 + funct3 * 0x1000 + funct7 * 0x200_0000
    case ByFunct6(funct3, funct6) => mask == 0xFC00_707F && funct3 < 8 && value == 0x13 + funct3 * 0x1000 + funct6 * 0x400_0000
    case ByFunct5(funct5) => mask == 0xF800_707F && value == 0x202F + funct5 * 0x800_0000
    case LoadReserved => mask == 0xF9F0_707F && value == 0x1000_202F
    case Whole(word) => mask == 0xFFFF_FFFF && value == word
    case FenceVma => mask == 0xFE00_7FFF && value == 0x1200_0073
  }

  lemma RowSaysArith(op: Op)
    requires op == ADD || op == SUB || op == SLL || op == SLT || op == SLTU
    ensures RowSays(MaskOf(op), MatchOf(op), PatternOf(op))
  {
  }

  lemma RowSaysLogic(op: Op)
    requires op == XOR || op == SRL || op == SRA || op == OR || op == AND
    ensures RowSays(MaskOf(op), MatchOf(op), PatternOf(op))
  {
  }

  lemma RowSaysMul(op: Op)
    requires op == MUL || op == MULH || op == MULHSU || op == MULHU
    ensures RowSays(MaskOf(op), MatchOf(op), PatternOf(op))
  {
  }

  lemma RowSaysDiv(op: Op)
    requires op == DIV || op == DIVU || op == REM || op == REMU
    ensures RowSays(MaskOf(op), MatchOf(op), PatternOf(op))
  {
  }

  lemma RowSaysImm(op: Op)
    requires op == ADDI || op == SLTI || op == SLTIU || op == XORI || op == ORI || op == ANDI
      || op == JALR
    ensures RowSays(MaskOf(op), MatchOf(op), PatternOf(op))
  {
  }

  lemma RowSaysShift(op: Op)
    requires op == SLLI || op == SRLI || op == SRAI || op == AUIPC || op == LUI || op == JAL
    ensures RowSays(MaskOf(op), MatchOf(op), PatternOf(op))
  {
  }

  lemma RowSaysBranch(op: Op)
    requires op == BEQ || op == BNE || op == BLT || op == BGE || op == BLTU || op == BGEU
    ensures RowSays(MaskOf(op), MatchOf(op), PatternOf(op))
  {
  }

  lemma RowSaysLoad(op: Op)
    requires op == LB || op == LH || op == LW || op == LBU || op == LHU
    ensures RowSays(MaskOf(op), MatchOf(op), PatternOf(op))
  {
  }

  lemma RowSaysStore(op: Op)
    requires op == SB || op == SH || op == SW || op == FENCE || op == FENCE_I
    ensures RowSays(MaskOf(op), MatchOf(op), PatternOf(op))
  {
  }

  lemma RowSaysCsr(op: Op)
    requires op == CSRRW || op == CSRRS || op == CSRRC || op == CSRRWI || op == CSRRSI
      || op == CSRRCI
    ensures RowSays(MaskOf(op), MatchOf(op), PatternOf(op))
  {
    hide RowSays, MaskOf, MatchOf, PatternOf;
    if op == CSRRW || op == CSRRS || op == CSRRC {
      RowSaysCsrRegister(op);
    } else {
      RowSaysCsrImmediate(op);
    }
  }

  lemma RowSaysCsrRegister(op: Op)
    requires op == CSRRW || op == CSRRS || op == CSRRC
    ensures RowSays(MaskOf(op), MatchOf(op), PatternOf(op))
  {
  }

  lemma RowSaysCsrImmediate(op: Op)
    requires op == CSRRWI || op == CSRRSI || op == CSRRCI
    ensures RowSays(MaskOf(op), MatchOf(op), PatternOf(op))
  {
  }

  lemma RowSaysSystem(op: Op)
    requires op == ECALL || op == EBREAK || op == WFI
    ensures RowSays(MaskOf(op), MatchOf(op), PatternOf(op))
  {
  }

  lemma RowSaysReturn(op: Op)
    requires op == MRET || op == SRET || op == URET
    ensures RowSays(MaskOf(op), MatchOf(op), PatternOf(op))
  {
  }

  lemma RowSaysAmo(op: Op)
    requires op == AMOADD_W || op == AMOOR_W || op == AMOAND_W || op == AMOXOR_W || op == AMOSWAP_W
      || op == LR_W || op == SC_W
    ensures RowSays(MaskOf(op), MatchOf(op), PatternOf(op))
  {
  }

  lemma EveryRowSays(op: Op)
    ensures RowSays(MaskOf(op), MatchOf(op), PatternOf(op))
  {
    if op == SFENCE_VMA {
      return;
    }
    hide *;
    match op {
      case ADD | SUB | SLL | SLT | SLTU =>
        RowSaysArith(op);
      case XOR | SRL | SRA | OR | AND =>
        RowSaysLogic(op);
      case MUL | MULH | MULHSU | MULHU =>
        RowSaysMul(op);
      case DIV | DIVU | REM | REMU =>
        RowSaysDiv(op);
      case ADDI | SLTI | SLTIU | XORI | ORI | ANDI | JALR =>
        RowSaysImm(op);
      case SLLI | SRLI | SRAI | AUIPC | LUI | JAL =>
        RowSaysShift(op);
      case BEQ | BNE | BLT | BGE | BLTU | BGEU =>
        RowSaysBranch(op);
      case LB | LH | LW | LBU | LHU =>
        RowSaysLoad(op);
      case SB | SH | SW | FENCE | FENCE_I =>
        RowSaysStore(op);
      case CSRRW | CSRRS | CSRRC | CSRRWI | CSRRSI | CSRRCI =>
        RowSaysCsr(op);
      case ECALL | EBREAK | WFI =>
        RowSaysSystem(op);
      case MRET | SRET | URET =>
        RowSaysReturn(op);
      case AMOADD_W | AMOOR_W | AMOAND_W | AMOXOR_W | AMOSWAP_W | LR_W | SC_W =>
        RowSaysAmo(op);
      case SFENCE_VMA =>
    }
  }

  lemma RowIffPattern(w: Word, mask: Word, value: Word, pattern: Pattern)
    requires RowSays(mask, value, pattern)
    ensures And(w, mask) == value <==> Fits(w, pattern)
  {
    match pattern {
      case ByOpcode(opcode) => Mask7f(w);
      case ByFunct3(opcode, funct3) => RowFunct3(w, opcode, funct3);
      case ByFunct7(funct3, funct7) => RowFunct7(w, funct3, funct7);
      case ByFunct6(funct3, funct6) => RowFunct6(w, funct3, funct6);
      case ByFunct5(funct5) => RowFunct5(w, funct5);
      case LoadReserved => RowLoadReserved(w);
      case Whole(word) => MaskAll(w);
      case FenceVma => RowFenceVma(w);
    }
  }

  lemma RowFunct3(w: Word, opcode: nat, funct3: nat)
    requires opcode < 128 && funct3 < 8
    ensures And(w, 0x707F) == opcode + funct3 * 0x1000 <==> Opcode(w) == opcode && Funct3(w) == funct3
  {
    Mask707f(w);
    if And(w, 0x707F) == opcode + funct3 * 0x1000 {
      FieldsUnique(Opcode(w), Funct3(w), 0, opcode, funct3, 0);
    }
  }

  lemma RowFunct7(w: Word, funct3: nat, funct7: nat)
    requires funct3 < 8
    ensures And(w, 0xFE00_707F) == 0x33 + funct3 * 0x1000 + funct7 * 0x200_0000 <==>
      Opcode(w) == 0x33 && Funct3(w) == funct3 && Funct7(w) == funct7
  {
    MaskFe00707f(w);
    if And(w, 0xFE00_707F) == 0x33 + funct3 * 0x1000 + funct7 * 0x200_0000 {
      FieldsUnique(Opcode(w), Funct3(w), Funct7(w), 0x33, funct3, funct7);
    }
  }

  lemma RowFunct6(w: Word, funct3: nat, funct6: nat)
    requires funct3 < 8
    ensures And(w, 0xFC00_707F) == 0x13 + funct3 * 0x1000 + funct6 * 0x400_0000 <==>
      Opcode(w) == 0x13 && Funct3(w) == funct3 && Funct6(w) == funct6
  {
    MaskFc00707f(w);
    if And(w, 0xFC00_707F) == 0x13 + funct3 * 0x1000 + funct6 * 0x400_0000 {
      FieldsUnique(Opcode(w), Funct3(w), Funct6(w) * 2, 0x13, funct3, funct6 * 2);
    }
  }

  lemma AtomicFields(opcode: nat, funct3: nat, rs2: nat, funct5: nat, funct5': nat)
    requires opcode < 128 && funct3 < 8 && rs2 < 32
    ensures opcode + funct3 * 0x1000 + rs2 * 0x10_0000 + funct5 * 0x800_0000 == 0x202F + funct5' * 0x800_0000
            <==> opcode == 0x2F && funct3 == 2 && rs2 == 0 && funct5 == funct5'
  {
  }

  lemma RowFunct5(w: Word, funct5: nat)
    ensures And(w, 0xF800_707F) == 0x202F + funct5 * 0x800_0000 <==>
      Opcode(w) == 0x2F && Funct3(w) == 2 && Funct5(w) == funct5
  {
    MaskF800707f(w);
    AtomicFields(Opcode(w), Funct3(w), 0, Funct5(w), funct5);
  }

  lemma RowLoadReserved(w: Word)
    ensures And(w, 0xF9F0_707F) == 0x1000_202F <==> Fits(w, LoadReserved)
  {
    MaskF9f0707f(w);
    AtomicFields(Opcode(w), Funct3(w), w / 0x10_0000 % 32, Funct5(w), 2);
  }

  lemma RowFenceVma(w: Word)
    ensures And(w, 0xFE00_7FFF) == 0x1200_0073 <==> Fits(w, FenceVma)
  {
    MaskFe007fff(w);
  }

  // ---------------------------------------------------------------- no word fits two patterns

  /** The one instruction that the fields of a word leave possible. */
  function ByFields(w: Word): Selection {
    match Opcode(w)
    case 0x33 => PickOp(Funct3(w), Funct7(w))
    case 0x13 => PickOpImm(Funct3(w), Funct6(w))
    case 0x63 => PickBranch(Funct3(w))
    case 0x03 => PickLoad(Funct3(w))
    case 0x23 => PickStore(Funct3(w))
    case 0x0F => PickFence(Funct3(w))
    case 0x17 => Selected(AUIPC)
    case 0x37 => Selected(LUI)
    case 0x6F => Selected(JAL)
    case 0x67 => if Funct3(w) == 0 then Selected(JALR) else Unknown
    case 0x73 => if Funct3(w) == 0 then PickSystem(w) else PickCsr(Funct3(w))
    case 0x2F => if Funct3(w) == 2 then PickAtomic(Funct5(w), w / 0x10_0000 % 32) else Unknown
    case _ => Unknown
  }

  function PickOp(funct3: nat, funct7: nat): Selection {
    match (funct7, funct3)
    case (0, 0) => Selected(ADD)
    case (0, 1) => Selected(SLL)
    case (0, 2) => Selected(SLT)
    case (0, 3) => Selected(SLTU)
    case (0, 4) => Selected(XOR)
    case (0, 5) => Selected(SRL)
    case (0, 6) => Selected(OR)
    case (0, 7) => Selected(AND)
    case (1, 0) => Selected(MUL)
    case (1, 1) => Selected(MULH)
    case (1, 2) => Selected(MULHSU)
    case (1, 3) => Selected(MULHU)
    case (1, 4) => Selected(DIV)
    case (1, 5) => Selected(DIVU)
    case (1, 6) => Selected(REM)
    case (1, 7) => Selected(REMU)
    case (0x20, 0) => Selected(SUB)
    case (0x20, 5) => Selected(SRA)
    case _ => Unknown
  }

  function PickOpImm(funct3: nat, funct6: nat): Selection {
    match funct3
    case 0 => Selected(ADDI)
    case 1 => if funct6 == 0 then Selected(SLLI) else Unknown
    case 2 => Selected(SLTI)
    case 3 => Selected(SLTIU)
    case 4 => Selected(XORI)
    case 5 => if funct6 == 0 then Selected(SRLI) else if funct6 == 0x10 then Selected(SRAI) else Unknown
    case 6 => Selected(ORI)
    case 7 => Selected(ANDI)
    case _ => Unknown
  }

  function PickBranch(funct3: nat): Selection {
    match funct3
    case 0 => Selected(BEQ)
    case 1 => Selected(BNE)
    case 4 => Selected(BLT)
    case 5 => Selected(BGE)
    case 6 => Selected(BLTU)
    case 7 => Selected(BGEU)
    case _ => Unknown
  }

  function PickLoad(funct3: nat): Selection {
    match funct3
    case 0 => Selected(LB)
    case 1 => Selected(LH)
    case 2 => Selected(LW)
    case 4 => Selected(LBU)
    case 5 => Selected(LHU)
    case _ => Unknown
  }

  function PickStore(funct3: nat): Selection {
    match funct3
    case 0 => Selected(SB)
    case 1 => Selected(SH)
    case 2 => Selected(SW)
    case _ => Unknown
  }

  function PickFence(funct3: nat): Selection {
    match funct3
    case 0 => Selected(FENCE)
    case 1 => Selected(FENCE_I)
    case _ => Unknown
  }

  function PickCsr(funct3: nat): Selection {
    match funct3
    case 1 => Selected(CSRRW)
    case 2 => Selected(CSRRS)
    case 3 => Selected(CSRRC)
    case 5 => Selected(CSRRWI)
    case 6 => Selected(CSRRSI)
    case 7 => Selected(CSRRCI)
    case _ => Unknown
  }

  function PickSystem(w: Word): Selection {
    if w == 0x73 then Selected(ECALL)
    else if w == 0x10_0073 then Selected(EBREAK)
    else if w == 0x20_0073 then Selected(URET)
    else if w == 0x1020_0073 then Selected(SRET)
    else if w == 0x1050_0073 then Selected(WFI)
    else if w == 0x3020_0073 then Selected(MRET)
    else if w % 0x8000 == 0x73 && Funct7(w) == 9 then Selected(SFENCE_VMA)
    else Unknown
  }

  function PickAtomic(funct5: nat, rs2: nat): Selection {
    match funct5
    case 0 => Selected(AMOADD_W)
    case 1 => Selected(AMOSWAP_W)
    case 2 => if rs2 == 0 then Selected(LR_W) else Unknown
    case 3 => Selected(SC_W)
    case 4 => Selected(AMOXOR_W)
    case 8 => Selected(AMOOR_W)
    case 12 => Selected(AMOAND_W)
    case _ => Unknown
  }

  lemma FindArith(w: Word, op: Op)
    requires op == ADD || op == SUB || op == SLL || op == SLT || op == SLTU
    requires IsA(w, op)
    ensures ByFields(w) == Selected(op)
  {
  }

  lemma FindLogic(w: Word, op: Op)
    requires op == XOR || op == SRL || op == SRA || op == OR || op == AND
    requires IsA(w, op)
    ensures ByFields(w) == Selected(op)
  {
  }

  lemma FindMul(w: Word, op: Op)
    requires op == MUL || op == MULH || op == MULHSU || op == MULHU
    requires IsA(w, op)
    ensures ByFields(w) == Selected(op)
  {
  }

  lemma FindDiv(w: Word, op: Op)
    requires op == DIV || op == DIVU || op == REM || op == REMU
    requires IsA(w, op)
    ensures ByFields(w) == Selected(op)
  {
  }

  lemma FindImm(w: Word, op: Op)
    requires op == ADDI || op == SLTI || op == SLTIU || op == XORI || op == ORI || op == ANDI
      || op == JALR
    requires IsA(w, op)
    ensures ByFields(w) == Selected(op)
  {
  }

  lemma FindShift(w: Word, op: Op)
    requires op == SLLI || op == SRLI || op == SRAI || op == AUIPC || op == LUI || op == JAL
    requires IsA(w, op)
    ensures ByFields(w) == Selected(op)
  {
  }

  lemma FindBranch(w: Word, op: Op)
    requires op == BEQ || op == BNE || op == BLT || op == BGE || op == BLTU || op == BGEU
    requires IsA(w, op)
    ensures ByFields(w) == Selected(op)
  {
  }

  lemma FindLoad(w: Word, op: Op)
    requires op == LB || op == LH || op == LW || op == LBU || op == LHU
    requires IsA(w, op)
    ensures ByFields(w) == Selected(op)
  {
  }

  lemma FindStore(w: Word, op: Op)
    requires op == SB || op == SH || op == SW || op == FENCE || op == FENCE_I
    requires IsA(w, op)
    ensures ByFields(w) == Selected(op)
  {
  }

  lemma FindCsr(w: Word, op: Op)
    requires op == CSRRW || op == CSRRS || op == CSRRC || op == CSRRWI || op == CSRRSI
      || op == CSRRCI
    requires IsA(w, op)
    ensures ByFields(w) == Selected(op)
  {
  }

  lemma FindSystem(w: Word, op: Op)
    requires op == ECALL || op == EBREAK || op == WFI
    requires IsA(w, op)
    ensures ByFields(w) == Selected(op)
  {
  }

  lemma FindReturn(w: Word, op: Op)
    requires op == MRET || op == SRET || op == URET
    requires IsA(w, op)
    ensures ByFields(w) == Selected(op)
  {
  }

  lemma FindAmo(w: Word, op: Op)
    requires op == AMOADD_W || op == AMOOR_W || op == AMOAND_W || op == AMOXOR_W || op == AMOSWAP_W
      || op == LR_W || op == SC_W
    requires IsA(w, op)
    ensures ByFields(w) == Selected(op)
  {
  }

  lemma FenceVmaFields(w: Word)
    requires w % 0x8000 == 0x73
    ensures Opcode(w) == 0x73 && Funct3(w) == 0
  {
    DivDiv(w, 128, 0x100);
    DivDiv(w, 0x1000, 8);
  }

  lemma FindFenceVma(w: Word)
    requires IsA(w, SFENCE_VMA)
    ensures ByFields(w) == Selected(SFENCE_VMA)
  {
    hide Opcode, Funct3;
    FenceVmaFields(w);
  }

  lemma FitsOnlyOne(w: Word, op: Op)
    requires IsA(w, op)
    ensures ByFields(w) == Selected(op)
  {
    hide *;
    match op {
      case ADD | SUB | SLL | SLT | SLTU =>
        FindArith(w, op);
      case XOR | SRL | SRA | OR | AND =>
        FindLogic(w, op);
      case MUL | MULH | MULHSU | MULHU =>
        FindMul(w, op);
      case DIV | DIVU | REM | REMU =>
        FindDiv(w, op);
      case ADDI | SLTI | SLTIU | XORI | ORI | ANDI | JALR =>
        FindImm(w, op);
      case SLLI | SRLI | SRAI | AUIPC | LUI | JAL =>
        FindShift(w, op);
      case BEQ | BNE | BLT | BGE | BLTU | BGEU =>
        FindBranch(w, op);
      case LB | LH | LW | LBU | LHU =>
        FindLoad(w, op);
      case SB | SH | SW | FENCE | FENCE_I =>
        FindStore(w, op);
      case CSRRW | CSRRS | CSRRC | CSRRWI | CSRRSI | CSRRCI =>
        FindCsr(w, op);
      case ECALL | EBREAK | WFI =>
        FindSystem(w, op);
      case MRET | SRET | URET =>
        FindReturn(w, op);
      case AMOADD_W | AMOOR_W | AMOAND_W | AMOXOR_W | AMOSWAP_W | LR_W | SC_W =>
        FindAmo(w, op);
      case SFENCE_VMA =>
        FindFenceVma(w);
    }
  }

  // ---------------------------------------------------------------- the chains

  /** The table of the source and the listing of the ISA say the same: a word matches a row
      exactly when it is an encoding of the instruction of the row; of the shifts by an
      immediate, when bit 25 is left out. */
  lemma MatchesIffIsA(w: Word, op: Op)
    ensures Matches(w, op) <==> IsA(w, op)
  {
    EveryRowSays(op);
    RowIffPattern(w, MaskOf(op), MatchOf(op), PatternOf(op));
  }

  /** Every word matches at most one row. */
  lemma AtMostOneRow(w: Word, op: Op, op': Op)
    requires Matches(w, op) && Matches(w, op')
    ensures op == op'
  {
    MatchesIffIsA(w, op);
    MatchesIffIsA(w, op');
    FitsOnlyOne(w, op);
    FitsOnlyOne(w, op');
  }

  /** An if-chain selects an instruction exactly when it has an arm for it and the word is
      an encoding of it; where the arm stands does not matter. */
  lemma {:induction false} ChainSelects(w: Word, chain: seq<Op>, op: Op)
    ensures FirstMatch(w, chain) == Selected(op) <==> IsA(w, op) && op in chain
  {
    hide Matches, IsA, ByFields;
    if chain == [] {
    } else {
      ChainSelects(w, chain[1..], op);
      MatchesIffIsA(w, chain[0]);
      if IsA(w, op) && IsA(w, chain[0]) {
        FitsOnlyOne(w, op);
        FitsOnlyOne(w, chain[0]);
      }
    }
  }

  /** Two chains with arms for the same instructions select the same. */
  lemma SameArms(w: Word, chain: seq<Op>, chain': seq<Op>)
    requires forall op :: op in chain <==> op in chain'
    ensures FirstMatch(w, chain) == FirstMatch(w, chain')
  {
    if FirstMatch(w, chain).Selected? {
      ChainSelects(w, chain, FirstMatch(w, chain).op);
      ChainSelects(w, chain', FirstMatch(w, chain).op);
    } else if FirstMatch(w, chain').Selected? {
      ChainSelects(w, chain, FirstMatch(w, chain').op);
      ChainSelects(w, chain', FirstMatch(w, chain').op);
    }
  }

  /** Reordering the arms never changes what a chain selects. */
  lemma OrderOfArmsIrrelevant(w: Word, chain: seq<Op>, chain': seq<Op>)
    requires multiset(chain) == multiset(chain')
    ensures FirstMatch(w, chain) == FirstMatch(w, chain')
  {
    forall op
      ensures op in chain <==> op in chain'
    {
      assert op in chain <==> op in multiset(chain);
      assert op in chain' <==> op in multiset(chain');
    }
    SameArms(w, chain, chain');
  }

  lemma EveryRowHasAnArm(op: Op)
    ensures op in EMULATOR_CHAIN
  {
    assert op in BASE_ARMS || op in PRIVILEGED_ARMS || op in CSR_ARMS || op in ATOMIC_ARMS
        || op == SFENCE_VMA || op in MULTIPLY_ARMS;
  }

  /** The emulator selects the instruction of which a word is an encoding, if there is one. */
  lemma EmulatorSelects(w: Word, op: Op)
    ensures FirstMatch(w, EMULATOR_CHAIN) == Selected(op) <==> IsA(w, op)
  {
    ChainSelects(w, EMULATOR_CHAIN, op);
    EveryRowHasAnArm(op);
  }
}
