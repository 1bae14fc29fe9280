/** The disassembler's own copy of the mask/match table (disassembler/encoding.h) and its
    if-chain (disassemble_op), and the proof that it selects the same instruction as the
    emulator for every word. */
module ListingTable {
  import opened Words
  import opened Opcodes

  /** The mask of a row in the table of the disassembler (encoding.h). */
  function ListingMask(op: Op): Word {
    match op
    case ADD | AND | OR | SLL | SLT | SLTU | SRA | SRL | SUB | XOR | MUL | MULH | MULHSU | MULHU | DIV | DIVU
        | REM | REMU => 0xFE00_707F
    case ADDI | ANDI | BEQ | BGE | BGEU | BLT | BLTU | BNE | FENCE | FENCE_I | JALR | LB | LBU | LH | LHU | LW
        | ORI | SB | SH | SLTI | SLTIU | SW | XORI | CSRRS | CSRRW | CSRRC | CSRRSI | CSRRWI
        | CSRRCI => 0x707F
    case AUIPC | JAL | LUI => 0x7F
    case EBREAK | ECALL | WFI | MRET | SRET | URET => 0xFFFF_FFFF
    case SLLI | SRAI | SRLI => 0xFC00_707F
    case AMOADD_W | AMOOR_W | AMOAND_W | AMOXOR_W | AMOSWAP_W | SC_W => 0xF800_707F
    case LR_W => 0xF9F0_707F
    case SFENCE_VMA => 0xFE00_7FFF
  }

  function ListingMatch(op: Op): Word {
    match op
    case ADD => 0x33
    case ADDI => 0x13
    case AND => 0x7033
    case ANDI => 0x7013
    case AUIPC => 0x17
    case BEQ => 0x63
    case BGE => 0x5063
    case BGEU => 0x7063
    case BLT => 0x4063
    case BLTU => 0x6063
    case BNE => 0x1063
    case EBREAK => 0x10_0073
    case ECALL => 0x73
    case FENCE => 0xF
    case FENCE_I => 0x100F
    case JAL => 0x6F
    case JALR => 0x67
    case LB => 0x3
    case LBU => 0x4003
    case LH => 0x1003
    case LHU => 0x5003
    case LUI => 0x37
    case LW => 0x2003
    case OR => 0x6033
    case ORI => 0x6013
    case SB => 0x23
    case SH => 0x1023
    case SLL => 0x1033
    case SLLI => 0x1013
    case SLT => 0x2033
    case SLTI => 0x2013
    case SLTIU => 0x3013
    case SLTU => 0x3033
    case SRA => 0x4000_5033
    case SRAI => 0x4000_5013
    case SRL => 0x5033
    case SRLI => 0x5013
    case SUB => 0x4000_0033
    case SW => 0x2023
    case XOR => 0x4033
    case XORI => 0x4013
    case WFI => 0x1050_0073
    case MRET => 0x3020_0073
    case SRET => 0x1020_0073
    case URET => 0x20_0073
    case CSRRS => 0x2073
    case CSRRW => 0x1073
    case CSRRC => 0x3073
    case CSRRSI => 0x6073
    case CSRRWI => 0x5073
    case CSRRCI => 0x7073
    case AMOADD_W => 0x202F
    case AMOOR_W => 0x4000_202F
    case AMOAND_W => 0x6000_202F
    case AMOXOR_W => 0x2000_202F
    case AMOSWAP_W => 0x800_202F
    case LR_W => 0x1000_202F
    case SC_W => 0x1800_202F
    case SFENCE_VMA => 0x1200_0073
    case MUL => 0x200_0033
    case MULH => 0x200_1033
    case MULHSU => 0x200_2033
    case MULHU => 0x200_3033
    case DIV => 0x200_4033
    case DIVU => 0x200_5033
    case REM => 0x200_6033
    case REMU => 0x200_7033
  }

  /** The test of the INS_MATCH macro of the disassembler. */
  predicate Listed(w: Word, op: Op) {
    And32(w, ListingMask(op)) == ListingMatch(op)
  }

  // The arms of disassemble_op, top to bottom, by the extensions that enable them.

  const LISTING_BASE: seq<Op> := [
    ADD, ADDI, AND, ANDI, AUIPC, BEQ, BGE, BGEU, BLT, BLTU, BNE, EBREAK, ECALL, FENCE, FENCE_I,
    JAL, JALR, LB, LBU, LH, LHU, LUI, LW, OR, ORI, SB, SH, SLL, SLLI, SLT, SLTI, SLTIU, SLTU, SRA,
    SRAI, SRL, SRLI, SUB, SW, XOR, XORI
  ]

  const LISTING_PRIVILEGED: seq<Op> := [WFI, MRET, SRET, URET]

  const LISTING_ZICSR: seq<Op> := [CSRRS, CSRRW, CSRRC, CSRRSI, CSRRWI, CSRRCI]

  const LISTING_A: seq<Op> := [AMOADD_W, AMOOR_W, AMOAND_W, AMOXOR_W, AMOSWAP_W, LR_W, SC_W]

  const LISTING_M: seq<Op> := [MUL, MULH, MULHSU, MULHU, DIV, DIVU, REM, REMU]

  const DISASSEMBLER_CHAIN: seq<Op> :=
    LISTING_BASE + LISTING_PRIVILEGED + LISTING_ZICSR + LISTING_A + [SFENCE_VMA] + LISTING_M

  /** The if-chain of the disassembler takes the first arm whose test succeeds. */
  function FirstListed(w: Word, chain: seq<Op>): Selection {
    if chain == [] then Unknown
    else if Listed(w, chain[0]) then Selected(chain[0])
    else FirstListed(w, chain[1..])
  }

  // ---------------------------------------------------------------- the two tables

  /** The two tables have the same rows. */
  lemma SameRows(op: Op)
    ensures ListingMask(op) == MaskOf(op) && ListingMatch(op) == MatchOf(op)
  {
    SameMasks(op);
    SameMatches(op);
  }

  lemma SameMasks(op: Op)
    ensures ListingMask(op) == MaskOf(op)
  {
  }

  lemma SameMatches(op: Op)
    ensures ListingMatch(op) == MatchOf(op)
  {
  }

  /** Therefore the same arms select the same, whichever table they test with. */
  lemma {:induction false} SameTests(w: Word, chain: seq<Op>)
    ensures FirstListed(w, chain) == FirstMatch(w, chain)
  {
    hide ListingMask, ListingMatch, MaskOf, MatchOf;
    if chain == [] {
    } else {
      SameRows(chain[0]);
      SameTests(w, chain[1..]);
    }
  }

  lemma EveryRowIsListed(op: Op)
    ensures op in DISASSEMBLER_CHAIN
  {
    assert op in LISTING_BASE || op in LISTING_PRIVILEGED || op in LISTING_ZICSR || op in LISTING_A || op == SFENCE_VMA
        || op in LISTING_M;
  }

  /** Both programs select the same instruction for every word, and it is the one of which
      the word is an encoding, if there is one. */
  lemma BothProgramsSelect(w: Word, op: Op)
    ensures FirstListed(w, DISASSEMBLER_CHAIN) == FirstMatch(w, EMULATOR_CHAIN)
    ensures FirstListed(w, DISASSEMBLER_CHAIN) == Selected(op) <==> IsA(w, op)
  {
    hide FirstMatch, FirstListed, IsA;
    SameTests(w, DISASSEMBLER_CHAIN);
    forall arm
      ensures arm in DISASSEMBLER_CHAIN <==> arm in EMULATOR_CHAIN
    {
      EveryRowIsListed(arm);
      EveryRowHasAnArm(arm);
    }
    SameArms(w, DISASSEMBLER_CHAIN, EMULATOR_CHAIN);
    EmulatorSelects(w, op);
  }
}
