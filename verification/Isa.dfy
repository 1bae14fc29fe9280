/** The instruction formats of sections 2.2 and 2.3 of the RISC-V Unprivileged ISA
    (version 20191213): how fields and immediates are laid out in a word, and that the
    decoders of decode.c are the two-sided inverse of that layout. */
module Isa {
  import opened Words
  import opened Decode
  import opened Opcodes

  // ---------------------------------------------------------------- the six bit groups

  /** Every format is cut at the same places: bits 0-6, 7-11, 12-14, 15-19, 20-24, 25-31. */
  function Join(opcode: nat, low: nat, funct3: nat, rs1: nat, rs2: nat, high: nat): nat {
    opcode + low * 0x80 + funct3 * 0x1000 + rs1 * 0x8000 + rs2 * 0x10_0000 + high * 0x200_0000
  }

  predicate InGroups(opcode: nat, low: nat, funct3: nat, rs1: nat, rs2: nat, high: nat) {
    opcode < 128 && low < 32 && funct3 < 8 && rs1 < 32 && rs2 < 32 && high < 128
  }

  lemma Peel(low: nat, rest: nat, d: nat)
    requires d > 0 && low < d
    ensures (low + d * rest) / d == rest && (low + d * rest) % d == low
  {
    DivUnique(low + d * rest, d, rest, low);
  }

  lemma JoinGroups(opcode: nat, low: nat, funct3: nat, rs1: nat, rs2: nat, high: nat)
    requires InGroups(opcode, low, funct3, rs1, rs2, high)
    ensures var w := Join(opcode, low, funct3, rs1, rs2, high);
            && w < 0x1_0000_0000
            && Opcode(w) == opcode && w / 0x80 % 32 == low && Funct3(w) == funct3
            && w / 0x8000 % 32 == rs1 && w / 0x10_0000 % 32 == rs2 && Funct7(w) == high
  {
    Peel(opcode, low + 32 * (funct3 + 8 * (rs1 + 32 * (rs2 + 32 * high))), 0x80);
    Peel(low, funct3 + 8 * (rs1 + 32 * (rs2 + 32 * high)), 32);
    Peel(opcode + low * 0x80, funct3 + 8 * (rs1 + 32 * (rs2 + 32 * high)), 0x1000);
    Peel(funct3, rs1 + 32 * (rs2 + 32 * high), 8);
    Peel(opcode + low * 0x80 + funct3 * 0x1000, rs1 + 32 * (rs2 + 32 * high), 0x8000);
    Peel(rs1, rs2 + 32 * high, 32);
    Peel(opcode + low * 0x80 + funct3 * 0x1000 + rs1 * 0x8000, rs2 + 32 * high, 0x10_0000);
    Peel(rs2, high, 32);
    Peel(opcode + low * 0x80 + funct3 * 0x1000 + rs1 * 0x8000 + rs2 * 0x10_0000, high, 0x200_0000);
  }

  lemma GroupsJoin(w: Word)
    ensures InGroups(Opcode(w), w / 0x80 % 32, Funct3(w), w / 0x8000 % 32, w / 0x10_0000 % 32, Funct7(w))
    ensures Join(Opcode(w), w / 0x80 % 32, Funct3(w), w / 0x8000 % 32, w / 0x10_0000 % 32, Funct7(w)) == w
  {
    DivDiv(w, 0x80, 32);
    DivDiv(w, 0x1000, 8);
    DivDiv(w, 0x8000, 32);
    DivDiv(w, 0x10_0000, 32);
  }

  // ---------------------------------------------------------------- immediates in their groups

  // An immediate is any integer; its bits are those of its two's-complement form, so that
  // / and % by powers of two give bit groups of negative immediates as well.

  function ILow(imm: int): nat { imm % 32 }
  function IHigh(imm: int): nat { imm / 32 % 128 }

  function BLow(imm: int): nat { imm / 0x800 % 2 + imm / 2 % 16 * 2 }
  function BHigh(imm: int): nat { imm / 0x20 % 64 + imm / 0x1000 % 2 * 64 }

  function JRs2(imm: int): nat { imm / 0x800 % 2 + imm / 2 % 16 * 2 }
  function JHigh(imm: int): nat { imm / 0x20 % 64 + imm / 0x10_0000 % 2 * 64 }

  /** I-type: imm[11:0] in bits 31-20. */
  function EncodeI(opcode: nat, rd: nat, funct3: nat, rs1: nat, imm: int): nat {
    Join(opcode, rd, funct3, rs1, ILow(imm), IHigh(imm))
  }

  /** S-type: imm[11:5] in bits 31-25, imm[4:0] in bits 11-7. */
  function EncodeS(opcode: nat, funct3: nat, rs1: nat, rs2: nat, imm: int): nat {
    Join(opcode, ILow(imm), funct3, rs1, rs2, IHigh(imm))
  }

  /** B-type: imm[12|10:5] in bits 31-25, imm[4:1|11] in bits 11-7. */
  function EncodeB(opcode: nat, funct3: nat, rs1: nat, rs2: nat, imm: int): nat {
    Join(opcode, BLow(imm), funct3, rs1, rs2, BHigh(imm))
  }

  /** U-type: imm[31:12] in bits 31-12. */
  function EncodeU(opcode: nat, rd: nat, imm20: nat): nat {
    Join(opcode, rd, imm20 % 8, imm20 / 8 % 32, imm20 / 0x100 % 32, imm20 / 0x2000 % 128)
  }

  /** J-type: imm[20|10:1|11|19:12] in bits 31-12. */
  function EncodeJ(opcode: nat, rd: nat, imm: int): nat {
    Join(opcode, rd, imm / 0x1000 % 8, imm / 0x8000 % 32, JRs2(imm), JHigh(imm))
  }

  // The decoders in terms of the groups of the word.

  lemma IImmOfGroups(w: Word)
    ensures GetIImm(w) == w / 0x10_0000 % 32 + Funct7(w) * 32 - Funct7(w) / 64 * 0x1000
  {
    IImmValue(w);
    DivDiv(w, 0x10_0000, 32);
    DivDiv(w, 0x200_0000, 64);
  }

  lemma SImmOfGroups(w: Word)
    ensures GetSImm(w) == w / 0x80 % 32 + Funct7(w) * 32 - Funct7(w) / 64 * 0x1000
  {
    SImmValue(w);
    DivDiv(w, 0x200_0000, 64);
  }

  lemma BImmOfGroups(w: Word)
    ensures var low := w / 0x80 % 32;
            GetBImm(w) == low / 2 * 2 + Funct7(w) % 64 * 0x20 + low % 2 * 0x800 - Funct7(w) / 64 * 0x1000
  {
    BImmValue(w);
    DivDiv(w, 0x200_0000, 64);
    HalfGroup(w / 0x80);
    DivDiv(w, 0x80, 2);
  }

  lemma HalfGroup(n: nat)
    ensures n % 32 / 2 == n / 2 % 16 && n % 32 % 2 == n % 2
  {
    DivDiv(n, 2, 16);
    DivUnique(n % 32, 2, n / 2 % 16, n % 2);
  }

  lemma JImmOfGroups(w: Word)
    ensures var rs2 := w / 0x10_0000 % 32;
            GetJImm(w) == rs2 / 2 * 2 + Funct7(w) % 64 * 0x20 + rs2 % 2 * 0x800
                          + (Funct3(w) + w / 0x8000 % 32 * 8) * 0x1000 - Funct7(w) / 64 * 0x10_0000
  {
    JImmValue(w);
    JMiddle(w);
    JUpper(w);
  }

  lemma JMiddle(w: Word)
    ensures w / 0x1000 % 0x100 == Funct3(w) + w / 0x8000 % 32 * 8
  {
    DivDiv(w, 0x1000, 8);
    var n := w / 0x1000;
    DivUnique(n, 0x100, n / 8 / 32, n % 8 + n / 8 % 32 * 8);
  }

  lemma JUpper(w: Word)
    ensures w / 0x20_0000 % 0x400 == w / 0x10_0000 % 32 / 2 + Funct7(w) % 64 * 16
    ensures w / 0x10_0000 % 2 == w / 0x10_0000 % 32 % 2
    ensures w / 0x8000_0000 == Funct7(w) / 64
  {
    var n := w / 0x10_0000;
    HalfGroup(n);
    DivDiv(w, 0x10_0000, 2);
    DivDiv(w, 0x10_0000, 32);
    DivDiv(w, 0x200_0000, 64);
    DivDiv(n, 2, 16);
    DivUnique(n / 2, 0x400, n / 2 / 16 / 64, n / 2 % 16 + n / 2 / 16 % 64 * 16);
  }

  // ---------------------------------------------------------------- decoders after encoders

  /** Every I-immediate that fits comes back from the word that carries it. */
  lemma DecodeI(opcode: nat, rd: nat, funct3: nat, rs1: nat, imm: int)
    requires opcode < 128 && rd < 32 && funct3 < 8 && rs1 < 32
    requires -0x800 <= imm < 0x800
    ensures var w := EncodeI(opcode, rd, funct3, rs1, imm);
            && w < 0x1_0000_0000 && Opcode(w) == opcode && Rd(w) == rd && Funct3(w) == funct3 && Rs1(w) == rs1
            && GetIImm(w) == imm
            && Rs2(w) == ILow(imm) && Funct7(w) == IHigh(imm)
  {
    JoinGroups(opcode, rd, funct3, rs1, ILow(imm), IHigh(imm));
    IImmOfGroups(EncodeI(opcode, rd, funct3, rs1, imm));
    TwelveBits(imm);
  }

  lemma TwelveBits(imm: int)
    requires -0x800 <= imm < 0x800
    ensures ILow(imm) + IHigh(imm) * 32 - IHigh(imm) / 64 * 0x1000 == imm
  {
  }

  lemma DecodeS(opcode: nat, funct3: nat, rs1: nat, rs2: nat, imm: int)
    requires opcode < 128 && funct3 < 8 && rs1 < 32 && rs2 < 32
    requires -0x800 <= imm < 0x800
    ensures var w := EncodeS(opcode, funct3, rs1, rs2, imm);
            && w < 0x1_0000_0000 && Opcode(w) == opcode && Funct3(w) == funct3 && Rs1(w) == rs1 && Rs2(w) == rs2
            && GetSImm(w) == imm
  {
    JoinGroups(opcode, ILow(imm), funct3, rs1, rs2, IHigh(imm));
    SImmOfGroups(EncodeS(opcode, funct3, rs1, rs2, imm));
    TwelveBits(imm);
  }

  lemma DecodeB(opcode: nat, funct3: nat, rs1: nat, rs2: nat, imm: int)
    requires opcode < 128 && funct3 < 8 && rs1 < 32 && rs2 < 32
    requires -0x1000 <= imm < 0x1000 && imm % 2 == 0
    ensures var w := EncodeB(opcode, funct3, rs1, rs2, imm);
            && w < 0x1_0000_0000 && Opcode(w) == opcode && Funct3(w) == funct3 && Rs1(w) == rs1 && Rs2(w) == rs2
            && GetBImm(w) == imm
  {
    JoinGroups(opcode, BLow(imm), funct3, rs1, rs2, BHigh(imm));
    BImmOfGroups(EncodeB(opcode, funct3, rs1, rs2, imm));
    BranchBits(imm);
  }

  lemma BranchBits(imm: int)
    requires -0x1000 <= imm < 0x1000 && imm % 2 == 0
    ensures BLow(imm) / 2 * 2 + BHigh(imm) % 64 * 0x20 + BLow(imm) % 2 * 0x800 - BHigh(imm) / 64 * 0x1000 == imm
  {
    DivDiv(imm, 2, 16);
    DivDiv(imm, 0x20, 64);
    DivDiv(imm, 0x800, 2);
    BranchDigits(imm / 2 % 16, imm / 0x20 % 64, imm / 0x800 % 2, imm / 0x1000);
  }

  lemma BranchDigits(a: nat, b: nat, c: nat, sign: int)
    requires a < 16 && b < 64 && c < 2 && -1 <= sign <= 0
    ensures var low, high := c + a * 2, b + sign % 2 * 64;
            low / 2 * 2 + high % 64 * 0x20 + low % 2 * 0x800 - high / 64 * 0x1000
            == a * 2 + b * 0x20 + c * 0x800 + sign * 0x1000
  {
  }

  lemma DecodeU(opcode: nat, rd: nat, imm20: nat)
    requires opcode < 128 && rd < 32 && imm20 < 0x10_0000
    ensures var w := EncodeU(opcode, rd, imm20);
            w < 0x1_0000_0000 && Opcode(w) == opcode && Rd(w) == rd && w / 0x1000 == imm20
  {
    JoinGroups(opcode, rd, imm20 % 8, imm20 / 8 % 32, imm20 / 0x100 % 32, imm20 / 0x2000 % 128);
    UpperParts(imm20);
    Peel(opcode + rd * 0x80, imm20, 0x1000);
  }

  lemma UpperParts(n: nat)
    requires n < 0x10_0000
    ensures n % 8 + n / 8 % 32 * 8 + n / 0x100 % 32 * 0x100 + n / 0x2000 % 128 * 0x2000 == n
  {
    DivDiv(n, 8, 32);
    DivDiv(n, 0x100, 32);
  }

  lemma DecodeJ(opcode: nat, rd: nat, imm: int)
    requires opcode < 128 && rd < 32
    requires -0x10_0000 <= imm < 0x10_0000 && imm % 2 == 0
    ensures var w := EncodeJ(opcode, rd, imm);
            w < 0x1_0000_0000 && Opcode(w) == opcode && Rd(w) == rd && GetJImm(w) == imm
  {
    JoinGroups(opcode, rd, imm / 0x1000 % 8, imm / 0x8000 % 32, JRs2(imm), JHigh(imm));
    JImmOfGroups(EncodeJ(opcode, rd, imm));
    JumpBits(imm);
  }

  lemma JumpBits(imm: int)
    requires -0x10_0000 <= imm < 0x10_0000 && imm % 2 == 0
    ensures JRs2(imm) / 2 * 2 + JHigh(imm) % 64 * 0x20 + JRs2(imm) % 2 * 0x800
            + (imm / 0x1000 % 8 + imm / 0x8000 % 32 * 8) * 0x1000 - JHigh(imm) / 64 * 0x10_0000 == imm
  {
    JumpSum(imm);
    JumpDigits(imm / 2 % 16, imm / 0x20 % 64, imm / 0x800 % 2, imm / 0x1000 % 8, imm / 0x8000 % 32, imm / 0x10_0000);
  }

  lemma JumpSum(imm: int)
    requires -0x10_0000 <= imm < 0x10_0000 && imm % 2 == 0
    ensures imm / 2 % 16 * 2 + imm / 0x20 % 64 * 0x20 + imm / 0x800 % 2 * 0x800 + imm / 0x1000 % 8 * 0x1000
            + imm / 0x8000 % 32 * 0x8000 + imm / 0x10_0000 * 0x10_0000 == imm
    ensures -1 <= imm / 0x10_0000 <= 0
  {
    DivDiv(imm, 2, 16);
    DivDiv(imm, 0x20, 64);
    DivDiv(imm, 0x800, 2);
    DivDiv(imm, 0x1000, 8);
    DivDiv(imm, 0x8000, 32);
  }

  lemma JumpDigits(a: nat, b: nat, c: nat, d: nat, e: nat, sign: int)
    requires a < 16 && b < 64 && c < 2 && d < 8 && e < 32 && -1 <= sign <= 0
    ensures var rs2, high := c + a * 2, b + sign % 2 * 64;
            rs2 / 2 * 2 + high % 64 * 0x20 + rs2 % 2 * 0x800 + (d + e * 8) * 0x1000 - high / 64 * 0x10_0000
            == a * 2 + b * 0x20 + c * 0x800 + d * 0x1000 + e * 0x8000 + sign * 0x10_0000
  {
  }

  lemma DecodeR(opcode: nat, rd: nat, funct3: nat, rs1: nat, rs2: nat, funct7: nat)
    requires InGroups(opcode, rd, funct3, rs1, rs2, funct7)
    ensures var w := Join(opcode, rd, funct3, rs1, rs2, funct7);
            && w < 0x1_0000_0000 && Opcode(w) == opcode && Rd(w) == rd && Funct3(w) == funct3 && Rs1(w) == rs1
            && Rs2(w) == rs2 && Funct7(w) == funct7
  {
    JoinGroups(opcode, rd, funct3, rs1, rs2, funct7);
  }

  // ---------------------------------------------------------------- encoders after decoders

  /** Every word is the encoding, in each format, of the fields and the immediate that the
      decoders find in it. */
  lemma EncodeDecoded(w: Word)
    ensures EncodeI(Opcode(w), Rd(w), Funct3(w), Rs1(w), GetIImm(w)) == w
    ensures EncodeS(Opcode(w), Funct3(w), Rs1(w), Rs2(w), GetSImm(w)) == w
    ensures EncodeB(Opcode(w), Funct3(w), Rs1(w), Rs2(w), GetBImm(w)) == w
    ensures EncodeU(Opcode(w), Rd(w), w / 0x1000) == w
    ensures EncodeJ(Opcode(w), Rd(w), GetJImm(w)) == w
  {
    GroupsJoin(w);
    IGroupsBack(w);
    BGroupsBack(w);
    UGroupsBack(w);
    JGroupsBack(w);
  }

  lemma IGroupsBack(w: Word)
    ensures ILow(GetIImm(w)) == Rs2(w) && IHigh(GetIImm(w)) == Funct7(w)
    ensures ILow(GetSImm(w)) == Rd(w) && IHigh(GetSImm(w)) == Funct7(w)
  {
    hide GetIImm, GetSImm, ILow, IHigh;
    IImmOfGroups(w);
    SImmOfGroups(w);
    TwelveBitsBack(Rs2(w), Funct7(w));
    TwelveBitsBack(Rd(w), Funct7(w));
  }

  lemma TwelveBitsBack(low: nat, high: nat)
    requires low < 32 && high < 128
    ensures var imm := low + high * 32 - high / 64 * 0x1000; ILow(imm) == low && IHigh(imm) == high
  {
    DivUnique(low + high * 32 - high / 64 * 0x1000, 32, high - high / 64 * 128, low);
  }

  lemma BGroupsBack(w: Word)
    ensures BLow(GetBImm(w)) == Rd(w) && BHigh(GetBImm(w)) == Funct7(w)
  {
    hide GetBImm, BLow, BHigh;
    BImmOfGroups(w);
    BranchBitsBack(Rd(w), Funct7(w));
  }

  lemma BranchBitsBack(low: nat, high: nat)
    requires low < 32 && high < 128
    ensures var imm := low / 2 * 2 + high % 64 * 0x20 + low % 2 * 0x800 - high / 64 * 0x1000;
            BLow(imm) == low && BHigh(imm) == high
  {
    BranchPlaces(low / 2, high % 64, low % 2, high / 64);
  }

  lemma BranchPlaces(a: nat, b: nat, c: nat, sign: nat)
    requires a < 16 && b < 64 && c < 2 && sign < 2
    ensures var imm := a * 2 + b * 0x20 + c * 0x800 - sign * 0x1000; BLow(imm) == c + a * 2 && BHigh(imm) == b + sign * 64
  {
    BranchPlacesLow(a, b + c * 64 - sign * 128);
    BranchPlacesHigh(a * 2, b, c, sign);
  }

  lemma BranchPlacesLow(a: nat, rest: int)
    requires a < 16
    ensures (a * 2 + rest * 0x20) / 2 % 16 == a
  {
    DivUnique(a * 2 + rest * 0x20, 2, a + rest * 16, 0);
  }

  /** The digit of base `base` that stands d places up. */
  lemma DigitAt(n: int, d: nat, low: nat, base: nat, digit: nat, above: int)
    requires low < d && digit < base && n == d * (base * above + digit) + low
    ensures n / d % base == digit
  {
    DivUnique(n, d, base * above + digit, low);
    DivUnique(base * above + digit, base, above, digit);
  }

  lemma BranchPlacesHigh(low: nat, b: nat, c: nat, sign: nat)
    requires low < 0x20 && b < 64 && c < 2 && sign < 2
    ensures var imm := low + b * 0x20 + c * 0x800 - sign * 0x1000;
            imm / 0x20 % 64 == b && imm / 0x800 % 2 == c && imm / 0x1000 % 2 == sign
  {
    var imm := low + b * 0x20 + c * 0x800 - sign * 0x1000;
    DigitAt(imm, 0x20, low, 64, b, c - sign * 2);
    DigitAt(imm, 0x800, low + b * 0x20, 2, c, 0 - sign);
    DigitAt(imm, 0x1000, low + b * 0x20 + c * 0x800, 2, sign, 0 - sign);
  }

  lemma UGroupsBack(w: Word)
    ensures w / 0x1000 % 8 == Funct3(w) && w / 0x1000 / 8 % 32 == Rs1(w)
    ensures w / 0x1000 / 0x100 % 32 == Rs2(w) && w / 0x1000 / 0x2000 % 128 == Funct7(w)
  {
    DivDiv(w, 0x1000, 8);
    DivDiv(w, 0x1000, 0x100);
    DivDiv(w, 0x1000, 0x2000);
  }

  lemma JGroupsBack(w: Word)
    ensures var imm := GetJImm(w);
            imm / 0x1000 % 8 == Funct3(w) && imm / 0x8000 % 32 == Rs1(w) && JRs2(imm) == Rs2(w) && JHigh(imm) == Funct7(w)
  {
    hide GetJImm, JRs2, JHigh;
    JImmOfGroups(w);
    JumpBitsBack(Funct3(w), Rs1(w), Rs2(w), Funct7(w));
  }

  lemma JumpBitsBack(funct3: nat, rs1: nat, rs2: nat, high: nat)
    requires funct3 < 8 && rs1 < 32 && rs2 < 32 && high < 128
    ensures var imm := rs2 / 2 * 2 + high % 64 * 0x20 + rs2 % 2 * 0x800 + (funct3 + rs1 * 8) * 0x1000 - high / 64 * 0x10_0000;
            imm / 0x1000 % 8 == funct3 && imm / 0x8000 % 32 == rs1 && JRs2(imm) == rs2 && JHigh(imm) == high
  {
    JumpPlacesLow(rs2 / 2, high % 64, rs2 % 2, funct3, rs1, high / 64);
    JumpPlacesHigh(rs2 / 2, high % 64, rs2 % 2, funct3, rs1, high / 64);
  }

  function JumpOffset(a: nat, b: nat, c: nat, d: nat, e: nat, sign: nat): int {
    a * 2 + b * 0x20 + c * 0x800 + (d + e * 8) * 0x1000 - sign * 0x10_0000
  }

  lemma JumpPlacesLow(a: nat, b: nat, c: nat, d: nat, e: nat, sign: nat)
    requires a < 16 && b < 64 && c < 2 && d < 8 && e < 32 && sign < 2
    ensures JRs2(JumpOffset(a, b, c, d, e, sign)) == c + a * 2
    ensures JumpOffset(a, b, c, d, e, sign) / 0x20 % 64 == b
  {
    var high := d + e * 8 - sign * 0x100;
    BranchPlacesLow(a, b + c * 64 + high * 128);
    LowPlaces(a * 2, b, c, high);
  }

  lemma LowPlaces(low: nat, b: nat, c: nat, high: int)
    requires low < 0x20 && b < 64 && c < 2
    ensures var imm := low + b * 0x20 + c * 0x800 + high * 0x1000; imm / 0x20 % 64 == b && imm / 0x800 % 2 == c
  {
    var imm := low + b * 0x20 + c * 0x800 + high * 0x1000;
    DigitAt(imm, 0x20, low, 64, b, c + high * 2);
    DigitAt(imm, 0x800, low + b * 0x20, 2, c, high);
  }

  lemma JumpPlacesHigh(a: nat, b: nat, c: nat, d: nat, e: nat, sign: nat)
    requires a < 16 && b < 64 && c < 2 && d < 8 && e < 32 && sign < 2
    ensures var imm := JumpOffset(a, b, c, d, e, sign);
            imm / 0x1000 % 8 == d && imm / 0x8000 % 32 == e && imm / 0x10_0000 % 2 == sign
  {
    HighPlaces(a * 2 + b * 0x20 + c * 0x800, d, e, sign);
  }

  lemma HighPlaces(low: nat, d: nat, e: nat, sign: nat)
    requires low < 0x1000 && d < 8 && e < 32 && sign < 2
    ensures var imm := low + (d + e * 8) * 0x1000 - sign * 0x10_0000;
            imm / 0x1000 % 8 == d && imm / 0x8000 % 32 == e && imm / 0x10_0000 % 2 == sign
  {
    FirstHighPlace(low, d, e, sign);
    SecondHighPlace(low + d * 0x1000, e, sign);
  }

  lemma FirstHighPlace(low: nat, d: nat, e: nat, sign: nat)
    requires low < 0x1000 && d < 8 && e < 32 && sign < 2
    ensures (low + (d + e * 8) * 0x1000 - sign * 0x10_0000) / 0x1000 % 8 == d
  {
    DigitAt(low + (d + e * 8) * 0x1000 - sign * 0x10_0000, 0x1000, low, 8, d, e - sign * 32);
  }

  lemma SecondHighPlace(low: nat, e: nat, sign: nat)
    requires low < 0x8000 && e < 32 && sign < 2
    ensures var imm := low + e * 0x8000 - sign * 0x10_0000;
            imm / 0x8000 % 32 == e && imm / 0x10_0000 % 2 == sign
  {
    var imm := low + e * 0x8000 - sign * 0x10_0000;
    DigitAt(imm, 0x8000, low, 32, e, 0 - sign);
    DigitAt(imm, 0x10_0000, low + e * 0x8000, 2, sign, 0 - sign);
  }
}
