/** decode.c and the operand macros of cpu.h: the fields and immediates of an
    instruction word, as the emulator extracts them with shifts and masks.  The lemmas
    give each one as arithmetic on the word. */
module Decode {
  import opened Words

  function Bextr(src: Word, start: nat, len: nat): (r: Word)
    requires len < 32
    ensures r == Low(High(src, start), len)
  {
    AndOnes(Shr32(src, start), len);
    And(Shr32(src, start), Pow2(len) - 1)
  }

  /** The extracted bits, with the powers of two given as numbers. */
  lemma BextrAt(w: Word, start: nat, d: nat, len: nat, m: nat)
    requires len < 32 && d == Pow2(start) && m == Pow2(len)
    ensures Bextr(w, start, len) == w / d % m < m
  {
    HighLow(w, start);
    HighLow(High(w, start), len);
  }

  // GET_RD, GET_RS1 (also GET_CSR_IMM) and GET_RS2

  function Rd(w: Word): (r: Word)
    ensures r == w / 0x80 % 32
  {
    Field5(w, 7);
    And(Shr32(w, 7), 0x1F)
  }

  function Rs1(w: Word): (r: Word)
    ensures r == w / 0x8000 % 32
  {
    Field5(w, 15);
    And(Shr32(w, 15), 0x1F)
  }

  function Rs2(w: Word): (r: Word)
    ensures r == w / 0x10_0000 % 32
  {
    Field5(w, 20);
    And(Shr32(w, 20), 0x1F)
  }

  lemma Field5(w: Word, start: nat)
    requires start == 7 || start == 15 || start == 20
    ensures And(Shr32(w, start), 0x1F) ==
      (if start == 7 then w / 0x80 else if start == 15 then w / 0x8000 else w / 0x10_0000) % 32
  {
    Pow2Values();
    AndOnes(Shr32(w, start), 5);
    BextrAt(w, start, Pow2(start), 5, 32);
  }

  function ImmSign(w: Word): Word {
    if Bextr(w, 31, 1) == 1 then 0xFFFF_FFFF else 0
  }

  /** B-immediate: a sum of shifted bit groups, the sign part wrapping modulo 2^32. */
  function GetBImm(w: Word): int {
    Signed(ToWord(Shl32(Bextr(w, 8, 4), 1) + Shl32(Bextr(w, 25, 6), 5) + Shl32(Bextr(w, 7, 1), 11)
                  + Shl32(ImmSign(w), 12)))
  }

  function GetIImmUnsigned(w: Word): Word { Shr32(w, 20) }

  function GetIImm(w: Word): int {
    var val := Bextr(w, 20, 12);
    Signed(if Bextr(w, 31, 1) == 1 then Or32(val, 0xFFFF_F000) else val)
  }

  function GetSImm(w: Word): int {
    var val := ToWord(Bextr(w, 7, 5) + Shl32(Bextr(w, 25, 7), 5));
    Signed(if Bextr(w, 31, 1) == 1 then Or32(val, 0xFFFF_F000) else val)
  }

  function GetJImm(w: Word): int {
    var val := ToWord(Shl32(Bextr(w, 21, 10), 1) + Shl32(Bextr(w, 20, 1), 11) + Shl32(Bextr(w, 12, 8), 12)
                      + Shl32(Bextr(w, 31, 1), 20));
    Signed(if Bextr(w, 31, 1) == 1 then Or32(val, 0xFFF0_0000) else val)
  }

  // ---------------------------------------------------------------- bit groups

  lemma SignBit(w: Word)
    ensures Bextr(w, 31, 1) == w / 0x8000_0000
  {
    Pow2Values();
    BextrAt(w, 31, 0x8000_0000, 1, 2);
  }

  /** A group of bits moved up `to` places without loss. */
  lemma Placed(g: Word, len: nat, to: nat, scale: nat)
    requires g < Pow2(len) && scale == Pow2(to) && len + to <= 32
    ensures Shl32(g, to) == g * scale
  {
    WordDigits();
    ScaleValue(g, to);
    ScaleBelow(g, len, to);
    Pow2Monotone(to + len, 32);
  }

  lemma BGroups(w: Word)
    ensures Shl32(Bextr(w, 8, 4), 1) == w / 0x100 % 16 * 2 < 0x20
    ensures Shl32(Bextr(w, 25, 6), 5) == w / 0x200_0000 % 64 * 0x20 <= 0x7E0
    ensures Shl32(Bextr(w, 7, 1), 11) == w / 0x80 % 2 * 0x800 <= 0x800
  {
    Pow2Values();
    BextrAt(w, 8, 0x100, 4, 16);
    Placed(Bextr(w, 8, 4), 4, 1, 2);
    BextrAt(w, 25, 0x200_0000, 6, 64);
    Placed(Bextr(w, 25, 6), 6, 5, 0x20);
    BextrAt(w, 7, 0x80, 1, 2);
    Placed(Bextr(w, 7, 1), 1, 11, 0x800);
  }

  lemma ShiftedSign(w: Word)
    ensures Shl32(ImmSign(w), 12) == Bextr(w, 31, 1) * 0xFFFF_F000
  {
    SignBit(w);
    Pow2Values();
    ScaleAt(0xFFFF_FFFF, 12, 0x1000);
    ScaleAt(0, 12, 0x1000);
  }

  lemma SignedSum(low: nat, sign: nat)
    requires low < 0x1000 && sign <= 1
    ensures Signed(ToWord(low + sign * 0xFFFF_F000)) == low - sign * 0x1000
  {
  }

  lemma BImmValue(w: Word)
    ensures GetBImm(w) == w / 0x100 % 16 * 2 + w / 0x200_0000 % 64 * 0x20 + w / 0x80 % 2 * 0x800
                          - w / 0x8000_0000 * 0x1000
  {
    hide Bextr, Shl32, ToWord, Signed;
    BGroups(w);
    SignBit(w);
    ShiftedSign(w);
    SignedSum(Shl32(Bextr(w, 8, 4), 1) + Shl32(Bextr(w, 25, 6), 5) + Shl32(Bextr(w, 7, 1), 11), Bextr(w, 31, 1));
  }

  /** val |= 0xfffff000 when the sign bit is set: the sign extension of a 12-bit value. */
  lemma SignFill(val: Word, sign: nat)
    requires val < 0x1000 && sign <= 1
    ensures Signed(if sign == 1 then Or32(val, 0xFFFF_F000) else val) == val - sign * 0x1000
  {
    Pow2Values();
    LowSmall(val, 12);
    HighLowAt(0xFFFF_F000, 12, 0x1000);
    NoCommonDigit(val, 0xFFFF_F000, 12);
    OrDisjoint(val, 0xFFFF_F000);
  }

  lemma NoCommonDigit(v: nat, fill: nat, k: nat)
    requires High(v, k) == 0 && Low(fill, k) == 0
    ensures And(v, fill) == 0
  {
    AndSplit(v, fill, k);
    ScaleAt(0, k, Pow2(k));
  }

  lemma IImmUnsignedValue(w: Word)
    ensures GetIImmUnsigned(w) == w / 0x10_0000
  {
    Pow2Values();
    HighLowAt(w, 20, 0x10_0000);
  }

  lemma IImmValue(w: Word)
    ensures GetIImm(w) == w / 0x10_0000 - w / 0x8000_0000 * 0x1000
  {
    SignBit(w);
    IBits(w);
    SignFill(Bextr(w, 20, 12), Bextr(w, 31, 1));
  }

  lemma IBits(w: Word)
    ensures Bextr(w, 20, 12) == w / 0x10_0000 < 0x1000
  {
    Pow2Values();
    BextrAt(w, 20, 0x10_0000, 12, 0x1000);
  }

  lemma SImmValue(w: Word)
    ensures GetSImm(w) == w / 0x80 % 32 + w / 0x200_0000 * 32 - w / 0x8000_0000 * 0x1000
  {
    SignBit(w);
    SGroups(w);
    SignFill(ToWord(Bextr(w, 7, 5) + Shl32(Bextr(w, 25, 7), 5)), Bextr(w, 31, 1));
  }

  lemma SGroups(w: Word)
    ensures ToWord(Bextr(w, 7, 5) + Shl32(Bextr(w, 25, 7), 5)) == w / 0x80 % 32 + w / 0x200_0000 * 32 < 0x1000
  {
    SHigh(w);
    SLow(w);
    hide Bextr, Shl32;
  }

  lemma SLow(w: Word)
    ensures Bextr(w, 7, 5) == w / 0x80 % 32
  {
    hide Bextr;
    Pow2Values();
    BextrAt(w, 7, 0x80, 5, 32);
  }

  lemma SHigh(w: Word)
    ensures Shl32(Bextr(w, 25, 7), 5) == w / 0x200_0000 * 32 < 0xFE1
  {
    Pow2Values();
    BextrAt(w, 25, 0x200_0000, 7, 0x80);
    Placed(Bextr(w, 25, 7), 7, 5, 0x20);
  }

  lemma JGroups(w: Word)
    ensures Shl32(Bextr(w, 21, 10), 1) == w / 0x20_0000 % 0x400 * 2 <= 0x7FE
    ensures Shl32(Bextr(w, 20, 1), 11) == w / 0x10_0000 % 2 * 0x800 <= 0x800
    ensures Shl32(Bextr(w, 12, 8), 12) == w / 0x1000 % 0x100 * 0x1000 <= 0xF_F000
  {
    Pow2Values();
    BextrAt(w, 21, 0x20_0000, 10, 0x400);
    Placed(Bextr(w, 21, 10), 10, 1, 2);
    BextrAt(w, 20, 0x10_0000, 1, 2);
    Placed(Bextr(w, 20, 1), 1, 11, 0x800);
    BextrAt(w, 12, 0x1000, 8, 0x100);
    Placed(Bextr(w, 12, 8), 8, 12, 0x1000);
  }

  lemma JImmValue(w: Word)
    ensures GetJImm(w) == w / 0x20_0000 % 0x400 * 2 + w / 0x10_0000 % 2 * 0x800 + w / 0x1000 % 0x100 * 0x1000
                          - w / 0x8000_0000 * 0x10_0000
  {
    hide Bextr, Shl32, Or32, Signed, ToWord;
    JGroups(w);
    SignBit(w);
    var low := Shl32(Bextr(w, 21, 10), 1) + Shl32(Bextr(w, 20, 1), 11) + Shl32(Bextr(w, 12, 8), 12);
    SignPlaced(Bextr(w, 31, 1));
    JFill(low, Bextr(w, 31, 1));
  }

  lemma SignPlaced(sign: Word)
    requires sign <= 1
    ensures Shl32(sign, 20) == sign * 0x10_0000
  {
    Pow2Values();
    ScaleAt(sign, 20, 0x10_0000);
  }

  /** The fill of a J-immediate overlaps the sign bit that is already in place. */
  lemma JFill(low: nat, sign: Word)
    requires low < 0x10_0000 && sign <= 1
    ensures Signed(if sign == 1 then Or32(ToWord(low + sign * 0x10_0000), 0xFFF0_0000)
                   else ToWord(low + sign * 0x10_0000)) == low - sign * 0x10_0000
  {
    hide Signed, ToWord, Or32;
    if sign == 1 {
      JFilled(low);
    } else {
      JPlain(low);
    }
  }

  lemma JFilled(low: nat)
    requires low < 0x10_0000
    ensures Signed(Or32(ToWord(low + 0x10_0000), 0xFFF0_0000)) == low - 0x10_0000
  {
    hide Or32;
    JFillOr(low);
  }

  lemma JPlain(low: nat)
    requires low < 0x10_0000
    ensures Signed(ToWord(low)) == low
  {
  }

  lemma JFillOr(low: nat)
    requires low < 0x10_0000
    ensures Or32(low + 0x10_0000, 0xFFF0_0000) == low + 0xFFF0_0000
  {
    TwentyDigits(low, 1);
    TwentyDigits(0, 0xFFF);
    OrSplit(low + 0x10_0000, 0xFFF0_0000, 20);
    assert Or(1, 0xFFF) == 0xFFF;
  }

  lemma TwentyDigits(low: nat, high: nat)
    requires low < 0x10_0000
    ensures Low(low + high * 0x10_0000, 20) == low && High(low + high * 0x10_0000, 20) == high
    ensures Scale(high, 20) == high * 0x10_0000
  {
    Pow2Values();
    JoinedDigits(low, high, 20, 0x10_0000);
  }

  lemma JoinedDigits(low: nat, high: nat, k: nat, d: nat)
    requires d == Pow2(k) && low < d
    ensures Low(low + high * d, k) == low && High(low + high * d, k) == high
    ensures Scale(high, k) == high * d
  {
    HighLow(low + high * d, k);
    DivUnique(low + high * d, d, high, low);
    ScaleValue(high, k);
  }
}
