/** Operands that handlers take apart in their own way (bit-field structures, single-bit
    tests), and the proof that these are the operands of decode.c. */
module Operands {
  import opened Words
  import opened Fields
  import opened Decode

  /** InstructionU.data, a signed 20-bit field. */
  function UData(w: Word): int { Signed(w) / 0x1000 }

  /** InstructionI.imm, a signed 12-bit field. */
  function IField(w: Word): int { Signed(w) / 0x10_0000 }

  /** InstructionIShift.shamt as a shift amount: the five bits, modulo 32. */
  function Shamt(w: Word): nat { w / 0x10_0000 % 32 }

  lemma UDataShifted(w: Word)
    ensures ToWord(UData(w) * 0x1000) == w - w % 0x1000
  {
  }

  lemma IFieldIsImm(w: Word)
    ensures IField(w) == GetIImm(w)
    ensures -0x800 <= GetIImm(w) < 0x800
  {
    hide GetIImm;
    IImmValue(w);
    IFieldValue(w);
  }

  lemma IFieldValue(w: Word)
    ensures IField(w) == w / 0x10_0000 - w / 0x8000_0000 * 0x1000
    ensures -0x800 <= IField(w) < 0x800
  {
  }

  lemma ShamtIsImm(w: Word)
    ensures Shamt(w) == ToWord(GetIImm(w)) % 32
  {
    hide GetIImm;
    IImmValue(w);
    LowFive(w / 0x10_0000, w / 0x8000_0000);
  }

  lemma LowFive(n: nat, sign: nat)
    requires n < 0x1000 && sign <= 1
    ensures ToWord(n - sign * 0x1000) % 32 == n % 32
  {
  }

  /** Testing one bit with a mask. */
  lemma SingleBit(n: nat, i: nat)
    requires i < 32
    ensures And(n, Pow2(i)) == if Bit(n, i) then Pow2(i) else 0
  {
    ScaleOfOne(i);
    MaskKeeps(n, i, 1);
    HighBit(n, i, 0);
    assert Low(High(n, i), 1) == High(n, i) % 2;
    assert Mask(i, 1) == Scale(1, i);
    if !Bit(n, i) {
      ScaleAt(0, i, Pow2(i));
    }
  }

  lemma SignBits(v: Word)
    ensures And32(v, 0x80) == 0x80 <==> Bit(v, 7)
    ensures And32(v, 0x8000) == 0x8000 <==> Bit(v, 15)
  {
    Pow2Values();
    SingleBit(v, 7);
    SingleBit(v, 15);
  }

  /** The interrupt bit of a cause, and what remains without it. */
  lemma CauseBits(cause: Word)
    ensures Shl32(1, 31) == 0x8000_0000
    ensures And32(cause, 0x8000_0000) != 0 <==> cause >= 0x8000_0000
    ensures And32(cause, 0x7FFF_FFFF) == cause % 0x8000_0000
  {
    Pow2Values();
    ScaleAt(1, 31, 0x8000_0000);
    SingleBit(cause, 31);
    HighLowAt(cause, 31, 0x8000_0000);
    AndOnes(cause, 31);
    HighBit(cause, 31, 0);
  }

  /** (n >> i) & 1 */
  lemma ShiftedBit(n: Word, i: nat)
    ensures And32(Shr32(n, i), 1) == if Bit(n, i) then 1 else 0
  {
    Pow2Values();
    AndOnes(High(n, i), 1);
    HighBit(n, i, 0);
  }

  /** & 0x1F on a shift amount, and the truncation of a stored value. */
  lemma LowBits(v: Word)
    ensures And32(v, 0x1F) == v % 32
  {
    Pow2Values();
    AndOnes(v, 5);
    HighLowAt(v, 5, 32);
  }

  /** Adding a signed offset to a word, and then converting. */
  lemma AddOffset(a: Word, n: int)
    ensures ToWord(a + n) == Add32(a, ToWord(n))
  {
  }

  lemma AddUpper(upper: Word, pc: Word)
    ensures Add32(upper, Sub32(pc, 4)) == ToWord(upper + pc - 4)
  {
  }
}
