/** The bit-field accessors of the status word (cpu_exception.c, cpu_prv.h): a field is
    named by its mask, and the lowest set bit of the mask scales the value. */
module Fields {
  import opened Words

  /** mask & ~(mask << 1): the lowest bit of a contiguous mask. */
  function LowestBit(mask: Word): Word {
    And32(mask, Not32(Shl32(mask, 1)))
  }

  function GetField(reg: Word, mask: Word): Word
    requires LowestBit(mask) != 0
  {
    And32(reg, mask) / LowestBit(mask)
  }

  function SetField(reg: Word, mask: Word, val: Word): Word {
    Or32(And32(reg, Not32(mask)), And32(ToWord(val * LowestBit(mask)), mask))
  }

  /** The mask of `len` adjacent bits from position `start`. */
  function Mask(start: nat, len: nat): Word
    requires len >= 1 && start + len <= 32
  {
    MaskFits(start, len);
    Scale(Pow2(len) - 1, start)
  }

  lemma {:induction false} MaskFits(start: nat, len: nat)
    requires len >= 1 && start + len <= 32
    ensures Scale(Pow2(len) - 1, start) < 0x1_0000_0000
  {
    WordDigits();
    ScaleBelow(Pow2(len) - 1, len, start);
    Pow2Monotone(start + len, 32);
  }

  /** The digits of a contiguous mask. */
  lemma MaskBit(start: nat, len: nat, i: nat)
    requires len >= 1 && start + len <= 32
    ensures Bit(Mask(start, len), i) <==> start <= i < start + len
  {
    ScaleBit(Pow2(len) - 1, start, i);
    if i >= start {
      OnesBit(len, i - start);
    }
  }

  lemma {:induction false} OnesBit(len: nat, i: nat)
    ensures Bit(Pow2(len) - 1, i) <==> i < len
  {
    if len == 0 {
      ZeroBit(i);
    } else if i > 0 {
      assert (Pow2(len) - 1) / 2 == Pow2(len - 1) - 1;
      OnesBit(len - 1, i - 1);
    }
  }

  lemma OneBit(i: nat)
    ensures Bit(1, i) <==> i == 0
  {
    if i > 0 {
      ZeroBit(i - 1);
    }
  }

  lemma {:induction false} ScaleOfOne(k: nat)
    ensures Scale(1, k) == Pow2(k)
  {
    if k == 0 {
    } else {
      ScaleOfOne(k - 1);
    }
  }

  lemma PowerIsWord(start: nat)
    requires start < 32
    ensures Pow2(start) < Pow2(32) == 0x1_0000_0000
  {
    WordDigits();
    Pow2Monotone(start, 31);
  }

  /** mask & ~(mask << 1) is the lowest bit of every contiguous mask, also when the
      shift drops the top bit. */
  lemma LowestBitOfMask(start: nat, len: nat)
    requires len >= 1 && start + len <= 32
    ensures LowestBit(Mask(start, len)) == Pow2(start) > 0
  {
    PowerIsWord(start);
    forall i: nat | i < 32
      ensures Bit(LowestBit(Mask(start, len)), i) == Bit(Pow2(start), i)
    {
      LowestBitDigit(start, len, i);
    }
    SameBits(LowestBit(Mask(start, len)), Pow2(start), 32);
  }

  lemma LowestBitDigit(start: nat, len: nat, i: nat)
    requires len >= 1 && start + len <= 32 && i < 32
    ensures Bit(LowestBit(Mask(start, len)), i) == Bit(Pow2(start), i)
  {
    var m := Mask(start, len);
    AndBit(m, Not32(Shl32(m, 1)), i);
    NotDigit(Shl32(m, 1), i);
    ShlDigit(m, 1, i);
    MaskBit(start, len, i);
    if i > 0 {
      MaskBit(start, len, i - 1);
    }
    ScaleOfOne(start);
    ScaleBit(1, start, i);
    if i >= start {
      OneBit(i - start);
    }
  }

  lemma NotDigit(w: Word, i: nat)
    requires i < 32
    ensures Bit(Not32(w), i) == !Bit(w, i)
  {
    WordDigits();
    NotBit(w, 32, i);
  }

  lemma ShlDigit(w: Word, s: nat, i: nat)
    requires i < 32
    ensures Bit(Shl32(w, s), i) == (i >= s && Bit(w, i - s))
  {
    ToWordLow(Scale(w, s));
    LowBit(Scale(w, s), 32, i);
    ScaleBit(w, s, i);
  }

  lemma SetFieldBit(reg: Word, mask: Word, val: Word, i: nat)
    requires i < 32
    ensures Bit(SetField(reg, mask, val), i) ==
      if Bit(mask, i) then Bit(ToWord(val * LowestBit(mask)), i) else Bit(reg, i)
  {
    var placed := ToWord(val * LowestBit(mask));
    OrBit(And32(reg, Not32(mask)), And32(placed, mask), i);
    AndBit(reg, Not32(mask), i);
    AndBit(placed, mask, i);
    NotDigit(mask, i);
  }

  lemma SameWords(a: Word, b: Word)
    requires forall i: nat :: i < 32 ==> Bit(a, i) == Bit(b, i)
    ensures a == b
  {
    WordDigits();
    SameBits(a, b, 32);
  }

  /** Two words that agree on the bits of a mask have the same field. */
  lemma SameField(a: Word, b: Word, mask: Word)
    requires LowestBit(mask) != 0
    requires forall i: nat :: i < 32 && Bit(mask, i) ==> Bit(a, i) == Bit(b, i)
    ensures GetField(a, mask) == GetField(b, mask)
  {
    forall i: nat | i < 32
      ensures Bit(And32(a, mask), i) == Bit(And32(b, mask), i)
    {
      AndBit(a, mask, i);
      AndBit(b, mask, i);
    }
    SameWords(And32(a, mask), And32(b, mask));
  }

  /** What a contiguous mask keeps: `len` digits of reg, in their place. */
  lemma MaskKeeps(reg: nat, start: nat, len: nat)
    requires len >= 1 && start + len <= 32
    ensures And(reg, Mask(start, len)) == Scale(Low(High(reg, start), len), start)
  {
    AndSplit(reg, Mask(start, len), start);
    LowOfScale(Pow2(len) - 1, start);
    AndOnes(High(reg, start), len);
  }

  /** The field of a contiguous mask is a digit group. */
  lemma GetFieldDigits(reg: Word, start: nat, len: nat)
    requires len >= 1 && start + len <= 32
    ensures LowestBit(Mask(start, len)) == Pow2(start) > 0
    ensures GetField(reg, Mask(start, len)) == Low(High(reg, start), len)
  {
    LowestBitOfMask(start, len);
    MaskKeeps(reg, start, len);
    LowOfScale(Low(High(reg, start), len), start);
    HighLow(And32(reg, Mask(start, len)), start);
  }

  /** The field of a contiguous mask, in arithmetic. */
  lemma GetFieldValue(reg: Word, start: nat, len: nat)
    requires len >= 1 && start + len <= 32
    ensures LowestBit(Mask(start, len)) > 0
    ensures GetField(reg, Mask(start, len)) == reg / Pow2(start) % Pow2(len)
  {
    GetFieldDigits(reg, start, len);
    HighLow(reg, start);
    HighLow(High(reg, start), len);
  }

  // ---------------------------------------------------------------- the laws

  /** Reading back what was written gives the value, cut to the width of the field. */
  lemma GetAfterSet(reg: Word, start: nat, len: nat, val: Word)
    requires len >= 1 && start + len <= 32
    ensures LowestBit(Mask(start, len)) > 0
    ensures GetField(SetField(reg, Mask(start, len), val), Mask(start, len)) == val % Pow2(len)
  {
    var m := Mask(start, len);
    LowestBitOfMask(start, len);
    ScaleValue(val, start);
    var placed := Shl32(val, start);
    forall i: nat | i < 32 && Bit(m, i)
      ensures Bit(SetField(reg, m, val), i) == Bit(placed, i)
    {
      SetFieldBit(reg, m, val, i);
    }
    SameField(SetField(reg, m, val), placed, m);
    GetFieldDigits(placed, start, len);
    PlacedDigits(val, start, len);
    HighLow(val, len);
  }

  lemma PlacedDigits(val: Word, start: nat, len: nat)
    requires start + len <= 32
    ensures Low(High(Shl32(val, start), start), len) == Low(val, len)
  {
    var placed := Low(High(Shl32(val, start), start), len);
    forall i: nat | i < len
      ensures Bit(placed, i) == Bit(Low(val, len), i)
    {
      LowBit(High(Shl32(val, start), start), len, i);
      HighBit(Shl32(val, start), start, i);
      ShlDigit(val, start, i + start);
      LowBit(val, len, i);
    }
    LowSmall(High(Shl32(val, start), start), len);
    LowSmall(val, len);
    SameBits(placed, Low(val, len), len);
  }

  /** Writing back the value read changes nothing. */
  lemma SetOfGet(reg: Word, start: nat, len: nat)
    requires len >= 1 && start + len <= 32
    ensures LowestBit(Mask(start, len)) > 0
    ensures SetField(reg, Mask(start, len), GetField(reg, Mask(start, len))) == reg
  {
    var m := Mask(start, len);
    GetFieldDigits(reg, start, len);
    var val := GetField(reg, m);
    forall i: nat | i < 32
      ensures Bit(SetField(reg, m, val), i) == Bit(reg, i)
    {
      SetFieldBit(reg, m, val, i);
      FieldInPlace(reg, start, len, i);
    }
    SameWords(SetField(reg, m, val), reg);
  }

  /** Scaled back, a field has the bits that the register has there. */
  lemma FieldInPlace(reg: Word, start: nat, len: nat, i: nat)
    requires len >= 1 && start + len <= 32
    ensures Bit(Mask(start, len), i) ==> Bit(ToWord(Low(High(reg, start), len) * Pow2(start)), i) == Bit(reg, i)
  {
    FieldScaled(reg, start, len);
    AndBit(reg, Mask(start, len), i);
  }

  lemma FieldScaled(reg: Word, start: nat, len: nat)
    requires len >= 1 && start + len <= 32
    ensures ToWord(Low(High(reg, start), len) * Pow2(start)) == And(reg, Mask(start, len))
  {
    ScaleValue(Low(High(reg, start), len), start);
    MaskKeeps(reg, start, len);
  }

  /** The last of two writes to a field wins. */
  lemma LastSetWins(reg: Word, mask: Word, first: Word, last: Word)
    ensures SetField(SetField(reg, mask, first), mask, last) == SetField(reg, mask, last)
  {
    var both := SetField(SetField(reg, mask, first), mask, last);
    forall i: nat | i < 32
      ensures Bit(both, i) == Bit(SetField(reg, mask, last), i)
    {
      SetFieldBit(SetField(reg, mask, first), mask, last, i);
      SetFieldBit(reg, mask, first, i);
      SetFieldBit(reg, mask, last, i);
    }
    SameWords(both, SetField(reg, mask, last));
  }

  /** A write does not disturb a field with which it has no bit in common. */
  lemma SetElsewhere(reg: Word, mask: Word, val: Word, other: Word)
    requires And32(mask, other) == 0 && LowestBit(other) != 0
    ensures GetField(SetField(reg, mask, val), other) == GetField(reg, other)
  {
    forall i: nat | i < 32 && Bit(other, i)
      ensures Bit(SetField(reg, mask, val), i) == Bit(reg, i)
    {
      SetFieldBit(reg, mask, val, i);
      AndBit(mask, other, i);
      ZeroBit(i);
    }
    SameField(SetField(reg, mask, val), reg, other);
  }

  /** Writes to fields with no bit in common commute. */
  lemma SetsCommute(reg: Word, mask: Word, val: Word, mask': Word, val': Word)
    requires And32(mask, mask') == 0
    ensures SetField(SetField(reg, mask, val), mask', val') == SetField(SetField(reg, mask', val'), mask, val)
  {
    var a := SetField(SetField(reg, mask, val), mask', val');
    var b := SetField(SetField(reg, mask', val'), mask, val);
    forall i: nat | i < 32
      ensures Bit(a, i) == Bit(b, i)
    {
      SetFieldBit(SetField(reg, mask, val), mask', val', i);
      SetFieldBit(reg, mask, val, i);
      SetFieldBit(SetField(reg, mask', val'), mask, val, i);
      SetFieldBit(reg, mask', val', i);
      AndBit(mask, mask', i);
      ZeroBit(i);
    }
    SameWords(a, b);
  }

  /** Masks of separate bit ranges have no bit in common. */
  lemma MasksApart(start: nat, len: nat, start': nat, len': nat)
    requires len >= 1 && start + len <= 32 && len' >= 1 && start' + len' <= 32
    requires start + len <= start' || start' + len' <= start
    ensures And32(Mask(start, len), Mask(start', len')) == 0
  {
    forall i: nat | i < 32
      ensures Bit(And32(Mask(start, len), Mask(start', len')), i) == Bit(0, i)
    {
      AndBit(Mask(start, len), Mask(start', len'), i);
      MaskBit(start, len, i);
      MaskBit(start', len', i);
      ZeroBit(i);
    }
    SameWords(And32(Mask(start, len), Mask(start', len')), 0);
  }

  // ---------------------------------------------------------------- three fields as a stack

  /** A trap pushes: the enable bit moves to its shadow, the privilege is recorded, and
      interrupts are disabled. */
  function Push(s: Word, enable: Word, shadow: Word, previous: Word, privilege: Word): Word
    requires LowestBit(enable) != 0
  {
    SetField(SetField(SetField(s, shadow, GetField(s, enable)), previous, privilege), enable, 0)
  }

  /** A return pops: the shadow moves back to the enable bit. */
  function Pop(s: Word, enable: Word, shadow: Word, previous: Word): Word
    requires LowestBit(shadow) != 0
  {
    SetField(SetField(SetField(s, enable, GetField(s, shadow)), shadow, 1), previous, 0)
  }

  lemma PushShadow(s: Word, e: nat, sh: nat, p: nat, len: nat, privilege: Word)
    requires e < 32 && sh < 32 && len >= 1 && p + len <= 32 && e != sh
    requires (e < p || p + len <= e) && (sh < p || p + len <= sh)
    ensures LowestBit(Mask(e, 1)) > 0 && LowestBit(Mask(sh, 1)) > 0
    ensures GetField(Push(s, Mask(e, 1), Mask(sh, 1), Mask(p, len), privilege), Mask(sh, 1)) == GetField(s, Mask(e, 1)) < 2
  {
    hide SetField, GetField, Mask, LowestBit, And32, Low;
    LowestBitOfMask(e, 1);
    var value := GetField(s, Mask(e, 1));
    var s1 := SetField(s, Mask(sh, 1), value);
    GetAfterSet(s, sh, 1, value);
    MasksApart(p, len, sh, 1);
    SetElsewhere(s1, Mask(p, len), privilege, Mask(sh, 1));
    MasksApart(e, 1, sh, 1);
    SetElsewhere(SetField(s1, Mask(p, len), privilege), Mask(e, 1), 0, Mask(sh, 1));
    OneBitField(s, e);
  }

  lemma OneBitField(s: Word, e: nat)
    requires e < 32
    ensures LowestBit(Mask(e, 1)) > 0 && GetField(s, Mask(e, 1)) < 2 == Pow2(1)
  {
    GetFieldValue(s, e, 1);
  }

  lemma PushPrevious(s: Word, e: nat, sh: nat, p: nat, len: nat, privilege: Word)
    requires e < 32 && sh < 32 && len >= 1 && p + len <= 32
    requires e < p || p + len <= e
    ensures LowestBit(Mask(e, 1)) > 0 && LowestBit(Mask(p, len)) > 0
    ensures GetField(Push(s, Mask(e, 1), Mask(sh, 1), Mask(p, len), privilege), Mask(p, len)) == privilege % Pow2(len)
  {
    hide SetField, GetField, Mask, LowestBit, And32, Low;
    LowestBitOfMask(e, 1);
    var s1 := SetField(s, Mask(sh, 1), GetField(s, Mask(e, 1)));
    GetAfterSet(s1, p, len, privilege);
    MasksApart(e, 1, p, len);
    SetElsewhere(SetField(s1, Mask(p, len), privilege), Mask(e, 1), 0, Mask(p, len));
  }

  /** A field apart from the three is left alone. */
  lemma PushElsewhere(s: Word, e: nat, sh: nat, p: nat, len: nat, privilege: Word, o: nat)
    requires e < 32 && sh < 32 && len >= 1 && p + len <= 32 && o < 32
    requires o != e && o != sh && (o < p || p + len <= o)
    ensures LowestBit(Mask(e, 1)) > 0 && LowestBit(Mask(o, 1)) > 0
    ensures GetField(Push(s, Mask(e, 1), Mask(sh, 1), Mask(p, len), privilege), Mask(o, 1)) == GetField(s, Mask(o, 1))
  {
    hide SetField, GetField, Mask, LowestBit, And32, Low;
    LowestBitOfMask(e, 1);
    LowestBitOfMask(o, 1);
    var s1 := SetField(s, Mask(sh, 1), GetField(s, Mask(e, 1)));
    var s2 := SetField(s1, Mask(p, len), privilege);
    MasksApart(sh, 1, o, 1);
    SetElsewhere(s, Mask(sh, 1), GetField(s, Mask(e, 1)), Mask(o, 1));
    MasksApart(p, len, o, 1);
    SetElsewhere(s1, Mask(p, len), privilege, Mask(o, 1));
    MasksApart(e, 1, o, 1);
    SetElsewhere(s2, Mask(e, 1), 0, Mask(o, 1));
  }

  lemma PopEnable(s: Word, e: nat, sh: nat, p: nat, len: nat)
    requires e < 32 && sh < 32 && len >= 1 && p + len <= 32 && e != sh
    requires e < p || p + len <= e
    ensures LowestBit(Mask(e, 1)) > 0 && LowestBit(Mask(sh, 1)) > 0
    ensures GetField(Pop(s, Mask(e, 1), Mask(sh, 1), Mask(p, len)), Mask(e, 1)) == GetField(s, Mask(sh, 1))
  {
    hide SetField, GetField, Mask, LowestBit, And32, Low;
    OneBitField(s, sh);
    var value := GetField(s, Mask(sh, 1));
    GetAfterSet(s, e, 1, value);
    var s1 := SetField(s, Mask(e, 1), value);
    MasksApart(sh, 1, e, 1);
    SetElsewhere(s1, Mask(sh, 1), 1, Mask(e, 1));
    MasksApart(p, len, e, 1);
    SetElsewhere(SetField(s1, Mask(sh, 1), 1), Mask(p, len), 0, Mask(e, 1));
  }

  lemma PushEnable(s: Word, e: nat, sh: nat, p: nat, len: nat, privilege: Word)
    requires e < 32 && sh < 32 && len >= 1 && p + len <= 32
    ensures LowestBit(Mask(e, 1)) > 0
    ensures GetField(Push(s, Mask(e, 1), Mask(sh, 1), Mask(p, len), privilege), Mask(e, 1)) == 0
  {
    hide SetField, GetField, Mask, LowestBit;
    LowestBitOfMask(e, 1);
    var s1 := SetField(s, Mask(sh, 1), GetField(s, Mask(e, 1)));
    GetAfterSet(SetField(s1, Mask(p, len), privilege), e, 1, 0);
  }

  /** A pop leaves the shadow set and the least privilege recorded. */
  lemma PopRest(s: Word, e: nat, sh: nat, p: nat, len: nat)
    requires e < 32 && sh < 32 && len >= 1 && p + len <= 32 && (sh < p || p + len <= sh)
    ensures LowestBit(Mask(sh, 1)) > 0 && LowestBit(Mask(p, len)) > 0
    ensures GetField(Pop(s, Mask(e, 1), Mask(sh, 1), Mask(p, len)), Mask(sh, 1)) == 1
    ensures GetField(Pop(s, Mask(e, 1), Mask(sh, 1), Mask(p, len)), Mask(p, len)) == 0
  {
    hide SetField, GetField, Mask, LowestBit, And32;
    LowestBitOfMask(sh, 1);
    var s1 := SetField(s, Mask(e, 1), GetField(s, Mask(sh, 1)));
    GetAfterSet(s1, sh, 1, 1);
    Pow2Values();
    var s2 := SetField(s1, Mask(sh, 1), 1);
    MasksApart(p, len, sh, 1);
    SetElsewhere(s2, Mask(p, len), 0, Mask(sh, 1));
    GetAfterSet(s2, p, len, 0);
  }

  /** A field apart from the three is left alone. */
  lemma PopElsewhere(s: Word, e: nat, sh: nat, p: nat, len: nat, o: nat)
    requires e < 32 && sh < 32 && len >= 1 && p + len <= 32 && o < 32
    requires o != e && o != sh && (o < p || p + len <= o)
    ensures LowestBit(Mask(sh, 1)) > 0 && LowestBit(Mask(o, 1)) > 0
    ensures GetField(Pop(s, Mask(e, 1), Mask(sh, 1), Mask(p, len)), Mask(o, 1)) == GetField(s, Mask(o, 1))
  {
    hide SetField, GetField, Mask, LowestBit, And32;
    LowestBitOfMask(sh, 1);
    LowestBitOfMask(o, 1);
    var s1 := SetField(s, Mask(e, 1), GetField(s, Mask(sh, 1)));
    var s2 := SetField(s1, Mask(sh, 1), 1);
    MasksApart(e, 1, o, 1);
    SetElsewhere(s, Mask(e, 1), GetField(s, Mask(sh, 1)), Mask(o, 1));
    MasksApart(sh, 1, o, 1);
    SetElsewhere(s1, Mask(sh, 1), 1, Mask(o, 1));
    MasksApart(p, len, o, 1);
    SetElsewhere(s2, Mask(p, len), 0, Mask(o, 1));
  }

  // ---------------------------------------------------------------- bit by bit

  /** Setting a contiguous field changes its bits to those of the value, and no other. */
  lemma SetMaskBit(reg: Word, start: nat, len: nat, val: Word, i: nat)
    requires len >= 1 && start + len <= 32 && i < 32
    ensures Bit(SetField(reg, Mask(start, len), val), i) ==
            if start <= i < start + len then Bit(val, i - start) else Bit(reg, i)
  {
    hide SetField, Mask, LowestBit, Bit;
    SetFieldBit(reg, Mask(start, len), val, i);
    MaskBit(start, len, i);
    LowestBitOfMask(start, len);
    ScaleValue(val, start);
    ShlDigit(val, start, i);
  }

  lemma OneBitDigit(s: Word, e: nat)
    requires e < 32
    ensures LowestBit(Mask(e, 1)) > 0
    ensures Bit(GetField(s, Mask(e, 1)), 0) == Bit(s, e)
  {
    hide GetField, Mask, LowestBit;
    GetFieldDigits(s, e, 1);
    LowBit(High(s, e), 1, 0);
    HighBit(s, e, 0);
  }

  /** What a trap makes of every bit of the status word. */
  lemma PushBit(s: Word, e: nat, sh: nat, p: nat, len: nat, privilege: Word, i: nat)
    requires e < 32 && sh < 32 && len >= 1 && p + len <= 32 && i < 32
    requires (e < p || p + len <= e) && (sh < p || p + len <= sh)
    ensures LowestBit(Mask(e, 1)) > 0
    ensures Bit(Push(s, Mask(e, 1), Mask(sh, 1), Mask(p, len), privilege), i) ==
            if i == e then false
            else if p <= i < p + len then Bit(privilege, i - p)
            else if i == sh then Bit(s, e) else Bit(s, i)
  {
    hide SetField, GetField, Mask, LowestBit, Bit;
    OneBitDigit(s, e);
    var s1 := SetField(s, Mask(sh, 1), GetField(s, Mask(e, 1)));
    var s2 := SetField(s1, Mask(p, len), privilege);
    SetMaskBit(s, sh, 1, GetField(s, Mask(e, 1)), i);
    SetMaskBit(s1, p, len, privilege, i);
    SetMaskBit(s2, e, 1, 0, i);
    ZeroBit(0);
  }

  /** What a return makes of every bit of the status word. */
  lemma PopBit(s: Word, e: nat, sh: nat, p: nat, len: nat, i: nat)
    requires e < 32 && sh < 32 && len >= 1 && p + len <= 32 && i < 32 && e != sh
    requires (e < p || p + len <= e) && (sh < p || p + len <= sh)
    ensures LowestBit(Mask(sh, 1)) > 0
    ensures Bit(Pop(s, Mask(e, 1), Mask(sh, 1), Mask(p, len)), i) ==
            if i == e then Bit(s, sh)
            else if i == sh then true
            else if p <= i < p + len then false else Bit(s, i)
  {
    hide SetField, GetField, Mask, LowestBit, Bit;
    OneBitDigit(s, sh);
    var s1 := SetField(s, Mask(e, 1), GetField(s, Mask(sh, 1)));
    var s2 := SetField(s1, Mask(sh, 1), 1);
    SetMaskBit(s, e, 1, GetField(s, Mask(sh, 1)), i);
    SetMaskBit(s1, sh, 1, 1, i);
    SetMaskBit(s2, p, len, 0, i);
    OneBit(0);
    if p <= i {
      ZeroBit(i - p);
    }
  }
}
