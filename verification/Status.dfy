/** The fields of the status word (riscv_status.h) and what traps and returns do to them
    (cpu_exception.c, cpu_prv.c). */
module Status {
  import opened Words
  import opened Fields

  const MSTATUS_SIE: Word := 0x2
  const MSTATUS_MIE: Word := 0x8
  const MSTATUS_SPIE: Word := 0x20
  const MSTATUS_MPIE: Word := 0x80
  const MSTATUS_SPP: Word := 0x100
  const MSTATUS_MPP: Word := 0x1800
  const MSTATUS_TSR: Word := 0x40_0000

  const PRIV_U: Word := 0
  const PRIV_S: Word := 1
  const PRIV_M: Word := 3

  /** Where the fields are. */
  lemma FieldPlaces()
    ensures MSTATUS_SIE == Mask(1, 1) && LowestBit(MSTATUS_SIE) > 0
    ensures MSTATUS_MIE == Mask(3, 1) && LowestBit(MSTATUS_MIE) > 0
    ensures MSTATUS_SPIE == Mask(5, 1) && LowestBit(MSTATUS_SPIE) > 0
    ensures MSTATUS_MPIE == Mask(7, 1) && LowestBit(MSTATUS_MPIE) > 0
    ensures MSTATUS_SPP == Mask(8, 1) && LowestBit(MSTATUS_SPP) > 0
    ensures MSTATUS_MPP == Mask(11, 2) && LowestBit(MSTATUS_MPP) > 0
    ensures MSTATUS_TSR == Mask(22, 1) && LowestBit(MSTATUS_TSR) > 0
  {
    Pow2Values();
    ScaleAt(1, 1, 2);
    ScaleAt(1, 3, 8);
    ScaleAt(1, 5, 0x20);
    ScaleAt(1, 7, 0x80);
    ScaleAt(1, 8, 0x100);
    ScaleAt(3, 11, 0x800);
    Pow2Add(20, 2);
    ScaleAt(1, 22, 0x40_0000);
    LowestBitOfMask(1, 1);
    LowestBitOfMask(3, 1);
    LowestBitOfMask(5, 1);
    LowestBitOfMask(7, 1);
    LowestBitOfMask(8, 1);
    LowestBitOfMask(11, 2);
    LowestBitOfMask(22, 1);
  }

  function Get(s: Word, mask: Word): Word
    requires mask in {MSTATUS_SIE, MSTATUS_MIE, MSTATUS_SPIE, MSTATUS_MPIE, MSTATUS_SPP, MSTATUS_MPP, MSTATUS_TSR}
  {
    FieldPlaces();
    GetField(s, mask)
  }

  /** A trap into machine mode stacks the machine interrupt-enable bit and the privilege. */
  function MachineTrapStatus(s: Word, privilege: Word): Word {
    FieldPlaces();
    Push(s, MSTATUS_MIE, MSTATUS_MPIE, MSTATUS_MPP, privilege)
  }

  /** A delegated trap does the same with the supervisor fields. */
  function SupervisorTrapStatus(s: Word, privilege: Word): Word {
    FieldPlaces();
    Push(s, MSTATUS_SIE, MSTATUS_SPIE, MSTATUS_SPP, privilege)
  }

  function MretStatus(s: Word): Word {
    FieldPlaces();
    Pop(s, MSTATUS_MIE, MSTATUS_MPIE, MSTATUS_MPP)
  }

  function SretStatus(s: Word): Word {
    FieldPlaces();
    Pop(s, MSTATUS_SIE, MSTATUS_SPIE, MSTATUS_SPP)
  }

  /** mret undoes a trap into machine mode: it finds the privilege in which the trap was
      taken, and gives back the enable bit that the trap read. */
  lemma MachineTrapUndone(s: Word, privilege: Word)
    requires privilege < 4
    ensures Get(MachineTrapStatus(s, privilege), MSTATUS_MPP) == privilege
    ensures Get(MretStatus(MachineTrapStatus(s, privilege)), MSTATUS_MIE) == Get(s, MSTATUS_MIE)
  {
    hide SetField, GetField, Push, Pop, Mask, LowestBit;
    FieldPlaces();
    Pow2Values();
    PushPrevious(s, 3, 7, 11, 2, privilege);
    PushShadow(s, 3, 7, 11, 2, privilege);
    PopEnable(MachineTrapStatus(s, privilege), 3, 7, 11, 2);
  }

  /** sret undoes a delegated trap in the same way, and the trap does not set TSR. */
  lemma SupervisorTrapUndone(s: Word, privilege: Word)
    requires privilege < 2
    ensures Get(SupervisorTrapStatus(s, privilege), MSTATUS_SPP) == privilege
    ensures Get(SretStatus(SupervisorTrapStatus(s, privilege)), MSTATUS_SIE) == Get(s, MSTATUS_SIE)
    ensures Get(SupervisorTrapStatus(s, privilege), MSTATUS_TSR) == Get(s, MSTATUS_TSR)
  {
    hide SetField, GetField, Push, Pop, Mask, LowestBit;
    FieldPlaces();
    Pow2Values();
    PushPrevious(s, 1, 5, 8, 1, privilege);
    PushShadow(s, 1, 5, 8, 1, privilege);
    PopEnable(SupervisorTrapStatus(s, privilege), 1, 5, 8, 1);
    PushElsewhere(s, 1, 5, 8, 1, privilege, 22);
  }

  /** A trap stacks the enable bit, records the privilege as far as the field holds it, and
      disables interrupts; the fields of the other mode stay. */
  lemma TrapStacks(s: Word, privilege: Word)
    ensures var t := MachineTrapStatus(s, privilege);
            && Get(t, MSTATUS_MPIE) == Get(s, MSTATUS_MIE) && Get(t, MSTATUS_MIE) == 0
            && Get(t, MSTATUS_MPP) == privilege % 4
            && Get(t, MSTATUS_SIE) == Get(s, MSTATUS_SIE) && Get(t, MSTATUS_SPIE) == Get(s, MSTATUS_SPIE)
    ensures var t := SupervisorTrapStatus(s, privilege);
            && Get(t, MSTATUS_SPIE) == Get(s, MSTATUS_SIE) && Get(t, MSTATUS_SIE) == 0
            && Get(t, MSTATUS_SPP) == privilege % 2
            && Get(t, MSTATUS_MIE) == Get(s, MSTATUS_MIE) && Get(t, MSTATUS_MPIE) == Get(s, MSTATUS_MPIE)
  {
    hide SetField, GetField, Push, Mask, LowestBit;
    FieldPlaces();
    Pow2Values();
    PushPrevious(s, 3, 7, 11, 2, privilege);
    PushShadow(s, 3, 7, 11, 2, privilege);
    PushEnable(s, 3, 7, 11, 2, privilege);
    PushElsewhere(s, 3, 7, 11, 2, privilege, 1);
    PushElsewhere(s, 3, 7, 11, 2, privilege, 5);
    PushPrevious(s, 1, 5, 8, 1, privilege);
    PushShadow(s, 1, 5, 8, 1, privilege);
    PushEnable(s, 1, 5, 8, 1, privilege);
    PushElsewhere(s, 1, 5, 8, 1, privilege, 3);
    PushElsewhere(s, 1, 5, 8, 1, privilege, 7);
  }

  /** A return takes the enable bit from the stack, sets the stacked bit, records the least
      privilege, and leaves the fields of the other mode. */
  lemma ReturnUnstacks(s: Word)
    ensures var t := MretStatus(s);
            && Get(t, MSTATUS_MIE) == Get(s, MSTATUS_MPIE) && Get(t, MSTATUS_MPIE) == 1 && Get(t, MSTATUS_MPP) == PRIV_U
            && Get(t, MSTATUS_SIE) == Get(s, MSTATUS_SIE) && Get(t, MSTATUS_SPIE) == Get(s, MSTATUS_SPIE)
    ensures var t := SretStatus(s);
            && Get(t, MSTATUS_SIE) == Get(s, MSTATUS_SPIE) && Get(t, MSTATUS_SPIE) == 1 && Get(t, MSTATUS_SPP) == PRIV_U
            && Get(t, MSTATUS_MIE) == Get(s, MSTATUS_MIE) && Get(t, MSTATUS_MPIE) == Get(s, MSTATUS_MPIE)
  {
    hide SetField, GetField, Pop, Mask, LowestBit;
    FieldPlaces();
    Pow2Values();
    PopEnable(s, 3, 7, 11, 2);
    PopRest(s, 3, 7, 11, 2);
    PopElsewhere(s, 3, 7, 11, 2, 1);
    PopElsewhere(s, 3, 7, 11, 2, 5);
    PopEnable(s, 1, 5, 8, 1);
    PopRest(s, 1, 5, 8, 1);
    PopElsewhere(s, 1, 5, 8, 1, 3);
    PopElsewhere(s, 1, 5, 8, 1, 7);
  }

  // ---------------------------------------------------------------- bit by bit

  /** A trap into machine mode: MIE (3) moves to MPIE (7), the privilege goes to MPP (11-12),
      and every other bit stays. */
  lemma MachineTrapBit(s: Word, privilege: Word, i: nat)
    requires i < 32
    ensures Bit(MachineTrapStatus(s, privilege), i) ==
            if i == 3 then false
            else if i == 11 || i == 12 then Bit(privilege, i - 11)
            else if i == 7 then Bit(s, 3) else Bit(s, i)
  {
    hide Push, Mask, LowestBit, Bit;
    FieldPlaces();
    PushBit(s, 3, 7, 11, 2, privilege, i);
  }

  /** A trap into supervisor mode: SIE (1) moves to SPIE (5), the privilege goes to SPP (8). */
  lemma SupervisorTrapBit(s: Word, privilege: Word, i: nat)
    requires i < 32
    ensures Bit(SupervisorTrapStatus(s, privilege), i) ==
            if i == 1 then false
            else if i == 8 then Bit(privilege, 0)
            else if i == 5 then Bit(s, 1) else Bit(s, i)
  {
    hide Push, Mask, LowestBit, Bit;
    FieldPlaces();
    PushBit(s, 1, 5, 8, 1, privilege, i);
  }

  lemma MretBit(s: Word, i: nat)
    requires i < 32
    ensures Bit(MretStatus(s), i) ==
            if i == 3 then Bit(s, 7) else if i == 7 then true else if i == 11 || i == 12 then false else Bit(s, i)
  {
    hide Pop, Mask, LowestBit, Bit;
    FieldPlaces();
    PopBit(s, 3, 7, 11, 2, i);
  }

  lemma SretBit(s: Word, i: nat)
    requires i < 32
    ensures Bit(SretStatus(s), i) ==
            if i == 1 then Bit(s, 5) else if i == 5 then true else if i == 8 then false else Bit(s, i)
  {
    hide Pop, Mask, LowestBit, Bit;
    FieldPlaces();
    PopBit(s, 1, 5, 8, 1, i);
  }

  /** The fields that returns read, as numbers. */
  lemma ReturnFields(s: Word)
    ensures Get(s, MSTATUS_MPP) == s / 0x800 % 4
    ensures Get(s, MSTATUS_SPP) == s / 0x100 % 2
    ensures Get(s, MSTATUS_TSR) == s / 0x40_0000 % 2
  {
    hide GetField, Mask, LowestBit;
    FieldPlaces();
    Pow2Values();
    Pow2Add(20, 2);
    GetFieldValue(s, 11, 2);
    GetFieldValue(s, 8, 1);
    GetFieldValue(s, 22, 1);
  }

  /** From a status word of zero, a trap leaves the privilege in its field and nothing else. */
  lemma TrapFromZero(privilege: Word)
    ensures privilege < 4 ==> MachineTrapStatus(0, privilege) == privilege * 0x800
    ensures privilege < 2 ==> SupervisorTrapStatus(0, privilege) == privilege * 0x100
  {
    hide Bit, MachineTrapStatus, SupervisorTrapStatus;
    Pow2Values();
    if privilege < 4 {
      ScaleAt(privilege, 11, 0x800);
      forall i: nat | i < 32
        ensures Bit(MachineTrapStatus(0, privilege), i) == Bit(privilege * 0x800, i)
      {
        MachineTrapBit(0, privilege, i);
        PlacedBit(privilege, 2, 11, i);
      }
      SameWords(MachineTrapStatus(0, privilege), privilege * 0x800);
    }
    if privilege < 2 {
      ScaleAt(privilege, 8, 0x100);
      forall i: nat | i < 32
        ensures Bit(SupervisorTrapStatus(0, privilege), i) == Bit(privilege * 0x100, i)
      {
        SupervisorTrapBit(0, privilege, i);
        PlacedBit(privilege, 1, 8, i);
      }
      SameWords(SupervisorTrapStatus(0, privilege), privilege * 0x100);
    }
  }

  /** The bits of a small number moved up by k. */
  lemma PlacedBit(n: nat, len: nat, k: nat, i: nat)
    requires n < Pow2(len)
    ensures Bit(Scale(n, k), i) == (k <= i < k + len && Bit(n, i - k))
    ensures !Bit(0, i) && !Bit(0, 1) && !Bit(0, 3)
  {
    hide Bit, Scale, Low, High;
    ScaleBit(n, k, i);
    ZeroBit(i);
    ZeroBit(1);
    ZeroBit(3);
    if i >= k {
      LowSmall(n, len);
      LowBit(n, len, i - k);
    }
  }
}
