/** The five-word boot loader (run_linux.c): its words as write_bootloader stores them, the
    RAM in which they lie, and what five calls of emulate_op make of them. */
module Bootloader {
  import opened Words
  import opened Bytes
  import opened Memory
  import opened Decode
  import opened Opcodes
  import opened Status
  import opened HartSpec
  import opened Runs
  import opened Isa
  import opened Conformance
  import opened Sequences
  import opened Options
  import opened MemoryMap
  import opened PhysicalMemory
  import Machine

  const BOOTLOADER_ADDRESS: Word := 0x1000
  const RAM_BASE_ADDR: Word := 0x8000_0000

  /** q[k] */
  function BootWord(k: nat, fdtAddr: Word): Word {
    match k
    case 0 => Sub32(Add32(0x297, RAM_BASE_ADDR), 0x1000)
    case 1 => 0x597
    case 2 => Add32(0x5_8593, Shl32(Sub32(fdtAddr, 4), 20))
    case 3 => 0xF140_2573
    case _ => 0x0002_8067
  }

  // ---------------------------------------------------------------- RAM

  /** The five words are in place. */
  predicate HoldsBootloader(bytes: seq<Byte>, fdtAddr: Word) {
    |bytes| >= 0x1014 && forall k :: 0 <= k < 5 ==> WordAt(bytes, 0x1000 + 4 * k) == BootWord(k, fdtAddr)
  }

  lemma SameWordAt(s: seq<Byte>, t: seq<Byte>, o: nat)
    requires o + 4 <= |s| && o + 4 <= |t| && s[o] == t[o] && s[o + 1] == t[o + 1] && s[o + 2] == t[o + 2] && s[o + 3] == t[o + 3]
    ensures WordAt(s, o) == WordAt(t, o)
  {
  }

  /** q[k] = BootWord(k): the other words stay. */
  method StoreBootWord(ram: array<Byte>, k: nat, fdtAddr: Word)
    requires ram.Length >= 0x1014 && k < 5
    modifies ram
    ensures WordAt(ram[..], 0x1000 + 4 * k) == BootWord(k, fdtAddr)
    ensures forall i :: 0 <= i < 5 && i != k ==> WordAt(ram[..], 0x1000 + 4 * i) == old(WordAt(ram[..], 0x1000 + 4 * i))
    ensures forall j :: 0 <= j < ram.Length && !(0x1000 <= j < 0x1014) ==> ram[j] == old(ram[j])
  {
    hide WordAt, BootWord;
    ghost var was := ram[..];
    StoreWord(ram, 0x1000 + 4 * k, BootWord(k, fdtAddr));
    forall i | 0 <= i < 5 && i != k
      ensures WordAt(ram[..], 0x1000 + 4 * i) == WordAt(was, 0x1000 + 4 * i)
    {
      SameWordAt(ram[..], was, 0x1000 + 4 * i);
    }
  }

  /** write_bootloader */
  method WriteBootloader(ram: array<Byte>, fdtAddr: Word)
    requires ram.Length >= 0x1014
    modifies ram
    ensures HoldsBootloader(ram[..], fdtAddr)
    ensures forall j :: 0 <= j < ram.Length && !(0x1000 <= j < 0x1014) ==> ram[j] == old(ram[j])
  {
    hide WordAt, BootWord;
    StoreBootWord(ram, 0, fdtAddr);
    StoreBootWord(ram, 1, fdtAddr);
    StoreBootWord(ram, 2, fdtAddr);
    StoreBootWord(ram, 3, fdtAddr);
    StoreBootWord(ram, 4, fdtAddr);
  }

  // ---------------------------------------------------------------- the words as instructions

  /** The signed 12-bit immediate that the third word gets for an address. */
  function LowTwelve(fdtAddr: Word): int {
    var low := Sub32(fdtAddr, 4) % 0x1000;
    if low < 0x800 then low else low - 0x1000
  }

  lemma AuipcWords()
    ensures BootWord(0, 0) == Encoding(UpperImmediate(AUIPC, 5, 0x7_FFFF))
    ensures BootWord(1, 0) == Encoding(UpperImmediate(AUIPC, 11, 0))
  {
    hide BootWord, Encoding;
    FirstAuipc();
    SecondAuipc();
  }

  lemma FirstAuipc()
    ensures BootWord(0, 0) == Encoding(UpperImmediate(AUIPC, 5, 0x7_FFFF))
  {
    hide BootWord, Encode;
    FirstWord();
    FirstEncoding();
  }

  lemma FirstWord()
    ensures BootWord(0, 0) == 0x7FFF_F297
  {
  }

  lemma FirstEncoding()
    ensures Encode(UpperImmediate(AUIPC, 5, 0x7_FFFF)) == 0x7FFF_F297
  {
  }

  lemma SecondAuipc()
    ensures BootWord(1, 0) == Encoding(UpperImmediate(AUIPC, 11, 0))
  {
    hide Rd, Listed3, Listed7, IsA;
  }

  lemma JumpWord()
    ensures BootWord(4, 0) == Encoding(JumpRegister(0, 5, 0))
  {
  }

  lemma AddiWord(fdtAddr: Word)
    ensures -0x800 <= LowTwelve(fdtAddr) < 0x800
    ensures BootWord(2, fdtAddr) == Encoding(Immediate(ADDI, 11, 11, LowTwelve(fdtAddr)))
  {
    hide Sub32, GetIImm, IsA;
    var low := Sub32(fdtAddr, 4) % 0x1000;
    TopTwelve(Sub32(fdtAddr, 4));
    LowTwelveGroups(LowTwelve(fdtAddr), low);
    assert Listed3(ADDI) == 0;
  }

  /** Shifting left by 20 keeps the low twelve bits. */
  lemma TopTwelve(v: Word)
    ensures Shl32(v, 20) == v % 0x1000 * 0x10_0000
  {
    Pow2Values();
    ScaleAt(v, 20, 0x10_0000);
    DivUnique(v * 0x10_0000, 0x1_0000_0000, v / 0x1000, v % 0x1000 * 0x10_0000);
  }

  lemma LowTwelveGroups(imm: int, low: nat)
    requires low < 0x1000 && (imm == low || imm == low - 0x1000)
    ensures ILow(imm) * 0x10_0000 + IHigh(imm) * 0x200_0000 == low * 0x10_0000
  {
  }

  lemma CsrWord()
    ensures IsA(0xF140_2573, CSRRS) && Rd(0xF140_2573) == 10 && Rs1(0xF140_2573) == 0
    ensures GetIImmUnsigned(0xF140_2573) == CSR_MHARTID
  {
    hide GetIImmUnsigned, PatternOf, Rd, Rs1;
    IImmUnsignedValue(0xF140_2573);
    CsrrsPattern();
    CsrNumerals();
  }

  lemma CsrNumerals()
    ensures Rd(0xF140_2573) == 10 && Rs1(0xF140_2573) == 0
    ensures Opcode(0xF140_2573) == 0x73 && Funct3(0xF140_2573) == 2
  {
    hide Shr32, And;
  }

  lemma CsrrsPattern()
    ensures PatternOf(CSRRS) == ByFunct3(0x73, 2)
  {
  }

  // ---------------------------------------------------------------- five steps

  /** csrr a0, mhartid: a CSRRS that sets no bits. */
  lemma CsrReadStep<M>(bus: Bus<M>, h: Hart<M>, m: M)
    requires Boundary(h) && h.life == Live && FetchOf(bus, h) == Fetched(m, 0xF140_2573)
    ensures var h' := Step(bus, h);
            Follows(h, h', m) && h'.pc == (h.pc + 4) % 0x1_0000_0000 && h'.x == h.x[10 := h.csr[CSR_MHARTID]]
  {
    hide Step, FirstMatch, IsA, Handle, Finish, Add32;
    CsrWord();
    EmulatorSelects(0xF140_2573, CSRRS);
    StepSelected(bus, h, m, 0xF140_2573, CSRRS);
    CsrReadHandler(bus, AtHandler(h, m), PointerOf(bus, h));
    FinishPlain(Handle(bus, AtHandler(h, m), CSRRS, 0xF140_2573, PointerOf(bus, h)));
    StepKeepsBoundary(bus, h);
    NextPc(h.pc);
  }

  lemma CsrReadHandler<M>(bus: Bus<M>, h: Hart<M>, at: Word)
    requires h.Shaped() && h.x[0] == 0
    ensures Handle(bus, h, CSRRS, 0xF140_2573, at) == h.(x := h.x[10 := h.csr[CSR_MHARTID]])
  {
    hide GetIImmUnsigned, IsA, Handle, Or32, CsrOp, Rd, Rs1;
    hide RegisterOp, ImmediateOp, UpperOp, BranchOp, JumpOp, LoadInto, StoreFrom, AtomicOp, SystemOp;
    CsrWord();
    HandleByKind(bus, h, CSRRS, 0xF140_2573, at);
    ReadOnlyCsrrs(h, 0xF140_2573);
    NothingOred(h.csr[CSR_MHARTID]);
    assert h.csr[CSR_MHARTID := h.csr[CSR_MHARTID]] == h.csr;
  }

  lemma NothingOred(a: Word)
    ensures Or32(a, 0) == a
  {
  }

  lemma ReadOnlyCsrrs<M>(h: Hart<M>, w: Word)
    requires h.Shaped() && h.x[0] == 0 && GetIImmUnsigned(w) < 4096 && Rs1(w) == 0 && Rd(w) != 0
    ensures var was := h.csr[GetIImmUnsigned(w)];
            CsrOp(h, CSRRS, w) == h.SetReg(Rd(w), was).SetCsr(GetIImmUnsigned(w), Or32(was, 0))
  {
    hide GetIImmUnsigned, Or32;
  }

  /** The state k words into the boot loader: nothing that fetches depend on has changed. */
  ghost predicate BootedTo<M>(h: Hart<M>, h': Hart<M>, k: nat) {
    && Boundary(h) && Boundary(h') && h'.life == Live
    && h'.pc == 0x1000 + 4 * k && h'.mem == h.mem && h'.Access() == h.Access()
    && h'.privilege == h.privilege && h'.csr[CSR_MHARTID] == h.csr[CSR_MHARTID]
  }

  /** The words of the boot loader are what the bus fetches. */
  ghost predicate Fetchable<M>(bus: Bus<M>, h: Hart<M>, fdtAddr: Word) {
    h.Shaped() && forall k :: 0 <= k < 5 ==>
      FetchAt(bus, h.mem, h.Access(), 0x1000 + 4 * k) == Fetched(h.mem, BootWord(k, fdtAddr))
  }

  lemma Advance<M>(h: Hart<M>, h1: Hart<M>, h2: Hart<M>, k: nat)
    requires BootedTo(h, h1, k) && k < 5 && Follows(h1, h2, h.mem) && h2.pc == (h1.pc + 4) % 0x1_0000_0000
    ensures BootedTo(h, h2, k + 1)
  {
  }

  lemma FetchBoot<M>(bus: Bus<M>, h: Hart<M>, h1: Hart<M>, k: nat, fdtAddr: Word)
    requires Fetchable(bus, h, fdtAddr) && BootedTo(h, h1, k) && k < 5
    ensures Boundary(h1) && h1.life == Live && FetchOf(bus, h1) == Fetched(h.mem, BootWord(k, fdtAddr))
    ensures h1.pc == 0x1000 + 4 * k && h1.csr[CSR_MHARTID] == h.csr[CSR_MHARTID]
  {
  }

  /** What ends up in a1. */
  function DeviceTreeRegister(fdtAddr: Word): Word {
    ToWord(0x1004 + LowTwelve(fdtAddr) % 0x1_0000_0000)
  }

  lemma TwoSteps<M>(bus: Bus<M>, h: Hart<M>, fdtAddr: Word)
    requires Boundary(h) && h.life == Live && h.pc == BOOTLOADER_ADDRESS && Fetchable(bus, h, fdtAddr)
    ensures var h2 := Step(bus, Step(bus, h));
            BootedTo(h, h2, 2) && h2.Shaped() && h2.x == h.x[5 := RAM_BASE_ADDR][11 := 0x1004]
  {
    hide Step, Follows, BootedTo, Fetchable, FetchOf, BootWord, Encoding, Boundary, Encodable, Encode, ToWord, Add32, Sub32;
    hide Shl32, DeviceTreeRegister, LowTwelve, Completes, IsA;
    StartBoot(h);
    AuipcWords();
    SameWord(fdtAddr);
    FetchBoot(bus, h, h, 0, fdtAddr);
    UpperStep(bus, h, AUIPC, 5, 0x7_FFFF, h.mem);
    var h1 := Step(bus, h);
    Advance(h, h, h1, 0);
    FetchBoot(bus, h, h1, 1, fdtAddr);
    UpperStep(bus, h1, AUIPC, 11, 0, h.mem);
    Advance(h, h1, Step(bus, h1), 1);
    FetchBoot(bus, h, Step(bus, h1), 2, fdtAddr);
  }

  lemma TwoMoreSteps<M>(bus: Bus<M>, h: Hart<M>, h2: Hart<M>, fdtAddr: Word)
    requires Boundary(h) && Fetchable(bus, h, fdtAddr) && BootedTo(h, h2, 2)
    requires h2.x[11] == 0x1004
    ensures var h4 := Step(bus, Step(bus, h2));
            && BootedTo(h, h4, 4) && h4.Shaped()
            && h4.x == h2.x[11 := DeviceTreeRegister(fdtAddr)][10 := h.csr[CSR_MHARTID]]
  {
    hide Step, Follows, BootedTo, Fetchable, FetchOf, BootWord, Encoding, LowTwelve;
    SameWord(fdtAddr);
    FetchBoot(bus, h, h2, 2, fdtAddr);
    AddiWord(fdtAddr);
    AddiStep(bus, h2, 11, 11, LowTwelve(fdtAddr), h.mem);
    var h3 := Step(bus, h2);
    Advance(h, h2, h3, 2);
    FetchBoot(bus, h, h3, 3, fdtAddr);
    CsrReadStep(bus, h3, h.mem);
    Advance(h, h3, Step(bus, h3), 3);
    FetchBoot(bus, h, Step(bus, h3), 4, fdtAddr);
  }

  /** Five steps from 0x1000: the pc is the base of RAM, a0 is mhartid, t0 the jump target,
      and a1 what the third word adds to its own address. */
  lemma BootSteps<M>(bus: Bus<M>, h: Hart<M>, fdtAddr: Word)
    requires Boundary(h) && h.life == Live && h.pc == BOOTLOADER_ADDRESS && Fetchable(bus, h, fdtAddr)
    ensures var h5 := StepN(bus, h, 5);
            && Boundary(h5) && h5.life == Live && h5.mem == h.mem && h5.privilege == h.privilege
            && h5.pc == RAM_BASE_ADDR
            && h5.x == h.x[5 := RAM_BASE_ADDR][11 := DeviceTreeRegister(fdtAddr)][10 := h.csr[CSR_MHARTID]]
  {
    hide Step, BootedTo, Fetchable, FetchOf, BootWord, Encoding, Follows, DeviceTreeRegister;
    TwoSteps(bus, h, fdtAddr);
    var h2 := Step(bus, Step(bus, h));
    TwoMoreSteps(bus, h, h2, fdtAddr);
    var h4 := Step(bus, Step(bus, h2));
    LastStep(bus, h, h4, fdtAddr);
    assert StepN(bus, h, 5) == StepN(bus, h2, 3) == StepN(bus, h4, 1) == Step(bus, h4);
  }

  lemma LastStep<M>(bus: Bus<M>, h: Hart<M>, h4: Hart<M>, fdtAddr: Word)
    requires Fetchable(bus, h, fdtAddr) && BootedTo(h, h4, 4) && h4.x[5] == RAM_BASE_ADDR
    ensures var h5 := Step(bus, h4);
            && Boundary(h5) && h5.life == Live && h5.mem == h.mem && h5.privilege == h.privilege
            && h5.pc == RAM_BASE_ADDR && h5.x == h4.x
  {
    hide Step, Fetchable, FetchOf, BootWord, Encoding;
    JumpWord();
    SameWord(fdtAddr);
    FetchBoot(bus, h, h4, 4, fdtAddr);
    JalrStep(bus, h4, 0, 5, 0, h.mem);
  }

  /** a1 is the address of the device tree exactly when that lies within the reach of a
      12-bit immediate around 0x1004. */
  lemma DeviceTreeInReach(fdtAddr: Word)
    ensures DeviceTreeRegister(fdtAddr) == fdtAddr <==> -0x800 <= Signed(Sub32(fdtAddr, 0x1004)) < 0x800
  {
    hide DeviceTreeRegister, LowTwelve, Sub32;
    RegisterSum(fdtAddr);
    LowTwelveOfDistance(fdtAddr);
    Distance(fdtAddr, LowTwelve(fdtAddr));
    OnlyMultiple(Signed(Sub32(fdtAddr, 0x1004)), LowTwelve(fdtAddr));
  }

  lemma Distance(fdtAddr: Word, l: int)
    requires -0x800 <= l < 0x800
    ensures (0x1004 + l) % 0x1_0000_0000 == fdtAddr <==> Signed(Sub32(fdtAddr, 0x1004)) == l
  {
  }

  lemma LowTwelveOfDistance(fdtAddr: Word)
    ensures -0x800 <= LowTwelve(fdtAddr) < 0x800
    ensures (Signed(Sub32(fdtAddr, 0x1004)) - LowTwelve(fdtAddr)) % 0x1000 == 0
  {
    hide Sub32;
    LowOfDistance(fdtAddr);
  }

  /** Of the numbers that differ by multiples of 0x1000, one lies in the range. */
  lemma OnlyMultiple(d: int, l: int)
    requires -0x800 <= l < 0x800 && (d - l) % 0x1000 == 0
    ensures d == l <==> -0x800 <= d < 0x800
  {
  }

  lemma LowOfDistance(fdtAddr: Word)
    ensures Sub32(fdtAddr, 4) % 0x1000 == Sub32(fdtAddr, 0x1004) % 0x1000
  {
    DivDiv(fdtAddr - 4, 0x1000, 0x10_0000);
    DivDiv(fdtAddr - 0x1004, 0x1000, 0x10_0000);
  }

  lemma RegisterSum(fdtAddr: Word)
    ensures DeviceTreeRegister(fdtAddr) == (0x1004 + LowTwelve(fdtAddr)) % 0x1_0000_0000
  {
    hide LowTwelve;
    AddModulo(0x1004, LowTwelve(fdtAddr));
  }

  lemma StartBoot<M>(h: Hart<M>)
    requires Boundary(h) && h.life == Live && h.pc == BOOTLOADER_ADDRESS
    ensures BootedTo(h, h, 0)
  {
  }

  lemma SameWord(fdtAddr: Word)
    ensures BootWord(0, fdtAddr) == BootWord(0, 0) && BootWord(1, fdtAddr) == BootWord(1, 0)
    ensures BootWord(3, fdtAddr) == 0xF140_2573 && BootWord(4, fdtAddr) == BootWord(4, 0)
  {
  }

  // ---------------------------------------------------------------- the machine of run_linux

  /** The ranges of initialize_riscv_machine, in the order of registration. */
  function MachineRanges(): seq<Range> {
    [Range(RAM_BASE_ADDR, 0x600_0000, true, null), Range(0, 0x1_0000, true, null),
     Range(0x4000_8000, 16, false, null), Range(0x200_0000, 0xC_0000, false, null),
     Range(0x1000_0000, 0x100, false, null)]
  }

  /** initialize_riscv_machine: the two RAM ranges get memory of their own. */
  method InitializeRanges() returns (ranges: MemoryMap)
    ensures fresh(ranges) && ranges.Valid() && |ranges.Ranges()| == 5
    ensures forall i :: 0 <= i < 5 ==> ranges.Ranges()[i].(memory := null) == MachineRanges()[i]
    ensures forall i :: 0 <= i < 2 ==> ranges.Ranges()[i].memory != null && ranges.Ranges()[i].memory.Length == ranges.Ranges()[i].size
  {
    ranges := new MemoryMap();
    var slot := ranges.RegisterRam(0x8000_0000, 0x600_0000);
    ghost var first := ranges.Ranges();
    slot := ranges.RegisterRam(0, 0x1_0000);
    assert ranges.Ranges()[0] == ranges.Ranges()[..1][0] == first[0];
    slot := ranges.RegisterDevice(0x4000_8000, 16);
    slot := ranges.RegisterDevice(0x200_0000, 0xC_0000);
    slot := ranges.RegisterDevice(0x1000_0000, 0x100);
  }

  /** Which range holds an address, in numbers; the others have none. */
  lemma AddressMap(p: Word)
    ensures Lookup(MachineRanges(), p) ==
            if 0x8000_0000 <= p < 0x8600_0000 then Some(0)
            else if p < 0x1_0000 then Some(1)
            else if 0x4000_8000 <= p < 0x4000_8010 then Some(2)
            else if 0x200_0000 <= p < 0x20C_0000 then Some(3)
            else if 0x1000_0000 <= p < 0x1000_0100 then Some(4)
            else None
    ensures |MachineRanges()| == 5
    ensures forall i :: 0 <= i < 5 ==> MachineRanges()[i].isRam == (i < 2)
  {
    var ranges := MachineRanges();
    assert ranges[0].address == 0x8000_0000 && ranges[1].address == 0 && ranges[2].address == 0x4000_8000
        && ranges[3].address == 0x200_0000 && ranges[4].address == 0x1000_0000;
    var i := Lookup(ranges, p);
    assert forall j :: 0 <= j < 5 && Covers(ranges[j], p) ==> i.Some? && i.value <= j;
    assert Covers(ranges[0], p) <==> 0x8000_0000 <= p < 0x8600_0000;
    assert Covers(ranges[1], p) <==> p < 0x1_0000;
    assert Covers(ranges[2], p) <==> 0x4000_8000 <= p < 0x4000_8010;
    assert Covers(ranges[3], p) <==> 0x200_0000 <= p < 0x20C_0000;
    assert Covers(ranges[4], p) <==> 0x1000_0000 <= p < 0x1000_0100;
  }

  lemma LowRam(address: Word)
    requires address < 0x1_0000
    ensures Lookup(MachineRanges(), address) == Some(1) && Sub32(address, MachineRanges()[1].address) == address
  {
    var ranges := MachineRanges();
    assert !Covers(ranges[0], address) && Covers(ranges[1], address);
  }

  /** A fetch from the low RAM. */
  lemma LowFetch<D>(sys: System<D>, ram: Ram<D>, a: Access, address: Word)
    requires Bare(a) && address % 4 == 0 && address < 0x1_0000
    requires ram.ranges == MachineRanges() && |ram.contents| >= 2 && |ram.contents[1]| == 0x1_0000
    ensures FetchAt(RamBus(sys), ram, a, address) == Fetched(ram, WordAt(ram.contents[1], address))
  {
    hide WordAt;
    LowRam(address);
  }

  /** From the reset state, over RAM that write_bootloader has filled: whatever else lies in
      RAM and whatever the devices do, the machine starts the kernel image at the base of RAM
      in machine mode, with the hart id in a0, the device tree in a1 if it is in reach, the
      address of the image in t0, and zero in every other register. */
  lemma BootFromReset<D>(sys: System<D>, ram: Ram<D>, fdtAddr: Word, mhartid: Word)
    requires ram.ranges == MachineRanges() && |ram.contents| >= 2 && |ram.contents[1]| == 0x1_0000
    requires HoldsBootloader(ram.contents[1], fdtAddr)
    ensures var h := Machine.Initial(ram, mhartid).(pc := BOOTLOADER_ADDRESS);
            var h5 := StepN(RamBus(sys), h, 5);
            && Boundary(h5) && h5.life == Live && h5.pc == 0x8000_0000 && h5.privilege == 3
            && h5.x[10] == mhartid && h5.x[5] == 0x8000_0000
            && (forall i :: 0 <= i < 32 && i !in {5, 10, 11} ==> h5.x[i] == 0)
            && (h5.x[11] == fdtAddr <==> -0x800 <= Signed(Sub32(fdtAddr, 0x1004)) < 0x800)
  {
    hide StepN, DeviceTreeRegister, BootWord, WordAt, FetchAt, RamBus;
    var h := Machine.Initial(ram, mhartid).(pc := BOOTLOADER_ADDRESS);
    StartIsBoundary(ram, mhartid, BOOTLOADER_ADDRESS);
    assert Fetchable(RamBus(sys), h, fdtAddr) by {
      forall k | 0 <= k < 5
        ensures FetchAt(RamBus(sys), ram, h.Access(), 0x1000 + 4 * k) == Fetched(ram, BootWord(k, fdtAddr))
      {
        LowFetch(sys, ram, h.Access(), 0x1000 + 4 * k);
      }
    }
    Machine.ResetState(ram, mhartid);
    BootSteps(RamBus(sys), h, fdtAddr);
    DeviceTreeInReach(fdtAddr);
  }
}
