/** The emulator as the program it is: the State structure, updated in place by the
    handlers, and emulate_op.  Every method is proved against the value-level
    specification of module HartSpec. */
module Machine {
  import opened Words
  import opened Fields
  import opened Memory
  import opened Decode
  import opened Operands
  import opened Opcodes
  import opened MulDiv
  import opened Status
  import opened HartSpec

  const PC_HISTORY_DEPTH := 8

  class State<M> {
    var pc: Word
    const x: array<Word>
    const csr: array<Word>
    var status: RunStatus
    var instructionCounter: Word
    var pendingTval: Word
    var pendingException: Word
    var hasPendingException: bool
    var privilege: Word
    var loadReservation: Word
    const pcHistory: array<Word>
    var mem: M
    var life: Life
    const bus: Bus<M>

    ghost predicate Valid()
      reads this
    {
      && x.Length == 32 && csr.Length == 4096 && pcHistory.Length == PC_HISTORY_DEPTH
      && x != csr && x != pcHistory && csr != pcHistory
    }

    /** The state as a value. */
    ghost function Value(): (h: Hart<M>)
      reads this, x, csr, pcHistory
      requires Valid()
      ensures h.Shaped()
    {
      Hart(pc, x[..], csr[..], status, instructionCounter, pendingTval, pendingException, hasPendingException,
           privilege, loadReservation, pcHistory[..], mem, life)
    }

    /** initialize_state_linux: everything zero, machine mode, and misa set. */
    constructor (bus: Bus<M>, mem: M, mhartid: Word)
      ensures Valid() && fresh(x) && fresh(csr) && fresh(pcHistory)
      ensures this.bus == bus
      ensures pc == 0 && privilege == 3 && status == RUNNING && life == Live && this.mem == mem
      ensures instructionCounter == pendingTval == pendingException == loadReservation == 0 && !hasPendingException
      ensures forall i :: 0 <= i < 32 ==> x[i] == 0
      ensures forall k :: 0 <= k < 8 ==> pcHistory[k] == 0
      ensures forall k :: 0 <= k < 4096 ==> csr[k] == if k == 0x301 then 0x4004_1101 else if k == 0xF14 then mhartid else 0
      ensures Value() == Initial(mem, mhartid)
    {
      pc := 0;
      x := new Word[32](_ => 0);
      csr := new Word[4096](_ => 0);
      status := RUNNING;
      instructionCounter := 0;
      pendingTval, pendingException, hasPendingException := 0, 0, false;
      privilege := PRIV_M;
      loadReservation := 0;
      pcHistory := new Word[PC_HISTORY_DEPTH](_ => 0);
      this.mem := mem;
      life := Live;
      this.bus := bus;
      new;
      csr[CSR_MISA] := 0x4004_1101;
      csr[CSR_MHARTID] := mhartid;
      assert x[..] == Zeros(32) && pcHistory[..] == Zeros(8);
      assert csr[..] == Zeros(4096)[CSR_MISA := 0x4004_1101][CSR_MHARTID := mhartid];
    }

    // -------------------------------------------------------------- registers

    /** set_reg */
    method SetReg(index: Word, value: Word)
      requires Valid() && index < 32
      modifies x
      ensures Value() == old(Value()).SetReg(index, value)
    {
      if index == 0 {
        return;
      }
      x[index] := value;
      assert x[..] == old(x[..])[index := value];
    }

    method SetRdValue(w: Word, value: Word)
      requires Valid()
      modifies x
      ensures Value() == old(Value()).SetReg(Rd(w), value)
    {
      SetReg(Rd(w), value);
    }

    method WriteCsr(index: Word, value: Word)
      requires Valid() && index < 4096
      modifies csr
      ensures Value() == old(Value()).SetCsr(index, value)
    {
      csr[index] := value;
      assert csr[..] == old(csr[..])[index := value];
    }

    // -------------------------------------------------------------- traps (cpu_exception.c)

    method RaiseException(cause: Word, tval: Word)
      requires Valid()
      modifies this, csr
      ensures Value() == TakeTrap(old(Value()), cause, tval)
    {
      hide SetField, GetField, SupervisorTrapStatus, MachineTrapStatus, And32, Shr32, Shl32, Bit;
      var bit := cause;
      CauseBits(cause);
      FieldPlaces();
      var interrupt := And32(bit, Shl32(1, 31)) != 0;
      var deleg := csr[if interrupt then CSR_MIDELEG else CSR_MEDELEG];
      if interrupt {
        bit := And32(bit, Not32(Shl32(1, 31)));
      }
      var delegateToSMode := false;
      if bit < 32 {
        ShiftedBit(deleg, bit);
        delegateToSMode := And32(Shr32(deleg, bit), 1) != 0;
      }
      assert delegateToSMode == Delegated(old(Value()), cause);
      if privilege <= PRIV_S && delegateToSMode {
        TrapToSupervisor(cause, tval);
      } else {
        TrapToMachine(cause, tval);
      }
      pendingException := 0;
      pendingTval := 0;
      hasPendingException := false;
    }

    method TrapToSupervisor(cause: Word, tval: Word)
      requires Valid()
      modifies this, csr
      ensures var h := old(Value());
              var t := h.SetCsr(CSR_SEPC, Sub32(h.pc, 4)).SetCsr(CSR_SCAUSE, cause).SetCsr(CSR_STVAL, tval);
              Value() == t.SetCsr(CSR_MSTATUS, SupervisorTrapStatus(h.status.Value(), h.privilege))
                          .(pc := t.csr[CSR_STVEC], privilege := PRIV_S)
    {
      hide SetField, GetField, Mask, LowestBit;
      WriteCsr(CSR_SEPC, Sub32(pc, 4));
      WriteCsr(CSR_SCAUSE, cause);
      WriteCsr(CSR_STVAL, tval);
      pc := csr[CSR_STVEC];
      FieldPlaces();
      var s := status.Value();
      s := SetField(s, MSTATUS_SPIE, GetField(s, MSTATUS_SIE));
      s := SetField(s, MSTATUS_SPP, privilege);
      s := SetField(s, MSTATUS_SIE, 0);
      WriteCsr(CSR_MSTATUS, s);
      privilege := PRIV_S;
    }

    method TrapToMachine(cause: Word, tval: Word)
      requires Valid()
      modifies this, csr
      ensures var h := old(Value());
              var t := h.SetCsr(CSR_MCAUSE, cause).SetCsr(CSR_MEPC, Sub32(h.pc, 4)).SetCsr(CSR_MTVAL, tval);
              Value() == t.SetCsr(CSR_MSTATUS, MachineTrapStatus(h.status.Value(), h.privilege))
                          .(pc := t.csr[CSR_MTVEC], privilege := PRIV_M)
    {
      hide SetField, GetField, Mask, LowestBit;
      WriteCsr(CSR_MCAUSE, cause);
      WriteCsr(CSR_MEPC, Sub32(pc, 4));
      WriteCsr(CSR_MTVAL, tval);
      pc := csr[CSR_MTVEC];
      FieldPlaces();
      var s := status.Value();
      s := SetField(s, MSTATUS_MPIE, GetField(s, MSTATUS_MIE));
      s := SetField(s, MSTATUS_MPP, privilege);
      s := SetField(s, MSTATUS_MIE, 0);
      WriteCsr(CSR_MSTATUS, s);
      privilege := PRIV_M;
    }

    method ECall()
      requires Valid()
      modifies this, csr
      ensures Value() == Ecall(old(Value()))
    {
      hide TakeTrap;
      if privilege == PRIV_M {
        pendingException := CAUSE_MACHINE_ECALL;
      } else if privilege == PRIV_S {
        pendingException := CAUSE_SUPERVISOR_ECALL;
      } else if privilege == PRIV_U {
        pendingException := CAUSE_USER_ECALL;
      }
      RaiseException(pendingException, pendingTval);
    }

    method MRet()
      requires Valid()
      modifies this, csr
      ensures Value() == Mret(old(Value()))
    {
      hide SetField, GetField, Mask, LowestBit;
      if privilege != PRIV_M {
        life := Exited(EXIT_ILLEGAL_MRET);
        return;
      }
      pc := csr[CSR_MEPC];
      FieldPlaces();
      var s := csr[CSR_MSTATUS];
      var prevPrv := GetField(s, MSTATUS_MPP);
      s := SetField(s, MSTATUS_MIE, GetField(s, MSTATUS_MPIE));
      s := SetField(s, MSTATUS_MPIE, 1);
      s := SetField(s, MSTATUS_MPP, PRIV_U);
      privilege := prevPrv;
      WriteCsr(CSR_MSTATUS, s);
    }

    method SRet()
      requires Valid()
      modifies this, csr
      ensures Value() == Sret(old(Value()))
    {
      hide SetField, GetField, Mask, LowestBit;
      FieldPlaces();
      var tsr := GetField(csr[CSR_MSTATUS], MSTATUS_TSR);
      var requiredPrivilege := if tsr != 0 then PRIV_M else PRIV_S;
      if privilege != requiredPrivilege {
        life := Exited(EXIT_ILLEGAL_SRET);
        return;
      }
      pc := csr[CSR_SEPC];
      var s := csr[CSR_MSTATUS];
      var previousPrivilege := GetField(s, MSTATUS_SPP);
      s := SetField(s, MSTATUS_SIE, GetField(s, MSTATUS_SPIE));
      s := SetField(s, MSTATUS_SPIE, 1);
      s := SetField(s, MSTATUS_SPP, PRIV_U);
      privilege := previousPrivilege;
      WriteCsr(CSR_MSTATUS, s);
    }

    method URet()
      requires Valid()
      modifies this
      ensures Value() == old(Value()).(pc := old(csr[CSR_UEPC]))
    {
      pc := csr[CSR_UEPC];
    }

    method Wfi()
      requires Valid()
      modifies this
      ensures Value() == old(Value()).(life := Exited(EXIT_WFI))
    {
      life := Exited(EXIT_WFI);
    }

    // -------------------------------------------------------------- memory (memory.c)

    /** read_common */
    method ReadCommon(address: Word, width: Width) returns (value: Word)
      requires Valid()
      modifies this
      ensures (Value(), value) == Read(bus, old(Value()), width, address)
    {
      match bus.load(mem, Access.Access(privilege, csr[CSR_SATP]), width, address) {
        case Loaded(m, v) =>
          mem := m;
          value := v;
        case LoadFault(m) =>
          mem := m;
          pendingException, pendingTval, hasPendingException := CAUSE_LOAD_PAGE_FAULT, address, true;
          value := 0xFFFF_FFFF;
        case LoadUnmapped =>
          life := Crashed;
          value := 0;
      }
    }

    /** write_common */
    method WriteCommon(address: Word, value: Word, width: Width)
      requires Valid()
      modifies this
      ensures Value() == Write(bus, old(Value()), width, address, value)
    {
      match bus.store(mem, Access.Access(privilege, csr[CSR_SATP]), width, address, value) {
        case Stored(m) =>
          mem := m;
        case StoreFault(m) =>
          mem := m;
          pendingException, pendingTval, hasPendingException := CAUSE_STORE_PAGE_FAULT, address, true;
        case StoreUnmapped =>
          life := Crashed;
      }
    }

    // -------------------------------------------------------------- computation (cpu.c, cpu_m.c)

    method Add(w: Word)
      requires Valid()
      modifies this, x
      ensures Value() == RegisterOp(old(Value()), ADD, w)
    {
      var value := Add32(x[Rs1(w)], x[Rs2(w)]);
      SetRdValue(w, value);
    }

    method Sub(w: Word)
      requires Valid()
      modifies this, x
      ensures Value() == RegisterOp(old(Value()), SUB, w)
    {
      var value := Sub32(x[Rs1(w)], x[Rs2(w)]);
      SetRdValue(w, value);
    }

    method Sll(w: Word)
      requires Valid()
      modifies this, x
      ensures Value() == RegisterOp(old(Value()), SLL, w)
    {
      var shamt := And32(x[Rs2(w)], 0x1F);
      LowBits(x[Rs2(w)]);
      var value := Shl32(x[Rs1(w)], shamt);
      SetRdValue(w, value);
    }

    method Slt(w: Word)
      requires Valid()
      modifies this, x
      ensures Value() == RegisterOp(old(Value()), SLT, w)
    {
      var value := if Signed(x[Rs1(w)]) < Signed(x[Rs2(w)]) then 1 else 0;
      SetRdValue(w, value);
    }

    method Sltu(w: Word)
      requires Valid()
      modifies this, x
      ensures Value() == RegisterOp(old(Value()), SLTU, w)
    {
      var value := if x[Rs1(w)] < x[Rs2(w)] then 1 else 0;
      SetRdValue(w, value);
    }

    method Xor(w: Word)
      requires Valid()
      modifies this, x
      ensures Value() == RegisterOp(old(Value()), XOR, w)
    {
      var value := Xor32(x[Rs1(w)], x[Rs2(w)]);
      SetRdValue(w, value);
    }

    method Srl(w: Word)
      requires Valid()
      modifies this, x
      ensures Value() == RegisterOp(old(Value()), SRL, w)
    {
      var shamt := And32(x[Rs2(w)], 0x1F);
      LowBits(x[Rs2(w)]);
      var value := Shr32(x[Rs1(w)], shamt);
      SetRdValue(w, value);
    }

    method Sra(w: Word)
      requires Valid()
      modifies this, x
      ensures Value() == RegisterOp(old(Value()), SRA, w)
    {
      var shamt := And32(x[Rs2(w)], 0x1F);
      LowBits(x[Rs2(w)]);
      var value := Sar32(x[Rs1(w)], shamt);
      SetRdValue(w, value);
    }

    method Or(w: Word)
      requires Valid()
      modifies this, x
      ensures Value() == RegisterOp(old(Value()), OR, w)
    {
      var value := Or32(x[Rs1(w)], x[Rs2(w)]);
      SetRdValue(w, value);
    }

    method And(w: Word)
      requires Valid()
      modifies this, x
      ensures Value() == RegisterOp(old(Value()), AND, w)
    {
      var value := And32(x[Rs1(w)], x[Rs2(w)]);
      SetRdValue(w, value);
    }

    method Addi(w: Word)
      requires Valid()
      modifies this, x
      ensures Value() == ImmediateOp(old(Value()), ADDI, w)
    {
      hide ToWord;
      hide GetIImm, GetSImm, GetBImm, GetJImm;
      var imm := GetIImm(w);
      AddOffset(x[Rs1(w)], imm);
      var value := ToWord(x[Rs1(w)] + imm);
      SetRdValue(w, value);
    }

    method Andi(w: Word)
      requires Valid()
      modifies this, x
      ensures Value() == ImmediateOp(old(Value()), ANDI, w)
    {
      hide GetIImm, GetSImm, GetBImm, GetJImm;
      var imm := GetIImm(w);
      AddOffset(x[Rs1(w)], imm);
      var value := And32(x[Rs1(w)], ToWord(imm));
      SetRdValue(w, value);
    }

    method Ori(w: Word)
      requires Valid()
      modifies this, x
      ensures Value() == ImmediateOp(old(Value()), ORI, w)
    {
      hide GetIImm, GetSImm, GetBImm, GetJImm;
      var imm := IField(w);
      IFieldIsImm(w);
      var value := Or32(x[Rs1(w)], ToWord(imm));
      SetRdValue(w, value);
    }

    method Xori(w: Word)
      requires Valid()
      modifies this, x
      ensures Value() == ImmediateOp(old(Value()), XORI, w)
    {
      hide GetIImm, GetSImm, GetBImm, GetJImm;
      var imm := IField(w);
      IFieldIsImm(w);
      var value := Xor32(x[Rs1(w)], ToWord(imm));
      SetRdValue(w, value);
    }

    method Slti(w: Word)
      requires Valid()
      modifies this, x
      ensures Value() == ImmediateOp(old(Value()), SLTI, w)
    {
      hide GetIImm, IField, Rd, Rs1, ToWord, Signed;
      var imm := IField(w);
      IFieldIsImm(w);
      SignedToWord(imm);
      var value := if Signed(x[Rs1(w)]) < imm then 1 else 0;
      SetRdValue(w, value);
    }

    method Sltiu(w: Word)
      requires Valid()
      modifies this, x
      ensures Value() == ImmediateOp(old(Value()), SLTIU, w)
    {
      hide GetIImm, GetSImm, GetBImm, GetJImm;
      var imm := IField(w);
      IFieldIsImm(w);
      var value := if x[Rs1(w)] < ToWord(imm) then 1 else 0;
      SetRdValue(w, value);
    }

    method Slli(w: Word)
      requires Valid()
      modifies this, x
      ensures Value() == ImmediateOp(old(Value()), SLLI, w)
    {
      hide GetIImm, GetSImm, GetBImm, GetJImm;
      ShamtIsImm(w);
      var value := Shl32(x[Rs1(w)], Shamt(w));
      SetRdValue(w, value);
    }

    method Srli(w: Word)
      requires Valid()
      modifies this, x
      ensures Value() == ImmediateOp(old(Value()), SRLI, w)
    {
      hide GetIImm, GetSImm, GetBImm, GetJImm;
      ShamtIsImm(w);
      var value := Shr32(x[Rs1(w)], Shamt(w));
      SetRdValue(w, value);
    }

    method Srai(w: Word)
      requires Valid()
      modifies this, x
      ensures Value() == ImmediateOp(old(Value()), SRAI, w)
    {
      hide GetIImm, GetSImm, GetBImm, GetJImm;
      ShamtIsImm(w);
      var value := Sar32(x[Rs1(w)], Shamt(w));
      SetRdValue(w, value);
    }

    method Mul(w: Word)
      requires Valid()
      modifies this, x
      ensures Value() == RegisterOp(old(Value()), MUL, w)
    {
      var value := Mul32(x[Rs1(w)], x[Rs2(w)]);
      SetRdValue(w, value);
    }

    method Mulh(w: Word)
      requires Valid()
      modifies this, x
      ensures Value() == RegisterOp(old(Value()), MULH, w)
    {
      var value := Mulh32(x[Rs1(w)], x[Rs2(w)]);
      SetRdValue(w, value);
    }

    method Mulhsu(w: Word)
      requires Valid()
      modifies this, x
      ensures Value() == RegisterOp(old(Value()), MULHSU, w)
    {
      var value := Mulhsu32(x[Rs1(w)], x[Rs2(w)]);
      SetRdValue(w, value);
    }

    method Mulhu(w: Word)
      requires Valid()
      modifies this, x
      ensures Value() == RegisterOp(old(Value()), MULHU, w)
    {
      var value := Mulhu32(x[Rs1(w)], x[Rs2(w)]);
      SetRdValue(w, value);
    }

    method Div(w: Word)
      requires Valid()
      modifies this, x
      ensures Value() == RegisterOp(old(Value()), DIV, w)
    {
      var value := Div32(x[Rs1(w)], x[Rs2(w)]);
      SetRdValue(w, value);
    }

    method Divu(w: Word)
      requires Valid()
      modifies this, x
      ensures Value() == RegisterOp(old(Value()), DIVU, w)
    {
      var value := Divu32(x[Rs1(w)], x[Rs2(w)]);
      SetRdValue(w, value);
    }

    method Rem(w: Word)
      requires Valid()
      modifies this, x
      ensures Value() == RegisterOp(old(Value()), REM, w)
    {
      var value := Rem32(x[Rs1(w)], x[Rs2(w)]);
      SetRdValue(w, value);
    }

    method Remu(w: Word)
      requires Valid()
      modifies this, x
      ensures Value() == RegisterOp(old(Value()), REMU, w)
    {
      var value := Remu32(x[Rs1(w)], x[Rs2(w)]);
      SetRdValue(w, value);
    }

    method Lui(w: Word)
      requires Valid()
      modifies this, x
      ensures Value() == UpperOp(old(Value()), LUI, w)
    {
      UDataShifted(w);
      var value := ToWord(UData(w) * 0x1000);
      SetRdValue(w, value);
    }

    method Auipc(w: Word)
      requires Valid()
      modifies this, x
      ensures Value() == UpperOp(old(Value()), AUIPC, w)
    {
      hide ToWord, Add32, Sub32, UData, Rd, Upper, UpperOp;
      AuipcIs(Value(), w);
      var offset := ToWord(UData(w) * 0x1000);
      offset := Add32(offset, Sub32(pc, 4));
      AuipcValue(w, pc);
      SetRdValue(w, offset);
    }

    // -------------------------------------------------------------- control transfer (cpu.c)

    method Beq(w: Word)
      requires Valid()
      modifies this
      ensures Value() == BranchOp(old(Value()), BEQ, w)
    {
      hide GetIImm, GetSImm, GetBImm, GetJImm;
      if x[Rs1(w)] == x[Rs2(w)] {
        var offset := GetBImm(w);
        pc := ToWord(pc + (offset - 4));
      }
    }

    method Bne(w: Word)
      requires Valid()
      modifies this
      ensures Value() == BranchOp(old(Value()), BNE, w)
    {
      hide GetIImm, GetSImm, GetBImm, GetJImm;
      if x[Rs1(w)] != x[Rs2(w)] {
        var offset := GetBImm(w);
        pc := ToWord(pc + (offset - 4));
      }
    }

    method Blt(w: Word)
      requires Valid()
      modifies this
      ensures Value() == BranchOp(old(Value()), BLT, w)
    {
      hide GetIImm, GetSImm, GetBImm, GetJImm;
      if Signed(x[Rs1(w)]) < Signed(x[Rs2(w)]) {
        var offset := GetBImm(w);
        pc := ToWord(pc + (offset - 4));
      }
    }

    method Bge(w: Word)
      requires Valid()
      modifies this
      ensures Value() == BranchOp(old(Value()), BGE, w)
    {
      hide GetIImm, GetSImm, GetBImm, GetJImm;
      if Signed(x[Rs1(w)]) >= Signed(x[Rs2(w)]) {
        var offset := GetBImm(w);
        pc := ToWord(pc + (offset - 4));
      }
    }

    method Bltu(w: Word)
      requires Valid()
      modifies this
      ensures Value() == BranchOp(old(Value()), BLTU, w)
    {
      hide GetIImm, GetSImm, GetBImm, GetJImm;
      if x[Rs1(w)] < x[Rs2(w)] {
        var offset := GetBImm(w);
        pc := ToWord(pc + (offset - 4));
      }
    }

    method Bgeu(w: Word)
      requires Valid()
      modifies this
      ensures Value() == BranchOp(old(Value()), BGEU, w)
    {
      hide GetIImm, GetSImm, GetBImm, GetJImm;
      if x[Rs1(w)] >= x[Rs2(w)] {
        var offset := GetBImm(w);
        pc := ToWord(pc + (offset - 4));
      }
    }

    method Jal(w: Word)
      requires Valid()
      modifies this, x
      ensures Value() == JumpOp(old(Value()), JAL, w)
    {
      hide GetIImm, GetSImm, GetBImm, GetJImm;
      var offset := GetJImm(w);
      var destination := ToWord(pc + offset - 4);
      var returnAddress := pc;
      SetRdValue(w, returnAddress);
      pc := destination;
    }

    method Jalr(w: Word)
      requires Valid()
      modifies this, x
      ensures Value() == JumpOp(old(Value()), JALR, w)
    {
      hide GetIImm, GetSImm, GetBImm, GetJImm;
      var offset := GetIImm(w);
      var destination := ToWord(x[Rs1(w)] + offset);
      var returnAddress := pc;
      SetRdValue(w, returnAddress);
      pc := destination;
    }

    // -------------------------------------------------------------- loads and stores (cpu.c)

    method Lb(w: Word, at: Word)
      requires Valid()
      modifies this, x
      ensures Value() == LoadInto(bus, old(Value()), LB, w, at)
    {
      hide ToWord, Add32, Bit, Signed;
      hide Read, Write, Or32, And32, Xor32, Extended, Rd, Rs1;
      hide GetIImm, GetSImm, GetBImm, GetJImm;
      var offset := GetIImm(w);
      AddOffset(x[Rs1(w)], offset);
      var address := ToWord(x[Rs1(w)] + offset);
      var value := ReadCommon(address, ByteWidth);
      SignExtended(value);
      if And32(value, 0x80) == 0x80 {
        value := Or32(value, 0xFFFF_FF00);
      }
      if life != Live || pendingException != 0 {
        return;
      }
      SetRdValue(bus.word(mem, at), value);
    }

    method Lbu(w: Word, at: Word)
      requires Valid()
      modifies this, x
      ensures Value() == LoadInto(bus, old(Value()), LBU, w, at)
    {
      hide ToWord, Add32, Bit, Signed;
      hide Extended, WidthOf;
      hide Read, Write, Or32, And32, Xor32;
      hide GetIImm, GetSImm, GetBImm, GetJImm;
      var offset := GetIImm(w);
      AddOffset(x[Rs1(w)], offset);
      var address := ToWord(x[Rs1(w)] + offset);
      var value := ReadCommon(address, ByteWidth);
      UnsignedLoads(value);
      if life != Live || pendingException != 0 {
        return;
      }
      SetRdValue(bus.word(mem, at), value);
    }

    method Lh(w: Word, at: Word)
      requires Valid()
      modifies this, x
      ensures Value() == LoadInto(bus, old(Value()), LH, w, at)
    {
      hide ToWord, Add32, Bit, Signed;
      hide Read, Write, Or32, And32, Xor32, Extended, Rd, Rs1;
      hide GetIImm, GetSImm, GetBImm, GetJImm;
      var offset := GetIImm(w);
      AddOffset(x[Rs1(w)], offset);
      var address := ToWord(x[Rs1(w)] + offset);
      var value := ReadCommon(address, HalfWidth);
      SignExtended(value);
      if And32(value, 0x8000) == 0x8000 {
        value := Or32(value, 0xFFFF_0000);
      }
      if life != Live || pendingException != 0 {
        return;
      }
      SetRdValue(bus.word(mem, at), value);
    }

    method Lhu(w: Word, at: Word)
      requires Valid()
      modifies this, x
      ensures Value() == LoadInto(bus, old(Value()), LHU, w, at)
    {
      hide ToWord, Add32, Bit, Signed;
      hide Extended, WidthOf;
      hide Read, Write, Or32, And32, Xor32;
      hide GetIImm, GetSImm, GetBImm, GetJImm;
      var offset := GetIImm(w);
      AddOffset(x[Rs1(w)], offset);
      var address := ToWord(x[Rs1(w)] + offset);
      var value := ReadCommon(address, HalfWidth);
      UnsignedLoads(value);
      if life != Live || pendingException != 0 {
        return;
      }
      SetRdValue(bus.word(mem, at), value);
    }

    method Lw(w: Word, at: Word)
      requires Valid()
      modifies this, x
      ensures Value() == LoadInto(bus, old(Value()), LW, w, at)
    {
      hide ToWord, Add32, Bit, Signed;
      hide Extended, WidthOf;
      hide Read, Write, Or32, And32, Xor32;
      hide GetIImm, GetSImm, GetBImm, GetJImm;
      var offset := GetIImm(w);
      AddOffset(x[Rs1(w)], offset);
      var address := ToWord(x[Rs1(w)] + offset);
      var value := ReadCommon(address, WordWidth);
      UnsignedLoads(value);
      if life != Live || pendingException != 0 {
        return;
      }
      SetRdValue(bus.word(mem, at), value);
    }

    method Sb(w: Word)
      requires Valid()
      modifies this
      ensures Value() == StoreFrom(bus, old(Value()), SB, w)
    {
      hide ToWord, Add32, Bit, Signed;
      hide Read, Write, Or32, And32, Xor32;
      hide GetIImm, GetSImm, GetBImm, GetJImm;
      var offset := GetSImm(w);
      var value := x[Rs2(w)];
      AddOffset(x[Rs1(w)], offset);
      var address := ToWord(x[Rs1(w)] + offset);
      WriteCommon(address, value % 0x100, ByteWidth);
    }

    method Sh(w: Word)
      requires Valid()
      modifies this
      ensures Value() == StoreFrom(bus, old(Value()), SH, w)
    {
      hide ToWord, Add32, Bit, Signed;
      hide Read, Write, Or32, And32, Xor32;
      hide GetIImm, GetSImm, GetBImm, GetJImm;
      var offset := GetSImm(w);
      var value := x[Rs2(w)];
      AddOffset(x[Rs1(w)], offset);
      var address := ToWord(x[Rs1(w)] + offset);
      WriteCommon(address, value % 0x1_0000, HalfWidth);
    }

    method Sw(w: Word)
      requires Valid()
      modifies this
      ensures Value() == StoreFrom(bus, old(Value()), SW, w)
    {
      hide ToWord, Add32, Bit, Signed;
      hide Read, Write, Or32, And32, Xor32;
      hide GetIImm, GetSImm, GetBImm, GetJImm;
      var offset := GetSImm(w);
      var value := x[Rs2(w)];
      AddOffset(x[Rs1(w)], offset);
      var address := ToWord(x[Rs1(w)] + offset);
      WriteCommon(address, value, WordWidth);
    }

    // -------------------------------------------------------------- atomics (cpu_a.c)

    method AmoAdd(w: Word, at: Word)
      requires Valid()
      modifies this, x
      ensures Value() == Amo(bus, old(Value()), AMOADD_W, w, at)
    {
      hide Read, Write, Or32, And32, Xor32;
      var address := x[Rs1(w)];
      var value := ReadCommon(address, WordWidth);
      if life != Live {
        return;
      }
      var originalValue := value;
      value := Add32(value, x[Rs2(bus.word(mem, at))]);
      WriteCommon(address, value, WordWidth);
      if life != Live {
        return;
      }
      SetRdValue(bus.word(mem, at), originalValue);
    }

    method AmoAnd(w: Word, at: Word)
      requires Valid()
      modifies this, x
      ensures Value() == Amo(bus, old(Value()), AMOAND_W, w, at)
    {
      hide Read, Write, Or32, And32, Xor32;
      var address := x[Rs1(w)];
      var value := ReadCommon(address, WordWidth);
      if life != Live {
        return;
      }
      var originalValue := value;
      value := And32(value, x[Rs2(bus.word(mem, at))]);
      WriteCommon(address, value, WordWidth);
      if life != Live {
        return;
      }
      SetRdValue(bus.word(mem, at), originalValue);
    }

    method AmoOr(w: Word, at: Word)
      requires Valid()
      modifies this, x
      ensures Value() == Amo(bus, old(Value()), AMOOR_W, w, at)
    {
      hide Read, Write, Or32, And32, Xor32;
      var address := x[Rs1(w)];
      var value := ReadCommon(address, WordWidth);
      if life != Live {
        return;
      }
      var originalValue := value;
      value := Or32(value, x[Rs2(bus.word(mem, at))]);
      WriteCommon(address, value, WordWidth);
      if life != Live {
        return;
      }
      SetRdValue(bus.word(mem, at), originalValue);
    }

    method AmoXor(w: Word, at: Word)
      requires Valid()
      modifies this, x
      ensures Value() == Amo(bus, old(Value()), AMOXOR_W, w, at)
    {
      hide Read, Write, Or32, And32, Xor32;
      var address := x[Rs1(w)];
      var value := ReadCommon(address, WordWidth);
      if life != Live {
        return;
      }
      var originalValue := value;
      value := Xor32(value, x[Rs2(bus.word(mem, at))]);
      WriteCommon(address, value, WordWidth);
      if life != Live {
        return;
      }
      SetRdValue(bus.word(mem, at), originalValue);
    }

    method AmoSwap(w: Word, at: Word)
      requires Valid()
      modifies this, x
      ensures Value() == SwapAmo(bus, old(Value()), w, at)
    {
      hide Read, Write, Or32, And32, Xor32;
      var address := x[Rs1(w)];
      var value := ReadCommon(address, WordWidth);
      if life != Live {
        return;
      }
      SetRdValue(bus.word(mem, at), value);
      value := x[Rs2(bus.word(mem, at))];
      WriteCommon(address, value, WordWidth);
    }

    method Lr(w: Word, at: Word)
      requires Valid()
      modifies this, x
      ensures Value() == LoadReserve(bus, old(Value()), w, at)
    {
      hide Read, Write, Or32, And32, Xor32;
      var address := x[Rs1(w)];
      var value := ReadCommon(address, WordWidth);
      if life != Live {
        return;
      }
      SetRdValue(bus.word(mem, at), value);
      loadReservation := address;
    }

    method Sc(w: Word, at: Word)
      requires Valid() && life == Live
      modifies this, x
      ensures Value() == StoreConditional(bus, old(Value()), w, at)
    {
      hide Read, Write, Or32, And32, Xor32;
      var address := x[Rs1(w)];
      var value := x[Rs2(w)];
      if loadReservation == address {
        WriteCommon(address, value, WordWidth);
        if life != Live {
          return;
        }
        SetRdValue(bus.word(mem, at), 0);
      } else {
        SetRdValue(w, 1);
      }
      loadReservation := 0xFFFF_FFFF;
    }

    // -------------------------------------------------------------- CSR access (cpu_csr.c)

    method Csrrs(w: Word)
      requires Valid()
      modifies this, x, csr
      ensures Value() == CsrOp(old(Value()), CSRRS, w)
    {
      CsrInRange(w);
      var number := GetIImmUnsigned(w);
      SetRdValue(w, csr[number]);
      var value := x[Rs1(w)];
      WriteCsr(number, Or32(csr[number], value));
    }

    method Csrrw(w: Word)
      requires Valid()
      modifies this, x, csr
      ensures Value() == CsrOp(old(Value()), CSRRW, w)
    {
      CsrInRange(w);
      var number := GetIImmUnsigned(w);
      var oldValue := csr[number];
      WriteCsr(number, x[Rs1(w)]);
      if Rd(w) != 0 {
        SetRdValue(w, oldValue);
      }
    }

    method Csrrc(w: Word)
      requires Valid()
      modifies this, x, csr
      ensures Value() == CsrOp(old(Value()), CSRRC, w)
    {
      CsrInRange(w);
      var number := GetIImmUnsigned(w);
      if Rd(w) != 0 {
        SetRdValue(w, csr[number]);
      }
      var value := x[Rs1(w)];
      WriteCsr(number, And32(csr[number], Not32(value)));
    }

    method Csrrwi(w: Word)
      requires Valid()
      modifies this, x, csr
      ensures Value() == CsrOp(old(Value()), CSRRWI, w)
    {
      CsrInRange(w);
      var number := GetIImmUnsigned(w);
      if Rd(w) != 0 {
        SetRdValue(w, csr[number]);
      }
      var value := Rs1(w);
      WriteCsr(number, And32(csr[number], Not32(value)));
    }

    method Csrrsi(w: Word)
      requires Valid()
      modifies this, x, csr
      ensures Value() == CsrOp(old(Value()), CSRRSI, w)
    {
      CsrInRange(w);
      var number := GetIImmUnsigned(w);
      SetRdValue(w, csr[number]);
      var value := Rs1(w);
      if value != 0 {
        WriteCsr(number, Or32(csr[number], value));
      }
    }

    method Csrrci(w: Word)
      requires Valid()
      modifies this, x, csr
      ensures Value() == CsrOp(old(Value()), CSRRCI, w)
    {
      CsrInRange(w);
      var number := GetIImmUnsigned(w);
      if Rd(w) != 0 {
        SetRdValue(w, csr[number]);
      }
      var value := Rs1(w);
      if value != 0 {
        WriteCsr(number, And32(csr[number], Not32(value)));
      }
    }

    // -------------------------------------------------------------- dispatch (cpu.c)

    method RunRegister(op: Op, w: Word)
      requires Valid() && KindOf(op) == RegisterKind
      modifies this, x
      ensures Value() == RegisterOp(old(Value()), op, w)
    {
      match op {
        case ADD => Add(w);
        case SUB => Sub(w);
        case SLL => Sll(w);
        case SLT => Slt(w);
        case SLTU => Sltu(w);
        case XOR => Xor(w);
        case SRL => Srl(w);
        case SRA => Sra(w);
        case OR => Or(w);
        case AND => And(w);
        case MUL => Mul(w);
        case MULH => Mulh(w);
        case MULHSU => Mulhsu(w);
        case MULHU => Mulhu(w);
        case DIV => Div(w);
        case DIVU => Divu(w);
        case REM => Rem(w);
        case REMU => Remu(w);
      }
    }

    method RunImmediate(op: Op, w: Word)
      requires Valid() && KindOf(op) == ImmediateKind
      modifies this, x
      ensures Value() == ImmediateOp(old(Value()), op, w)
    {
      match op {
        case ADDI => Addi(w);
        case ANDI => Andi(w);
        case ORI => Ori(w);
        case XORI => Xori(w);
        case SLTI => Slti(w);
        case SLTIU => Sltiu(w);
        case SLLI => Slli(w);
        case SRLI => Srli(w);
        case SRAI => Srai(w);
      }
    }

    method RunUpper(op: Op, w: Word)
      requires Valid() && KindOf(op) == UpperKind
      modifies this, x
      ensures Value() == UpperOp(old(Value()), op, w)
    {
      match op {
        case LUI => Lui(w);
        case AUIPC => Auipc(w);
      }
    }

    method RunBranch(op: Op, w: Word)
      requires Valid() && KindOf(op) == BranchKind
      modifies this, x
      ensures Value() == BranchOp(old(Value()), op, w)
    {
      match op {
        case BEQ => Beq(w);
        case BNE => Bne(w);
        case BLT => Blt(w);
        case BGE => Bge(w);
        case BLTU => Bltu(w);
        case BGEU => Bgeu(w);
      }
    }

    method RunJump(op: Op, w: Word)
      requires Valid() && KindOf(op) == JumpKind
      modifies this, x
      ensures Value() == JumpOp(old(Value()), op, w)
    {
      match op {
        case JAL => Jal(w);
        case JALR => Jalr(w);
      }
    }

    method RunLoad(op: Op, w: Word, at: Word)
      requires Valid() && KindOf(op) == LoadKind
      modifies this, x
      ensures Value() == LoadInto(bus, old(Value()), op, w, at)
    {
      match op {
        case LB => Lb(w, at);
        case LBU => Lbu(w, at);
        case LH => Lh(w, at);
        case LHU => Lhu(w, at);
        case LW => Lw(w, at);
      }
    }

    method RunStore(op: Op, w: Word)
      requires Valid() && KindOf(op) == StoreKind
      modifies this, x
      ensures Value() == StoreFrom(bus, old(Value()), op, w)
    {
      match op {
        case SB => Sb(w);
        case SH => Sh(w);
        case SW => Sw(w);
      }
    }

    method RunAtomic(op: Op, w: Word, at: Word)
      requires Valid() && life == Live && KindOf(op) == AtomicKind
      modifies this, x
      ensures Value() == AtomicOp(bus, old(Value()), op, w, at)
    {
      hide SwapAmo, Amo, LoadReserve, StoreConditional;
      match op {
        case AMOADD_W => AmoAdd(w, at);
        case AMOAND_W => AmoAnd(w, at);
        case AMOOR_W => AmoOr(w, at);
        case AMOXOR_W => AmoXor(w, at);
        case AMOSWAP_W => AmoSwap(w, at);
        case LR_W => Lr(w, at);
        case SC_W => Sc(w, at);
      }
    }

    method RunCsr(op: Op, w: Word)
      requires Valid() && KindOf(op) == CsrKind
      modifies this, x, csr
      ensures Value() == CsrOp(old(Value()), op, w)
    {
      match op {
        case CSRRS => Csrrs(w);
        case CSRRW => Csrrw(w);
        case CSRRC => Csrrc(w);
        case CSRRWI => Csrrwi(w);
        case CSRRSI => Csrrsi(w);
        case CSRRCI => Csrrci(w);
      }
    }

    /** ebreak, the fences and sfence.vma do nothing; uret jumps; wfi ends the program. */
    method RunSystem(op: Op)
      requires Valid() && KindOf(op) == SystemKind
      modifies this, csr
      ensures Value() == SystemOp(old(Value()), op)
    {
      hide Ecall, Mret, Sret, SystemOp, KindOf;
      SystemTraps(Value());
      SystemRest(Value());
      if op == ECALL {
        ECall();
      } else if op == MRET {
        MRet();
      } else if op == SRET {
        SRet();
      } else if op == URET {
        URet();
      } else if op == WFI {
        Wfi();
      } else {
        NoEffect(Value(), op);
      }
    }

    method RunHandler(op: Op, w: Word, at: Word)
      requires Valid() && life == Live
      modifies this, x, csr
      ensures Value() == Handle(bus, old(Value()), op, w, at)
    {
      hide *;
      HandleByKind(bus, Value(), op, w, at);
      match KindOf(op) {
        case RegisterKind => RunRegister(op, w);
        case ImmediateKind => RunImmediate(op, w);
        case UpperKind => RunUpper(op, w);
        case BranchKind => RunBranch(op, w);
        case JumpKind => RunJump(op, w);
        case LoadKind => RunLoad(op, w, at);
        case StoreKind => RunStore(op, w);
        case AtomicKind => RunAtomic(op, w, at);
        case CsrKind => RunCsr(op, w);
        case SystemKind => RunSystem(op);
      }
    }

    /** The loop that shifts the pc history, which leaves the last slot to be written. */
    method ShiftHistory()
      requires Valid()
      modifies pcHistory
      ensures pcHistory[..7] == old(pcHistory[..])[1..]
    {
      for i := 0 to PC_HISTORY_DEPTH - 1
        invariant forall j :: 0 <= j < i ==> pcHistory[j] == old(pcHistory[j + 1])
        invariant forall j :: i <= j < PC_HISTORY_DEPTH ==> pcHistory[j] == old(pcHistory[j])
      {
        pcHistory[i] := pcHistory[i + 1];
      }
    }

    /** The end of emulate_op, after the handler has returned. */
    method Complete()
      requires Valid()
      modifies this, csr, pcHistory
      ensures Value() == Finish(old(Value()))
    {
      hide TakeTrap;
      ghost var h := Value();
      ShiftHistory();
      TrapKeepsHistory(h, pcHistory[..], pendingException, pendingTval);
      if hasPendingException {
        RaiseException(pendingException, pendingTval);
      }
      ghost var shifted := pcHistory[..7];
      pcHistory[PC_HISTORY_DEPTH - 1] := pc;
      assert pcHistory[..] == shifted + [pc];
      instructionCounter := Add32(instructionCounter, 1);
      WriteCsr(CSR_TIME, instructionCounter);
      WriteCsr(CSR_CYCLE, instructionCounter);
    }

    /** emulate_op: the handlers get the pointer to the instruction. */
    method EmulateOp()
      requires Valid() && life == Live
      modifies this, x, csr, pcHistory
      ensures Value() == Step(bus, old(Value()))
    {
      hide TakeTrap, Handle, Finish, FirstMatch;
      var address := pc;
      var target := bus.target(mem, Access.Access(privilege, csr[CSR_SATP]), pc);
      pc := Add32(pc, 4);
      match target {
        case TargetFault(m) =>
          mem := m;
          pendingException, pendingTval, hasPendingException := CAUSE_FETCH_PAGE_FAULT, address, true;
          RaiseException(pendingException, pendingTval);
        case TargetUnmapped(m) =>
          mem := m;
          RaiseException(pendingException, pendingTval);
        case TargetNull(m) =>
          mem := m;
          life := Crashed;
        case Target(m, at) =>
          mem := m;
          var w := bus.word(mem, at);
          match FirstMatch(w, EMULATOR_CHAIN) {
            case Unknown =>
              life := Exited(EXIT_ILLEGAL_INSTRUCTION);
            case Selected(op) =>
              RunHandler(op, w, at);
              if life == Live {
                Complete();
              }
          }
      }
    }
  }

  lemma AuipcIs<M>(h: Hart<M>, w: Word)
    requires h.Shaped()
    ensures UpperOp(h, AUIPC, w) == h.SetReg(Rd(w), ToWord(Upper(w) + h.pc - 4))
  {
    hide ToWord, Rd, Upper;
  }

  lemma AuipcValue(w: Word, pc: Word)
    ensures Add32(ToWord(UData(w) * 0x1000), Sub32(pc, 4)) == ToWord(Upper(w) + pc - 4)
  {
    hide ToWord, Add32, Sub32, UData;
    UDataShifted(w);
    AddUpper(Upper(w), pc);
  }

  /** The sign tests of LB and LH. */
  lemma SignExtended(value: Word)
    ensures Extended(LB, value) == if And32(value, 0x80) == 0x80 then Or32(value, 0xFFFF_FF00) else value
    ensures Extended(LH, value) == if And32(value, 0x8000) == 0x8000 then Or32(value, 0xFFFF_0000) else value
  {
    hide And32, Or32, Bit;
    SignBits(value);
  }

  lemma SystemTraps<M>(h: Hart<M>)
    requires h.Shaped()
    ensures SystemOp(h, ECALL) == Ecall(h) && SystemOp(h, MRET) == Mret(h) && SystemOp(h, SRET) == Sret(h)
  {
    hide Ecall, Mret, Sret;
  }

  lemma SystemRest<M>(h: Hart<M>)
    requires h.Shaped()
    ensures SystemOp(h, URET) == h.(pc := h.csr[CSR_UEPC])
    ensures SystemOp(h, WFI) == h.(life := Exited(EXIT_WFI))
  {
    hide Ecall, Mret, Sret;
  }

  lemma NoEffect<M>(h: Hart<M>, op: Op)
    requires h.Shaped() && op != ECALL && op != MRET && op != SRET && op != URET && op != WFI
    ensures SystemOp(h, op) == h
  {
    hide Ecall, Mret, Sret;
  }

  function Zeros(n: nat): (s: seq<Word>)
    ensures |s| == n && forall i :: 0 <= i < n ==> s[i] == 0
  {
    seq(n, _ => 0)
  }

  /** The reset state in numbers: machine mode, and of registers and CSRs only misa and mhartid
      other than zero. */
  lemma ResetState<M>(mem: M, mhartid: Word)
    ensures var h := Initial(mem, mhartid);
            && h.pc == 0 && h.privilege == 3 && h.status == RUNNING && h.life == Live && h.mem == mem
            && h.instructionCounter == h.pendingTval == h.pendingException == h.loadReservation == 0
            && !h.hasPendingException
            && (forall i :: 0 <= i < 32 ==> h.x[i] == 0) && (forall i :: 0 <= i < 8 ==> h.pcHistory[i] == 0)
            && forall k :: 0 <= k < 4096 ==>
                 h.csr[k] == if k == 0x301 then 0x4004_1101 else if k == 0xF14 then mhartid else 0
  {
  }

  /** The state that initialize_state_linux returns. */
  function Initial<M>(mem: M, mhartid: Word): (h: Hart<M>)
    ensures h.Shaped()
  {
    Hart(0, Zeros(32), Zeros(4096)[CSR_MISA := 0x4004_1101][CSR_MHARTID := mhartid], RUNNING, 0, 0, 0, false,
         PRIV_M, 0, Zeros(8), mem, Live)
  }
}
