# emuriscv, verified

A Dafny 4.11 model of the hart of emuriscv, a RISC-V RV32IMA emulator, of its disassembler
and of its device-tree generator, with proofs about them. `dafny verify dfyconfig.toml`
checks the whole project.

**The hart.** `Machine.State` is the C structure: registers, CSRs and pc history are arrays
that the handlers and `EmulateOp` update in place. Each method is proved equal to a function
on the state as a value (`HartSpec`), and what the emulator promises is proved about those
functions: invariants of all runs (`Runs`), traps and returns by every route (`Traps`,
`TrapEntry`, `Privileged`), LR and SC over whole runs (`Reservations`), agreement with the RISC-V
Unprivileged ISA (20191213) for every RV32I computation and all of the M extension, and
exactly when it holds for branches and jumps (`Isa`, `MulDiv`, `Conformance`, `Encodings`,
`Sequences`), for loads, stores, atomics and CSR instructions (`Accesses`, `AccessesOnRam`,
`CsrConformance`), and the boot loader's five steps (`Bootloader`).

Memory is a `Bus` of four arbitrary functions: a fetch gives a pointer to the instruction,
the word under a pointer can be read, and a load or store succeeds, faults, or hits no range.
The handlers get the pointer, and take an operand from whatever word lies there at that
moment. `PhysicalMemory.RamBus` is one such bus: little-endian RAM in the ranges of
`MemoryMap`, with the page-table walk and the devices as parameters; `Translation` says from
the privilege and satp of the hart which address an access reaches. `Sv32` is the two-level
walk itself, compared with the Privileged ISA (20190608). `exit` and the dereference of a null
range end the run (the `life` field), and so does a fetch from a device or past the end of a
range.

**The instruction table.** `Opcodes` proves that the mask/match rows are mutually exclusive
and that the emulator's if-chain selects what the ISA lists; `ListingTable` holds the
disassembler's own table and chain and proves that they select the same. `Disassembler` gives
the listing of a word as mnemonic and operands, and what such a line means in assembly
language; `Listings` gives the line of each instruction by its fields, numerals and aliases
included. The main result is that the listing determines what `emulate_op` does, on any bus
and, for whole runs of two machines that differ in one word, on one RAM (`ListingOnRam`).

**The device tree.** `FdtWriter.FDTState` is the generator with its two growing tables, scan
loop and padding loops; `FdtOutput` lays the blob out in a buffer. `FdtReader` is a reader
written from sections 5.2 to 5.5 of the Devicetree Specification (v0.4), which shares only
big-endian words and C strings with the generator; it follows the offset fields of the
header, as the generator puts the reservation block behind the structure block.
`FdtRoundTrip` proves that the reader recovers every tree, `Board` applies that to
`riscv_build_fdt`, and `BoardSpec` says on bytes what its tree has to hold.

Words are integers below 2^32 with explicit wrap-around (`Words`); the bitwise operators are
defined on binary digits. Signed overflow in the multiplication helpers is two's-complement
wrapping. C `int` sizes in the generator are unbounded here; results hold for every blob
whose size fits its size field.

Where the code differs from the documents that it follows, the code is modelled and the
difference is stated:

- Taken branches and jumps go to a target that is not four-byte aligned, where the ISA (the
  hart has no C extension) demands an exception and leaves rd alone; and `jalr` does not clear
  bit 0 of its target. `Conformance.StepConforms` is exact about both,
  `Conformance.MisalignedJump` is an example.
- `raise_exception` takes its status word from the run status, not from mstatus:
  `Traps.EnableBitIsLost`.
- An SC at address 0 succeeds without an LR in the initial state, and one at 0xFFFFFFFF after
  another SC: `Reservations.ConditionalOverRun`.
- `csrrwi` clears bits instead of writing, and `csrrs` and `csrrc` write rd before they read
  rs1: `CsrConformance.CsrConforms` says exactly when the result is still right, and
  `CsrConformance.CsrStepConforms` also for the counters, which every step overwrites.
- LR, SC and the AMOs access any address, where the ISA demands an exception unless it is a
  multiple of four: `Accesses.AmoStep`.
- `amoswap.w` writes rd before it reads rs2: `Accesses.AmoStep`.
- The AMOs and SC take rd again from memory after their store, so that one which overwrites
  its own instruction may write another register: `AccessesOnRam.AmoOverItself`, with the
  exact condition in `Accesses.AmoStep` and `Reservations.SuccessCodeInRd`, and the guard, that
  the access does not touch the instruction, in `AccessesOnRam.AmoOnRam`.
- The value that a device returns for a byte or halfword load is not cut to that width:
  `Accesses.LoadStep` says exactly when the result is right all the same; from RAM it always
  is, `AccessesOnRam.LoadOnRam`.
- The atomic instructions write rd even if their access faults, so that not every trap is
  precise: `Accesses.AccessTrapPrecise`.
- The page-table walk checks neither the rights in a leaf, but for W without R, nor the
  alignment of a superpage: `Sv32.TranslatesAsIsa` is exact, `Sv32.SupervisorPageFromUser` an
  example. A pointer in the second level leaves the physical address unset, where the ISA
  raises a page fault; the run ends here.
- The rows of SLLI, SRLI and SRAI leave bit 25 free: `Encodings.EncodedIff`.
- A range whose end wraps is never found: `MemoryMap.FoundIffEndsInside`.
- A one-operand `jalr` line with an offset stands for rd equal to the base register.

## Model

| member | source | states |
|---|---|---|
| Fields.LowestBitOfMask | cpu_exception.c:6-7 | mask & ~(mask << 1) is the lowest bit of every contiguous mask, also when the shift drops the top bit |
| Fields.GetFieldValue | cpu_exception.c:6 | get_field of a contiguous mask is reg / 2^start mod 2^len |
| Fields.GetAfterSet | cpu_exception.c:6-7 | get after set returns the value modulo the field width, for every contiguous mask |
| Fields.SetOfGet | cpu_exception.c:6-7 | setting a field to what it holds is the identity |
| Fields.LastSetWins | cpu_exception.c:7 | of two sets of the same mask the last one counts, for every mask |
| Fields.SetElsewhere | cpu_exception.c:6-7 | a set does not disturb a field whose mask is disjoint |
| Fields.SetsCommute | cpu_exception.c:7 | sets on disjoint masks commute |
| Fields.MasksApart | riscv_status.h:4-21 | fields at separate places have disjoint masks |
| Fields.SetMaskBit | cpu_exception.c:7 | a set changes exactly the bits of the mask, to those of the value |
| Status.FieldPlaces | riscv_status.h:4-21 | the status masks are contiguous fields at their documented places, so the laws apply to them |
| Status.MachineTrapUndone | cpu_prv.c:10-32 | mret finds the privilege a machine trap stacked and restores the enable bit of the word the trap read |
| Status.SupervisorTrapUndone | cpu_prv.c:36-68 | the same for sret and a delegated trap, which leaves TSR alone |
| Status.TrapStacks | cpu_exception.c:42-63 | a trap stacks the enable bit, records the privilege, disables interrupts, and leaves the fields of the other mode |
| Status.ReturnUnstacks | cpu_prv.c:23-68 | a return restores the enable bit, sets the stacked bit, records user mode, and leaves the fields of the other mode |
| Status.MachineTrapBit | cpu_exception.c:49-63 | every bit of the status word after a trap into machine mode |
| Status.SupervisorTrapBit | cpu_exception.c:42-48 | every bit of it after a delegated trap |
| Status.MretBit | cpu_prv.c:23-32 | every bit of it after mret |
| Status.SretBit | cpu_prv.c:55-68 | every bit of it after sret |
| Decode.Bextr | decode.c:5-7 | bextr is the low len digits of what is left above start |
| Decode.BImmValue | decode.c:18-20 | get_b_imm as signed arithmetic on the word, for every word |
| Decode.IImmValue | decode.c:26-33 | get_i_imm as signed arithmetic on the word |
| Decode.IImmUnsignedValue | decode.c:22-24 | get_i_imm_unsigned is the upper twelve bits |
| Decode.SImmValue | decode.c:35-42 | get_s_imm as signed arithmetic on the word |
| Decode.JImmValue | decode.c:44-51 | get_j_imm as signed arithmetic on the word, the fill overlapping the sign bit in place |
| Operands.IFieldIsImm | instruction.h:15-21 | the bit-field InstructionI.imm is get_i_imm, and fits twelve signed bits |
| Operands.ShamtIsImm | instruction.h:23-31 | the five-bit shift amount is the I-immediate modulo 32 |
| Operands.UDataShifted | instruction.h:8-12 | the signed 20-bit field shifted up is the word without its low twelve bits |
| Isa.DecodeI | decode.c:26-33 | for all fields, the word that section 2.3 of the ISA builds for an I-immediate decodes to them and to the immediate |
| Isa.DecodeS | decode.c:35-42 | the same for S-immediates |
| Isa.DecodeB | decode.c:18-20 | the same for B-immediates, every even offset |
| Isa.DecodeU | cpu.c:251-256 | the same for the 20-bit upper immediate |
| Isa.DecodeJ | decode.c:44-51 | the same for J-immediates, every even offset |
| Isa.DecodeR | cpu.c:53-63 | the same for the register format |
| Isa.EncodeDecoded | decode.c:18-51 | the other direction: every word is, in each format, the encoding of what the decoders find in it |
| Opcodes.MatchesIffIsA | opcodes.h:3-217 | a word passes the mask/match test of a row exactly when its fields are those the ISA lists for the instruction, bit 25 of the shifts by an immediate left out |
| Opcodes.AtMostOneRow | opcodes.h:3-217 | every word matches at most one row |
| Opcodes.ChainSelects | cpu.c:425-504 | an if-chain of arms selects an instruction exactly when it has the arm and the word is an encoding, wherever the arm stands |
| Opcodes.OrderOfArmsIrrelevant | cpu.c:425-504 | permuting the arms never changes the selection |
| Opcodes.EmulatorSelects | cpu.c:425-504 | the emulator selects an instruction exactly if the word has the fields of its row |
| ListingTable.SameRows | disassembler/encoding.h:3-217 | the disassembler's own table of masks and matches has the rows of the emulator's |
| ListingTable.BothProgramsSelect | disassembler/disassembler.c:455-536 | with its own table and its own order of arms the disassembler selects the instruction that the emulator selects, for every word |
| MulDiv.SignedProduct | cpu_m.c:5-13 | mulh and mul are the two halves of the exact signed product |
| MulDiv.MixedProduct | cpu_m.c:5-18 | mulhsu and mul are the two halves of the exact signed-by-unsigned product |
| MulDiv.UnsignedProduct | cpu_m.c:20-23 | mulhu and mul are the two halves of the exact unsigned product, although computed by a wrapping signed product and an arithmetic shift |
| MulDiv.SignedDivision | cpu_m.c:25-54 | div and rem on all operands: zero divisor, overflow, else truncating quotient and a remainder smaller than the divisor with the dividend's sign |
| MulDiv.DividesUnique | cpu_m.c:25-54 | that relation determines quotient and remainder |
| MulDiv.UnsignedDivision | cpu_m.c:36-63 | divu and remu on all operands, zero divisor included |
| MulDiv.QuotientTimesDivisor | cpu_m.c:25-63 | quotient times divisor plus remainder is the dividend modulo 2^32, for all operands |
| Machine.State.constructor | run_linux.c:45-63 | the fields of the new state as numbers: privilege 3, csr 0x301 and 0xF14 set, every other register and CSR zero |
| Machine.ResetState | run_linux.c:45-63 | the same of the state as a value, with which every run starts |
| Machine.State.SetReg | cpu.c:65-72 | the register is set unless it is x0; nothing else changes |
| Machine.State.SetRdValue | cpu.c:49-51 | the same for the rd of the word |
| Machine.State.WriteCsr | csr.c:12-14 | one CSR is set, nothing else changes |
| Machine.State.RaiseException | cpu_exception.c:9-71 | delegation choice, saved pc, cause and tval, stacked status, vector, cleared pending fields, as TakeTrap of the old state |
| Machine.State.TrapToSupervisor | cpu_exception.c:30-48 | the delegated arm of that |
| Machine.State.TrapToMachine | cpu_exception.c:49-66 | the machine arm of that |
| Machine.State.ECall | cpu_ecall.c:44-53 | cause by privilege, then the trap |
| Machine.State.MRet | cpu_prv.c:10-32 | return from machine mode, or exit outside it |
| Machine.State.SRet | cpu_prv.c:36-84 | return from supervisor mode in the privilege TSR asks for, or exit |
| Machine.State.URet | cpu_prv.c:88-95 | pc from uepc |
| Machine.State.Wfi | cpu_prv.c:107-116 | the program exits |
| Machine.State.ReadCommon | memory.h:30-40 | value, or -1 with a pending load page fault |
| Machine.State.WriteCommon | memory.h:42-46 | store, or a pending store page fault |
| Machine.State.Add | cpu.c:74-78 | new state is that of the register-register instruction ADD |
| Machine.State.Sub | cpu.c:378-382 | new state is that of the register-register instruction SUB |
| Machine.State.Sll | cpu.c:302-307 | new state is that of the register-register instruction SLL |
| Machine.State.Slt | cpu.c:316-321 | new state is that of the register-register instruction SLT |
| Machine.State.Sltu | cpu.c:323-328 | new state is that of the register-register instruction SLTU |
| Machine.State.Xor | cpu.c:393-397 | new state is that of the register-register instruction XOR |
| Machine.State.Srl | cpu.c:364-369 | new state is that of the register-register instruction SRL |
| Machine.State.Sra | cpu.c:349-354 | new state is that of the register-register instruction SRA |
| Machine.State.Or | cpu.c:270-274 | new state is that of the register-register instruction OR |
| Machine.State.And | cpu.c:88-92 | new state is that of the register-register instruction AND |
| Machine.State.Addi | cpu.c:80-85 | new state is that of the register-immediate instruction ADDI |
| Machine.State.Andi | cpu.c:95-100 | new state is that of the register-immediate instruction ANDI |
| Machine.State.Ori | cpu.c:277-282 | new state is that of the register-immediate instruction ORI |
| Machine.State.Xori | cpu.c:400-405 | new state is that of the register-immediate instruction XORI |
| Machine.State.Slti | cpu.c:331-337 | new state is that of the register-immediate instruction SLTI |
| Machine.State.Sltiu | cpu.c:340-346 | new state is that of the register-immediate instruction SLTIU |
| Machine.State.Slli | cpu.c:309-314 | new state is that of the register-immediate instruction SLLI |
| Machine.State.Srli | cpu.c:371-376 | new state is that of the register-immediate instruction SRLI |
| Machine.State.Srai | cpu.c:356-361 | new state is that of the register-immediate instruction SRAI |
| Machine.State.Mul | cpu_m.c:72-74 | new state is that of the register-register instruction MUL |
| Machine.State.Mulh | cpu_m.c:76-78 | new state is that of the register-register instruction MULH |
| Machine.State.Mulhsu | cpu_m.c:83-85 | new state is that of the register-register instruction MULHSU |
| Machine.State.Mulhu | cpu_m.c:79-81 | new state is that of the register-register instruction MULHU |
| Machine.State.Div | cpu_m.c:92-94 | new state is that of the register-register instruction DIV |
| Machine.State.Divu | cpu_m.c:95-97 | new state is that of the register-register instruction DIVU |
| Machine.State.Rem | cpu_m.c:86-88 | new state is that of the register-register instruction REM |
| Machine.State.Remu | cpu_m.c:89-91 | new state is that of the register-register instruction REMU |
| Machine.State.Lui | cpu.c:251-256 | rd gets the upper immediate |
| Machine.State.Auipc | cpu.c:102-108 | rd gets the upper immediate plus the address of the instruction, the pc being 4 ahead |
| Machine.State.Beq | cpu.c:110-118 | pc moves by the B-immediate, taking back the 4, exactly if the condition of BEQ holds |
| Machine.State.Bne | cpu.c:160-169 | pc moves by the B-immediate, taking back the 4, exactly if the condition of BNE holds |
| Machine.State.Blt | cpu.c:141-148 | pc moves by the B-immediate, taking back the 4, exactly if the condition of BLT holds |
| Machine.State.Bge | cpu.c:121-128 | pc moves by the B-immediate, taking back the 4, exactly if the condition of BGE holds |
| Machine.State.Bltu | cpu.c:151-158 | pc moves by the B-immediate, taking back the 4, exactly if the condition of BLTU holds |
| Machine.State.Bgeu | cpu.c:131-138 | pc moves by the B-immediate, taking back the 4, exactly if the condition of BGEU holds |
| Machine.State.Jal | cpu.c:179-191 | link and jump relative to the instruction |
| Machine.State.Jalr | cpu.c:194-201 | link and jump to the old rs1 plus offset, bit 0 not cleared |
| Machine.State.Lb | cpu.c:204-213 | LB: rd gets the extended value unless the access left an exception pending |
| Machine.State.Lbu | cpu.c:216-225 | LBU: rd gets the extended value unless the access left an exception pending |
| Machine.State.Lh | cpu.c:228-237 | LH: rd gets the extended value unless the access left an exception pending |
| Machine.State.Lhu | cpu.c:240-249 | LHU: rd gets the extended value unless the access left an exception pending |
| Machine.State.Lw | cpu.c:259-268 | LW: rd gets the extended value unless the access left an exception pending |
| Machine.State.Sb | cpu.c:285-291 | SB: the truncated rs2 is stored at rs1 plus the S-immediate |
| Machine.State.Sh | cpu.c:294-300 | SH: the truncated rs2 is stored at rs1 plus the S-immediate |
| Machine.State.Sw | cpu.c:385-391 | SW: the truncated rs2 is stored at rs1 plus the S-immediate |
| Machine.State.AmoAdd | cpu_a.c:28-30 | read, combine with rs2, write, then the rd of the word now under the pc gets the old value |
| Machine.State.AmoAnd | cpu_a.c:32-34 | read, combine with rs2, write, then the rd of the word now under the pc gets the old value |
| Machine.State.AmoOr | cpu_a.c:36-38 | read, combine with rs2, write, then the rd of the word now under the pc gets the old value |
| Machine.State.AmoXor | cpu_a.c:40-42 | read, combine with rs2, write, then the rd of the word now under the pc gets the old value |
| Machine.State.AmoSwap | cpu_a.c:44-57 | rd, taken again after the load, is written before rs2 is read |
| Machine.State.Lr | cpu_a.c:59-68 | load into rd and reserve the address |
| Machine.State.Sc | cpu_a.c:70-88 | store if reserved, rd 0 or 1, taken again after the store, reservation dropped |
| Machine.State.Csrrs | cpu_csr.c:7-17 | CSRRS in the source's order of reads and writes |
| Machine.State.Csrrw | cpu_csr.c:20-37 | CSRRW in the source's order of reads and writes |
| Machine.State.Csrrc | cpu_csr.c:40-54 | CSRRC in the source's order of reads and writes |
| Machine.State.Csrrwi | cpu_csr.c:57-70 | CSRRWI in the source's order of reads and writes, clearing bits |
| Machine.State.Csrrsi | cpu_csr.c:72-88 | CSRRSI in the source's order of reads and writes |
| Machine.State.Csrrci | cpu_csr.c:90-107 | CSRRCI in the source's order of reads and writes |
| Machine.State.RunHandler | cpu.c:425-504 | the selected handler on the pointer to the instruction, as the value-level Handle |
| Machine.State.ShiftHistory | cpu.c:518-521 | the loop moves the last seven pcs down by one |
| Machine.State.Complete | cpu.c:518-529 | pending trap taken, pc recorded, counters advanced, as Finish of the old state |
| Machine.State.EmulateOp | cpu.c:418-532 | one call of emulate_op on the arrays of the structure is Step of the state as a value, on which all run properties are stated |
| Runs.HandleKeeps | cpu.c:425-504 | whatever the handler, x0, the run status, the reservation outside LR and SC, and the counters stay |
| Runs.StepKeepsBoundary | cpu.c:418-532 | every live step from a step boundary ends at one; counter and history advance exactly if the fetch succeeded |
| Runs.EveryBoundary | cpu.c:518-529 | in every run: x0 is 0, CSR_TIME, CSR_CYCLE and the counter agree and count the fetched steps modulo 2^32, pc_history holds the last eight pcs |
| Traps.EveryTrapSaves | cpu.c:418-532 | a trap by any route saves the address of its instruction in csr 0x141 or 0x341, never lowers the privilege, and leaves in csr 0x300 the old privilege in its field and nothing else |
| TrapEntry.TrapMode | cpu_exception.c:15-30 | from every state a trap of cause c < 32 is handled in mode 1 exactly if the privilege is at most 1 and bit c of csr 0x302 is set, an interrupt n < 32 by bit n of csr 0x303, any other in mode 3 |
| TrapEntry.EveryTrapRecords | cpu_exception.c:15-66 | a trap by any route goes to mode 1 exactly if it came from there or below and its bit of csr 0x302 (or 0x303) is set, to the vector of its mode, and changes no CSR but the three of that mode, mstatus and the counters; cause and value are those of the route: 12 for a fetch, 8, 9 or 11 for an ecall, and of an access its address with 13 for loads and LR, 15 for stores and SC, and for an AMO 15 exactly if its store faults |
| TrapEntry.AtomicFaults | cpu_a.c:18-88 | the pending cause and address of a faulting atomic instruction, which has changed no CSR; an SC that faults had found its reservation |
| Traps.EcallSaves | cpu_ecall.c:44-53 | the ecall route of that |
| Traps.ReturnUndoesTrap | cpu_prv.c:10-68 | the matching return restores pc, privilege and the enable bit of the status word the trap read, from any handler that left mepc or sepc and mstatus alone |
| Traps.EnableBitIsLost | cpu_exception.c:42-46 | because the trap reads the run status, the enable bit of mstatus comes back exactly if it was clear |
| Privileged.MretStep | cpu_prv.c:10-32 | the mret step in numbers: exit code 3 outside machine mode, else pc, privilege from bits 11-12 for every status word, every bit of mstatus, no other change |
| Privileged.SretStep | cpu_prv.c:36-84 | the sret step in numbers, with the mode that bit 22 of mstatus asks for and exit code 4 |
| Privileged.EcallStep | cpu_ecall.c:44-53 | the ecall step: a trap of cause 8, 9 or 11 with value 0, registers and memory kept |
| Privileged.UretStep | cpu_prv.c:88-95 | uret goes to csr 0x41 and changes nothing else |
| Privileged.WfiStep | cpu_prv.c:107-116 | wfi exits with code 5 |
| Privileged.UnknownStep | cpu.c:505-516 | a step exits with code 2 if and only if its word fits no row, with registers, CSRs and memory as they were |
| Reservations.ReservationIsLastEvent | cpu_a.c:59-88 | in every run the reservation is what the most recent LR or SC left, or 0 |
| Reservations.ConditionalStep | cpu_a.c:70-88 | SC stores the rs2 of before the step even if rd aliases a source, and then takes rd from the word that is under the pc after the store; a failed SC leaves memory unchanged |
| Reservations.SuccessCodeInRd | cpu_a.c:78-81 | the success code reaches the fetched rd if and only if the word under the pc after the store has that rd, but for writes that change nothing |
| Reservations.ConditionalOverRun | cpu_a.c:59-88 | in every run and for every address, when an SC succeeds and what it does, the two special addresses included |
| Reservations.ConditionalNeedsReserve | cpu_a.c:59-88 | at any other address it succeeds exactly if the most recent LR or SC is an LR of that address |
| Conformance.RegisterResults | cpu_m.c:5-63 | every register-register result is, for all operands, what the ISA says over the integers or bit by bit |
| Conformance.EncodingIsA | opcodes.h:3-217 | the ISA encoding of every instruction is selected as that instruction |
| Conformance.BranchDoes | cpu.c:110-169 | branches do what the ISA says, the +4 and -4 cancelling modulo 2^32, if and only if they are not taken or the target is four-byte aligned |
| Conformance.JumpDoes | cpu.c:179-191 | JAL does what the ISA says if and only if its target is four-byte aligned |
| Conformance.JumpRegisterDoes | cpu.c:194-201 | JALR does what the ISA says if and only if its sum is a multiple of four |
| Conformance.StepConforms | cpu.c:418-532 | one emulate_op step on the encoding of any RV32I computation, upper-immediate, branch or jump, or M instruction, from every boundary state and for aliased registers, takes no trap and changes registers and pc as the ISA says if and only if no taken branch or jump goes to a misaligned target; leaving alignment aside, if and only if no JALR goes to an odd sum |
| Conformance.MisalignedJump | cpu.c:179-191 | jal ra, 2 at 0x1000 links and goes to 0x1002, where the ISA demands an exception |
| Encodings.EncodedIff | opcodes.h:3-217 | a word is taken for a computation, branch or jump exactly if some such instruction encodes to it, but for shifts by an immediate with bit 25 set |
| Encodings.InstrOfEncode | decode.c:18-51 | encoding any such instruction and decoding the word gives the instruction back |
| Encodings.ShiftWithBitSet | opcodes.h:3-217 | 0x02001013 encodes nothing and is taken for slli |
| Encodings.WordConforms | cpu.c:418-532 | StepConforms for every word that encodes such an instruction |
| Sequences.LuiThenAddi | cpu.c:251-256 | lui and addi build every 32-bit constant |
| Sequences.AuipcThenJalr | cpu.c:102-108 | in the emulator auipc and jalr reach every even address from everywhere and link behind the pair |
| CsrConformance.CsrEffect | cpu_csr.c:7-107 | every CSR handler puts the old value in rd and changes one CSR, to a value given by the old one and the operand |
| CsrConformance.CsrConforms | cpu_csr.c:7-107 | bit by bit, that value is the one of chapter 9 of the ISA if and only if: for csrrs and csrrc, rd is not rs1 or the write changes nothing it should; for csrrwi, immediate and CSR are zero; always for the others |
| CsrConformance.CsrStepConforms | cpu.c:418-532 | the same for the whole step, where a time or cycle counter ends as its own successor, whatever was written to it |
| Accesses.LoadStep | cpu.c:204-268 | a load that succeeds: wrapping address, only rd changes, to the sign or zero extension of the ISA if and only if the value read fits the width or the sign fill covers the rest |
| Accesses.ExtendedIsResult | cpu.c:204-268 | that condition, for every load and every value that a device may return |
| AccessesOnRam.LoadOnRam | cpu.c:204-268 | a load from RAM always gives rd the result of the ISA |
| Accesses.StoreStep | cpu.c:285-391 | a store that succeeds: wrapping address, the low part of rs2, no register changes |
| Accesses.AmoStep | cpu_a.c:18-57 | an AMO that succeeds: memory gets the value of the ISA, except at an address that is not aligned and from an amoswap with rd == rs2, which stores it exactly if the word held rs2 already; the old word goes to the fetched rd exactly if the word from which rd is taken again has that rd, but for writes that change nothing |
| AccessesOnRam.AmoOnRam | cpu_a.c:18-57 | the same on RAM, where the fetched rd is the one written whenever the access does not touch the instruction, and memory changes in one word only |
| AccessesOnRam.AmoOverItself | cpu_a.c:18-30 | an amoadd that turns itself into one with another rd writes that other register and leaves its own |
| AccessesOnRam.ConditionalOnRam | cpu_a.c:70-88 | an SC on RAM with its reservation stores rs2 and gives the fetched rd 0 unless it stores over itself |
| AccessesOnRam.ReserveThenConditional | cpu_a.c:59-88 | an LR and the SC after it to the same address: the SC succeeds and a load would find its rs2 there |
| Accesses.AccessTrapPrecise | cpu.c:522-524 | a faulting instruction leaves all registers as they were if and only if it is a load or store, or its rd is x0, or rd held 0 (SC), 0xFFFFFFFF (load fault) or the word loaded (store fault of an AMO): the atomics write rd even then |
| Accesses.AccessTrapPreciseBefore | cpu_a.c:18-88 | the same by the fetched rd, from the state before: if neither load nor store at the address can change the instruction |
| Translation.FetchStep | memory.h:48-60 | the fetch of a step from privilege, csr 0x180 and pc: the physical address that it reaches, a trap of cause 12 for a page fault, of cause 0 for an address in no range, the end of the run for any other |
| Translation.LoadAt | memory.h:30-60 | the same for loads, byte by byte: RAM, a device with its slot, offset and width, a trap of cause 13 with the virtual address, or the end of the run |
| Translation.StoreAt | memory.h:42-60 | the same for stores: exactly the low bytes of rs2 change, a device gets their number, or a trap of cause 15 |
| Translation.AmoAt | cpu_a.c:18-57 | an AMO translates its address for the load and again, in the memory that this leaves, for the store; a fault of the store is a trap of cause 15 |
| Translation.ReserveAt | cpu_a.c:59-68 | LR at its physical address, or a trap of cause 13, the reservation made all the same |
| Translation.ConditionalAt | cpu_a.c:70-88 | SC with its reservation at its physical address, or a trap of cause 15 |
| Sv32.TranslateAddress | memory.h:9-28 | the loop over the two levels of the page table computes the walk, in machine mode and with bit 31 of satp clear the address itself |
| Sv32.WalkIs | memory.h:62-79 | the walk from any table below 4 GB is the algorithm of section 4.3.2 of the Privileged ISA without its checks of rights and alignment: same leaf, same address modulo 2^32, same invalid entries |
| Sv32.TranslatesAsIsa | memory.h:62-79 | wherever the ISA translates the emulator translates alike, wherever the emulator faults so does the ISA, and where the emulator translates the ISA does if and only if the leaf permits the access and is aligned |
| Sv32.SupervisorPageFromUser | memory.h:62-79 | a page with U clear is translated for user mode, where the ISA faults |
| Sv32.MarkedBits | memory.h:75-79 | a walk sets A in the leaf, for stores also D, and changes no other bit of it |
| Sv32.MarkedElsewhere | memory.h:75-79 | and no other word, range or device |
| Sv32.TranslateAgain | memory.h:75-79 | translating an address again, after what the first walk has written, gives the same physical address and writes nothing |
| Sv32.SamePage | memory.h:18-20 | addresses of one page go to one page at the same distance, or all fault alike |
| PhysicalMemory.StoreThenLoad | memory.h:30-46 | what is stored in RAM is loaded back, cut to its width |
| PhysicalMemory.StoreElsewhere | memory.h:42-46 | a store leaves every word apart from it as it was, across all ranges and devices |
| MemoryMap.MemoryMap.constructor | memory_map.c:22-26 | an empty table |
| MemoryMap.MemoryMap.RegisterRamEntry | memory_map.c:28-41 | append, or the exit for a full table |
| MemoryMap.MemoryMap.RegisterRam | memory_map.c:43-53 | append a range with zeroed memory of its own |
| MemoryMap.MemoryMap.RegisterDevice | memory_map.c:5-20 | append a device range, cut to 32 bits; with a full table the write goes past the end and the table is no longer valid |
| MemoryMap.MemoryMap.GetPhysMemRange | run_linux.c:109-118 | the first covering range or none, for the wrapping comparison of the source |
| MemoryMap.MemoryMap.GetRamPtr | run_linux.c:120-127 | slot and offset, the offset below the size and pointing at the address |
| MemoryMap.CoversInside | run_linux.c:115-116 | the wrapping test is the intended one exactly for ranges whose end stays below 2^32 |
| MemoryMap.FoundIffEndsInside | run_linux.c:115-116 | a non-empty range is found at its own start exactly if its end does not wrap |
| MemoryMap.LookupFindsHolder | run_linux.c:109-118 | in disjoint ranges the lookup returns the holder of the address, and nothing exactly when there is none |
| MemoryMap.RegistrationOrderIrrelevant | memory_map.c:5-41 | the order of registration never matters |
| Bootloader.InitializeRanges | run_linux.c:81-107 | the five ranges are registered in their order, the two of RAM with memory of their own |
| Bootloader.AddressMap | vm.h:4-14 | which range holds an address, in numbers, and that every other address is in none |
| Bootloader.WriteBootloader | run_linux.c:134-141 | the five words are in place and no other byte changes |
| Bootloader.AddiWord | run_linux.c:138 | the third word is the addi with the low twelve bits of the distance, for every address |
| Bootloader.BootSteps | run_linux.c:134-141 | five steps from 0x1000: pc at the base of RAM, a0 = mhartid, t0 the target, a1 by the third word |
| Bootloader.DeviceTreeInReach | run_linux.c:138 | a1 is the address of the tree if and only if it lies within 12 signed bits of 0x1004 |
| Bootloader.BootFromReset | run_linux.c:81-107 | from the reset state over the ranges of the machine, for any other contents of RAM and any devices, the five steps start the kernel at 0x80000000 in machine mode with the hart id in a0, 0x80000000 in t0, exactly if it is in reach the device tree in a1, and zero in every other register |
| Disassembler.ListingMeans | disassembler/disassembler.c:34-537 | for every word and address the listing, aliases included, says in assembly language exactly what the emulator takes from the word |
| Listings.AddiListing | disassembler/disassembler.c:38-50 | the line of addi for all fields: nop, li and mv exactly for rd, rs1 and immediate that ask for them, and the immediate always signed |
| Listings.ImmediateListing | disassembler/disassembler.c:189-292 | the lines of slti, sltiu, xori, ori and andi: the immediate signed, seqz and not exactly for 1 and -1 |
| Listings.ShiftListing | disassembler/disassembler.c:210-266 | the lines of the shifts by an immediate |
| Listings.UpperListing | disassembler/disassembler.c:63-66 | the lines of lui and auipc |
| Listings.RegisterListing | disassembler/disassembler.c:215-274 | the lines of the register-register instructions, with sgtz, snez and neg exactly for rs1 == zero |
| Listings.BranchListing | disassembler/disassembler.c:68-111 | the lines of the branches: the target modulo 2^32, and when each alias against zero is chosen |
| Listings.JumpListing | disassembler/disassembler.c:121-133 | the line of jal, j exactly for rd == zero |
| Listings.JumpRegisterListing | disassembler/disassembler.c:135-148 | the line of jalr in its five forms, the offset signed |
| Listings.LoadListing | disassembler/disassembler.c:150-182 | the lines of the loads, the offset signed, for the word that section 2.6 of the ISA encodes |
| Listings.StoreListing | disassembler/disassembler.c:195-284 | the lines of the stores, the offset signed |
| Listings.AtomicListing | disassembler/disassembler.c:418-448 | the lines of the atomic instructions |
| Listings.CsrListing | disassembler/disassembler.c:364-402 | the lines of the CSR instructions, the short forms, and unknown for a number without a name |
| Listings.UnknownListing | disassembler/disassembler.c:533-536 | a word that fits no row is listed as unknown |
| Disassembler.SameHandling | cpu.c:74-405 | a handler depends on the word only through that |
| Disassembler.ListingDeterminesExecution | disassembler/disassembler.c:34-537 | words with the same listing at a pc are executed alike from every state, on any bus |
| ListingOnRam.ListingDeterminesStep | disassembler/disassembler.c:450-537 | on one RAM: put another word with the same listing under the pc, and after the emulate_op step the machines differ in that word alone, provided the instruction does not access it |
| ListingOnRam.ListingDeterminesRun | disassembler/disassembler.c:450-537 | over any number of steps two machines that differ in one word of RAM stay equal but for that word, if no instruction of the run accesses it, and the run executes it only if both words have the same listing |
| ListingOnRam.ReserveOfItself | cpu_a.c:59-68 | the proviso is needed: an LR of its own word loads it, with the bits that the listing does not show |
| Disassembler.UnnamedCsrsLookAlike | disassembler/register.c:11-17 | the exception: any two CSR numbers without a name give words with one listing and different effects |
| Bytes.SwapValue | fdt.c:78-82 | bswap_32 reverses the bytes of every word |
| Bytes.SwappedIsBig | fdt.c:84-92 | a swapped word stored by a little-endian host is the word in big-endian order |
| Bytes.StoreBe | fdt.c:84-92 | a store of cpu_to_be32 puts exactly the four bytes |
| FdtWriter.GrowthStaysThrifty | fdt.c:70-75 | the growth policy keeps length within capacity, twice the capacity within three times the length, and all words ever moved within three times the capacity |
| FdtWriter.FDTState.constructor | fdt.c:52-57 | an empty tree |
| FdtWriter.FDTState.AllocLen | fdt.c:68-76 | capacity as the policy says, contents kept, bounds kept |
| FdtWriter.FDTState.FdtPut32 | fdt.c:89-93 | one big-endian word is appended, nothing else changes, growth bounds hold |
| FdtWriter.FDTState.FdtPutData | fdt.c:96-105 | the data and the least zero padding to a word boundary are appended |
| FdtWriter.FDTState.FdtBeginNode | fdt.c:107-112 | token, name with NUL, padding; one more node open |
| FdtWriter.FDTState.FdtEndNode | fdt.c:121-125 | token; one node less open |
| FdtWriter.FDTState.FdtGetStringOffset | fdt.c:127-149 | the scan stops only at starts of strings and terminates; the offset is that of the first equal name, or of the name added at the end |
| FdtWriter.FDTState.AddString | fdt.c:137-148 | a new name goes to the end of the grown table, all earlier bytes kept |
| FdtWriter.FDTState.FdtPropHead | fdt.c:154-156 | token, length, offset of the interned name |
| FdtWriter.FDTState.FdtProp | fdt.c:151-158 | a property with its value and padding |
| FdtWriter.FDTState.FdtPropTabU32 | fdt.c:160-169 | the loop appends the property of the big-endian bytes of the words |
| FdtWriter.FDTState.FdtPropStr | fdt.c:196-200 | the property of one string with its NUL |
| FdtWriter.FDTState.FdtPropTabStr | fdt.c:203-236 | the two loops append the property of the strings with their NULs, one after the other |
| FdtWriter.FDTState.FdtOutput | fdt.c:240-290 | dst starts with the blob of the ended structure block, its rest unchanged; the size is returned |
| FdtWriter.LayOut | fdt.c:252-289 | every byte below the returned size is determined by the two tables |
| FdtWriter.AlignEight | fdt.c:269-272 | the loop fills with the least number of zeros up to a multiple of eight |
| StringTable.OffsetReadsBack | fdt.c:127-149 | the returned offset reads back as the name, in the table as it is and in every later one |
| StringTable.OffsetStays | fdt.c:127-149 | later requests never move a name |
| StringTable.OffsetsTellNames | fdt.c:127-149 | two names have the same offset if and only if they are equal |
| StringTable.EveryRequestReadsBack | fdt.c:127-149 | over any sequence of requests: strings distinct, every request in the table, its offset unchanged to the end and reading back as it |
| FdtFormat.PaddingFills | fdt.c:100-103 | the padding reaches the boundary and is the least that does |
| FdtLayout.BlocksInOrder | fdt.c:263-289 | for all table sizes the blocks are in order, do not overlap, are aligned, and the total is a multiple of eight |
| FdtLayout.HeaderAgrees | fdt.c:255-288 | all ten header fields agree with the blocks found at them, the reservation block being its final entry |
| FdtRoundTrip.NodeEmitted | fdt.c:107-158 | writing a node appends exactly its bytes with every name at its final offset, and leaves the nesting as it was |
| FdtRoundTrip.NodeReadsBack | fdt.c:107-158 | a reader of section 5.4 of the Devicetree Specification takes exactly that node and leaves what follows |
| FdtRoundTrip.BlobReadsBack | fdt.c:240-290 | a reader that follows the header offsets of section 5.2 finds the blocks, whatever follows the blob |
| FdtRoundTrip.RoundTrip | fdt.c:89-290 | for every tree of any depth, property values and NUL-free names, reading the written blob gives that tree, no reservations and boot processor 0 |
| FdtRoundTrip.BlobsTellTrees | fdt.c:89-290 | different trees give different blobs |
| FdtRoundTrip.OpenCountWhileWriting | fdt.c:107-125 | while a tree is written it is never negative, and zero only at the end |
| FdtClient.Perform | fdt.c:107-236 | each entry point changes the state as the value-level call does |
| FdtClient.WriteTree | fdt.c:240-290 | writing any tree through a fresh FDTState leaves a buffer in which a reader finds that tree |
| Board.RunBoard | fdt.c:319-461 | the calls of riscv_build_fdt come to the depth-first calls of the board's tree |
| Board.BoardIsDescribed | fdt.c:319-461 | the tree of the board in numbers, byte by byte: every node, every property name, addresses and sizes as 64-bit numbers, cells, strings, interrupts, kernel start and end modulo 2^64, and the command line |
| Board.BuildFdt | fdt.c:308-463 | for every RAM size, kernel and command line a reader finds in dst a tree that says so, with memory at 0x80000000 of that size; the size returned is that of the blob, and dst keeps the rest |

## Left out

- The devices behind the memory functions (clint.c, UART, HTIF): parameters of `PhysicalMemory.RamBus`. Results over RAM, other than those of `Translation`, are for addresses that are not translated.
- Bytes past the end of a range, which the program would read or write beyond its allocation: such an access ends the run here.
- Sv32.TranslatesAsIsa: page tables beyond the 32-bit addresses are left out, because the program cuts their addresses to 32 bits and the ISA does not.
- Alignment of loads and stores, for which the ISA allows either an exception or the access, and the access rights of CSRs: the program checks neither.
- Console, UART and HTIF output, tracing, the monitor and key waits, also those in `ecall`: input and output; `ecall` is modelled without its trace of the system call.
- The test-mode `ecall` callback: the default build does not use it.
- EBREAK, FENCE, FENCE.I and SFENCE.VMA change nothing here, WFI ends the run, URET takes its pc from uepc: no further claims.
- Loading and saving of states, file access, debug symbols: no logic beyond input and output.
- The table of CSR names: a parameter says which numbers have one; that listed names differ is taken from the table.
- The spelling of mnemonics, registers and numerals by printf: a listing is a mnemonic and operands.
- Formatting of unit addresses by snprintf in `fdt_begin_node_num`: node names are taken as given.
- Failing allocations and the freeing of memory in the generator; `int` overflow of its sizes.
- MemoryMap.MemoryMap.RegisterDevice: does not say what the write past the end of a full table destroys, because C leaves that undefined.
- FdtClient.Perform: dispatches one call of a client; the C program has no such function, its clients call the entry points directly.
- Board.BuildFdt: takes the calls of `riscv_build_fdt` from a list in their order instead of writing them out as statements, and leaves out the dump of the blob to a file.
