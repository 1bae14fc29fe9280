/** Instruction pairs that compilers rely on, as two calls of emulate_op. */
module Sequences {
  import opened Words
  import opened Memory
  import opened Opcodes
  import opened HartSpec
  import opened Runs
  import opened Conformance

  /** The upper and the lower part of a constant; the lower part is signed, so the upper one
      is rounded. */
  function UpperPart(c: Word): Word { (c + 0x800) / 0x1000 % 0x10_0000 }
  function LowerPart(c: Word): int { (c + 0x800) % 0x1000 - 0x800 }

  lemma PartsSum(c: Word)
    ensures UpperPart(c) * 0x1000 + LowerPart(c) == c || UpperPart(c) * 0x1000 + LowerPart(c) == c - 0x1_0000_0000
  {
    var n := c + 0x800;
    assert 0 <= n / 0x1000 <= 0x10_0000;
  }

  lemma AddModulo(x: int, y: int)
    ensures (x % 0x1_0000_0000 + y) % 0x1_0000_0000 == (x + y) % 0x1_0000_0000
    ensures (x % 0x1_0000_0000 + y % 0x1_0000_0000) % 0x1_0000_0000 == (x + y) % 0x1_0000_0000
  {
  }

  /** The two parts add up to the constant, on top of any base. */
  lemma PartsMakeWhole(c: Word, base: int)
    ensures var high := (UpperPart(c) * 0x1000 + base) % 0x1_0000_0000;
            (high + LowerPart(c)) % 0x1_0000_0000 == (high + LowerPart(c) % 0x1_0000_0000) % 0x1_0000_0000
            == (base + c) % 0x1_0000_0000
  {
    PartsSum(c);
    AddModulo(UpperPart(c) * 0x1000 + base, LowerPart(c));
    SameResidue(UpperPart(c) * 0x1000 + base + LowerPart(c), base + c);
  }

  lemma SameResidue(x: int, y: int)
    requires x == y || x == y - 0x1_0000_0000
    ensures x % 0x1_0000_0000 == y % 0x1_0000_0000
  {
  }

  // The instructions used here, each as one step with its equations.

  /** h' is live, at a boundary, with memory m and the privilege and CSRs of h. */
  ghost predicate Follows<M>(h: Hart<M>, h': Hart<M>, m: M) {
    && Boundary(h) && Boundary(h') && h'.life == Live && h'.mem == m && h'.privilege == h.privilege
    && (forall k :: 0 <= k < 4096 && k != CSR_TIME && k != CSR_CYCLE ==> h'.csr[k] == h.csr[k])
  }

  lemma FollowsMeans<M>(h: Hart<M>, h': Hart<M>, m: M)
    requires Follows(h, h', m)
    ensures Boundary(h') && h'.Shaped() && h'.life == Live && h'.mem == m && h'.x[0] == 0
  {
  }

  lemma BoundaryShape<M>(h: Hart<M>)
    requires Boundary(h)
    ensures h.Shaped() && h.x[0] == 0
  {
  }

  lemma UpperMeans(op: Op, rd: Word, imm20: Word, pc: Word, x: seq<Word>, pc': Word, x': seq<Word>)
    requires |x| == 32 && |x'| == 32 && 0 < rd < 32 && imm20 < 0x10_0000 && (op == LUI || op == AUIPC)
    requires Completes(UpperImmediate(op, rd, imm20), pc, x, pc', x')
    ensures pc' == (pc + 4) % 0x1_0000_0000
    ensures x' == x[rd := (imm20 * 0x1000 + (if op == AUIPC then pc else 0)) % 0x1_0000_0000]
  {
  }

  lemma UpperStep<M>(bus: Bus<M>, h: Hart<M>, op: Op, rd: Word, imm20: Word, m: M)
    requires Boundary(h) && h.life == Live && 0 < rd < 32 && imm20 < 0x10_0000 && (op == LUI || op == AUIPC)
    requires FetchOf(bus, h) == Fetched(m, Encoding(UpperImmediate(op, rd, imm20)))
    ensures var h' := Step(bus, h);
            && Follows(h, h', m) && h'.pc == (h.pc + 4) % 0x1_0000_0000
            && h'.x == h.x[rd := (imm20 * 0x1000 + (if op == AUIPC then h.pc else 0)) % 0x1_0000_0000]
  {
    hide Step, Encoding, FetchOf, Completes, Does, Agrees;
    var i := UpperImmediate(op, rd, imm20);
    StepConforms(bus, h, i, m);
    UpperMeans(op, rd, imm20, h.pc, h.x, Step(bus, h).pc, Step(bus, h).x);
  }

  lemma AddiMeans(rd: Word, rs1: Word, imm: int, pc: Word, x: seq<Word>, pc': Word, x': seq<Word>)
    requires |x| == 32 && |x'| == 32 && 0 < rd < 32 && rs1 < 32 && -0x800 <= imm < 0x800
    requires Completes(Immediate(ADDI, rd, rs1, imm), pc, x, pc', x')
    ensures pc' == (pc + 4) % 0x1_0000_0000
    ensures x' == x[rd := (x[rs1] + imm % 0x1_0000_0000) % 0x1_0000_0000]
  {
  }

  lemma AddiStep<M>(bus: Bus<M>, h: Hart<M>, rd: Word, rs1: Word, imm: int, m: M)
    requires Boundary(h) && h.life == Live && 0 < rd < 32 && rs1 < 32 && -0x800 <= imm < 0x800
    requires FetchOf(bus, h) == Fetched(m, Encoding(Immediate(ADDI, rd, rs1, imm)))
    ensures var h' := Step(bus, h);
            && Follows(h, h', m) && h'.pc == (h.pc + 4) % 0x1_0000_0000
            && h'.x == h.x[rd := (h.x[rs1] + imm % 0x1_0000_0000) % 0x1_0000_0000]
  {
    hide Step, Encoding, FetchOf, Completes, Does, Agrees;
    StepConforms(bus, h, Immediate(ADDI, rd, rs1, imm), m);
    AddiMeans(rd, rs1, imm, h.pc, h.x, Step(bus, h).pc, Step(bus, h).x);
  }

  lemma JalrMeans(rd: Word, rs1: Word, imm: int, pc: Word, x: seq<Word>, pc': Word, x': seq<Word>)
    requires |x| == 32 && |x'| == 32 && rd < 32 && rs1 < 32 && -0x800 <= imm < 0x800
    requires Completes(JumpRegister(rd, rs1, imm), pc, x, pc', x') && (x[rs1] + imm) % 2 == 0
    ensures pc' == (x[rs1] + imm) % 0x1_0000_0000
    ensures x' == if rd == 0 then x else x[rd := (pc + 4) % 0x1_0000_0000]
  {
    DivDiv(x[rs1] + imm, 2, 0x8000_0000);
  }

  lemma JalrStep<M>(bus: Bus<M>, h: Hart<M>, rd: Word, rs1: Word, imm: int, m: M)
    requires Boundary(h) && h.life == Live && rd < 32 && rs1 < 32 && -0x800 <= imm < 0x800
    requires (h.x[rs1] + imm) % 2 == 0
    requires FetchOf(bus, h) == Fetched(m, Encoding(JumpRegister(rd, rs1, imm)))
    ensures var h' := Step(bus, h);
            && Follows(h, h', m) && h'.pc == (h.x[rs1] + imm) % 0x1_0000_0000
            && h'.x == if rd == 0 then h.x else h.x[rd := (h.pc + 4) % 0x1_0000_0000]
  {
    hide Step, Encoding, FetchOf, Completes, Does, Agrees;
    StepConforms(bus, h, JumpRegister(rd, rs1, imm), m);
    JalrMeans(rd, rs1, imm, h.pc, h.x, Step(bus, h).pc, Step(bus, h).x);
  }

  /** lui rd, upper; addi rd, rd, lower puts any 32-bit constant in rd. */
  lemma LuiThenAddi<M>(bus: Bus<M>, h: Hart<M>, rd: Word, c: Word, m: M, m': M)
    requires Boundary(h) && h.life == Live && 0 < rd < 32
    requires FetchOf(bus, h) == Fetched(m, Encoding(UpperImmediate(LUI, rd, UpperPart(c))))
    requires Step(bus, h).Shaped() && FetchOf(bus, Step(bus, h)) == Fetched(m', Encoding(Immediate(ADDI, rd, rd, LowerPart(c))))
    ensures var h' := Step(bus, Step(bus, h));
            && h'.life == Live && Boundary(h') && h'.mem == m'
            && h'.x == h.x[rd := c] && h'.pc == (h.pc + 8) % 0x1_0000_0000
  {
    hide *;
    PartsInRange(c);
    BoundaryShape(h);
    UpperStep(bus, h, LUI, rd, UpperPart(c), m);
    var h1 := Step(bus, h);
    FollowsMeans(h, h1, m);
    AddiStep(bus, h1, rd, rd, LowerPart(c), m');
    var h2 := Step(bus, h1);
    FollowsMeans(h1, h2, m');
    ConstantIsWhole(c);
    TwoNext(h.pc);
    assert h2.x[rd] == c;
    assert h2.x == h.x[rd := c];
  }

  lemma ConstantIsWhole(c: Word)
    ensures ((UpperPart(c) * 0x1000 + 0) % 0x1_0000_0000 + LowerPart(c) % 0x1_0000_0000) % 0x1_0000_0000 == c
  {
    hide UpperPart, LowerPart;
    PartsMakeWhole(c, 0);
  }

  lemma PartsInRange(c: Word)
    ensures UpperPart(c) < 0x10_0000 && -0x800 <= LowerPart(c) < 0x800
  {
  }

  lemma TwoNext(pc: Word)
    ensures ((pc + 4) % 0x1_0000_0000 + 4) % 0x1_0000_0000 == (pc + 8) % 0x1_0000_0000
  {
  }

  /** auipc t, upper; jalr link, lower(t) reaches every even address from everywhere, and
      links to the instruction after the pair.  The ISA allows those that are four-byte
      aligned. */
  lemma AuipcThenJalr<M>(bus: Bus<M>, h: Hart<M>, t: Word, link: Word, target: Word, m: M, m': M)
    requires Boundary(h) && h.life == Live && 0 < t < 32 && link < 32 && target % 2 == 0
    requires var c := Sub32(target, h.pc);
             && FetchOf(bus, h) == Fetched(m, Encoding(UpperImmediate(AUIPC, t, UpperPart(c))))
             && Step(bus, h).Shaped()
             && FetchOf(bus, Step(bus, h)) == Fetched(m', Encoding(JumpRegister(link, t, LowerPart(c))))
    ensures var h' := Step(bus, Step(bus, h));
            && h'.life == Live && Boundary(h') && h'.mem == m'
            && h'.pc == target && (link != 0 ==> h'.x[link] == (h.pc + 8) % 0x1_0000_0000)
  {
    hide *;
    var c := Sub32(target, h.pc);
    PartsInRange(c);
    BoundaryShape(h);
    UpperStep(bus, h, AUIPC, t, UpperPart(c), m);
    var h1 := Step(bus, h);
    FollowsMeans(h, h1, m);
    TargetIsWhole(target, h.pc);
    JalrTo(bus, h1, link, t, LowerPart(c), target, m');
    TwoNext(h.pc);
  }

  lemma JalrTo<M>(bus: Bus<M>, h: Hart<M>, link: Word, t: Word, imm: int, target: Word, m: M)
    requires Boundary(h) && h.life == Live && link < 32 && t < 32 && -0x800 <= imm < 0x800
    requires (h.x[t] + imm) % 0x1_0000_0000 == target && target % 2 == 0
    requires FetchOf(bus, h) == Fetched(m, Encoding(JumpRegister(link, t, imm)))
    ensures var h' := Step(bus, h);
            && Boundary(h') && h'.life == Live && h'.mem == m && h'.pc == target
            && (link != 0 ==> h'.x[link] == (h.pc + 4) % 0x1_0000_0000)
  {
    hide Step, Encoding, FetchOf, Follows;
    EvenSum(h.x[t] + imm, target);
    JalrStep(bus, h, link, t, imm, m);
    FollowsMeans(h, Step(bus, h), m);
  }

  lemma BackToTarget(target: Word, pc: Word)
    ensures (pc + Sub32(target, pc)) % 0x1_0000_0000 == target
  {
  }

  lemma TargetIsWhole(target: Word, pc: Word)
    ensures var c := Sub32(target, pc);
            ((UpperPart(c) * 0x1000 + pc) % 0x1_0000_0000 + LowerPart(c)) % 0x1_0000_0000 == target
  {
    hide UpperPart, LowerPart, Sub32;
    PartsMakeWhole(Sub32(target, pc), pc);
    BackToTarget(target, pc);
  }

  lemma EvenSum(n: int, target: Word)
    requires n % 0x1_0000_0000 == target && target % 2 == 0
    ensures n % 2 == 0
  {
    DivDiv(n, 2, 0x8000_0000);
  }
}
