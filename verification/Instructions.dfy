/** Straight-line instructions and the in-order machine that gives them their meaning. */
module Instructions {
  import opened RegisterFiles

  datatype Op = Nop | And | Or | Xor | Add | Sub | AndI | OrI | XorI | AddI | SubI

  datatype Insn = Insn(op: Op, dst: nat, src1: nat, src2: nat, imm: Word)

  function Both(a: Word, b: Word): Word { a & b }

  function Either(a: Word, b: Word): Word { a | b }

  function Differ(a: Word, b: Word): Word { a ^ b }

  /** Sums and differences wrap around. */
  function Plus(a: Word, b: Word): Word { a + b }

  function Minus(a: Word, b: Word): Word { a - b }

  function Alu(insn: Insn, a: Word, b: Word): Word {
    match insn.op
    case Nop => a
    case And => Both(a, b)
    case Or => Either(a, b)
    case Xor => Differ(a, b)
    case Add => Plus(a, b)
    case Sub => Minus(a, b)
    case AndI => Both(a, insn.imm)
    case OrI => Either(a, insn.imm)
    case XorI => Differ(a, insn.imm)
    case AddI => Plus(a, insn.imm)
    case SubI => Minus(a, insn.imm)
  }

  /** Architectural registers by number; a register never written holds 0. */
  type Regs = map<nat, Word>

  /** Register 0 always reads 0. */
  function RefRead(regs: Regs, a: nat): Word {
    if a == 0 || a !in regs then 0 else regs[a]
  }

  /** Writes to register 0 are dropped. */
  function RefWrite(regs: Regs, a: nat, v: Word): Regs {
    if a == 0 then regs else regs[a := v]
  }

  function RefStep(regs: Regs, insn: Insn): Regs {
    RefWrite(regs, insn.dst, Alu(insn, RefRead(regs, insn.src1), RefRead(regs, insn.src2)))
  }

  /** The in-order machine: the registers after executing a whole program from reset. */
  function RefRun(program: seq<Insn>): Regs {
    if program == [] then map[]
    else RefStep(RefRun(program[..|program| - 1]), program[|program| - 1])
  }

  // ---- What the operations compute ----------------------------------------------------------------

  predicate Bit(w: Word, k: bv6) {
    (w >> k) & 1 == 1
  }

  lemma AndBit(a: Word, b: Word, k: bv6)
    ensures Bit(a & b, k) <==> Bit(a, k) && Bit(b, k)
  {
  }

  lemma OrBit(a: Word, b: Word, k: bv6)
    ensures Bit(a | b, k) <==> Bit(a, k) || Bit(b, k)
  {
  }

  lemma XorBit(a: Word, b: Word, k: bv6)
    ensures Bit(a ^ b, k) <==> Bit(a, k) != Bit(b, k)
  {
  }

  /** The logical operations work on every bit position by itself; their immediate forms take the immediate for
      the second operand. */
  lemma AndBitwise(insn: Insn, a: Word, b: Word, k: bv6)
    requires insn.op == And || insn.op == AndI
    ensures Bit(Alu(insn, a, b), k) <==> Bit(a, k) && Bit(if insn.op == And then b else insn.imm, k)
  {
    BothBit(a, if insn.op == And then b else insn.imm, k);
  }

  lemma OrBitwise(insn: Insn, a: Word, b: Word, k: bv6)
    requires insn.op == Or || insn.op == OrI
    ensures Bit(Alu(insn, a, b), k) <==> Bit(a, k) || Bit(if insn.op == Or then b else insn.imm, k)
  {
    EitherBit(a, if insn.op == Or then b else insn.imm, k);
  }

  lemma XorBitwise(insn: Insn, a: Word, b: Word, k: bv6)
    requires insn.op == Xor
    ensures Bit(Alu(insn, a, b), k) <==> Bit(a, k) != Bit(b, k)
  {
    assert Alu(insn, a, b) == Differ(a, b);
    DifferBit(a, b, k);
  }

  lemma XorImmediate(insn: Insn, a: Word, b: Word)
    requires insn.op == XorI
    ensures Alu(insn, a, b) == Differ(a, insn.imm)
  {
  }

  lemma XorImmediateBitwise(insn: Insn, a: Word, b: Word, k: bv6)
    requires insn.op == XorI
    ensures Bit(Alu(insn, a, b), k) <==> Bit(a, k) != Bit(insn.imm, k)
  {
    XorImmediate(insn, a, b);
    DifferBit(a, insn.imm, k);
  }

  lemma BothBit(a: Word, b: Word, k: bv6)
    ensures Bit(Both(a, b), k) <==> Bit(a, k) && Bit(b, k)
  {
    AndBit(a, b, k);
  }

  lemma EitherBit(a: Word, b: Word, k: bv6)
    ensures Bit(Either(a, b), k) <==> Bit(a, k) || Bit(b, k)
  {
    OrBit(a, b, k);
  }

  lemma DifferBit(a: Word, b: Word, k: bv6)
    ensures Bit(Differ(a, b), k) <==> Bit(a, k) != Bit(b, k)
  {
    XorBit(a, b, k);
  }

  /** Adding nothing changes nothing, and adding one more gives one more, wrapping around. */
  lemma AddCountsUp(insn: Insn, a: Word, b: Word)
    requires insn.op == Add
    ensures Alu(insn, a, 0) == a && Alu(insn, a, b + 1) == Alu(insn, a, b) + 1
  {
  }

  /** Subtracting nothing changes nothing, and subtracting one more gives one less. */
  lemma SubCountsDown(insn: Insn, a: Word, b: Word)
    requires insn.op == Sub
    ensures Alu(insn, a, 0) == a && Alu(insn, a, b + 1) == Alu(insn, a, b) - 1
  {
  }

  /** The immediate forms do the same with the immediate, whatever the second operand. */
  lemma ImmediateCounts(insn: Insn, a: Word, b: Word)
    ensures insn.op == AddI ==> Alu(insn, a, b) == Alu(insn.(op := Add), a, insn.imm)
    ensures insn.op == SubI ==> Alu(insn, a, b) == Alu(insn.(op := Sub), a, insn.imm)
    ensures insn.op == Nop ==> Alu(insn, a, b) == a
  {
  }

  /** A step leaves every register but its destination, and register 0 always reads 0. */
  lemma StepWritesDestination(regs: Regs, insn: Insn, a: nat)
    ensures a != insn.dst ==> RefRead(RefStep(regs, insn), a) == RefRead(regs, a)
    ensures RefRead(RefStep(regs, insn), 0) == 0
  {
  }

  lemma LoadConstant(regs: Regs, p: nat, x: Word)
    requires p != 0
    ensures RefStep(regs, Insn(AddI, p, 0, 0, x)) == regs[p := x]
  {
  }

  lemma StepReadsSources(regs: Regs, insn: Insn, x: Word, y: Word)
    requires insn.dst != 0 && RefRead(regs, insn.src1) == x && RefRead(regs, insn.src2) == y
    ensures RefRead(RefStep(regs, insn), insn.dst) == Alu(insn, x, y)
  {
  }

  /** A program that loads two constants into the sources of an instruction and executes that leaves in its
      destination what it computes from the first and the second, in this order. */
  lemma ExecutesInOrder(insn: Insn, x: Word, y: Word)
    requires insn.dst != 0 && insn.src1 != 0 && insn.src2 != 0 && insn.src1 != insn.src2
    ensures RefRead(RefRun([Insn(AddI, insn.src1, 0, 0, x), Insn(AddI, insn.src2, 0, 0, y), insn]), insn.dst)
            == Alu(insn, x, y)
  {
    var p, q := insn.src1, insn.src2;
    var load, next := Insn(AddI, p, 0, 0, x), Insn(AddI, q, 0, 0, y);
    RunInOrder([], load);
    RunInOrder([load], next);
    RunInOrder([load, next], insn);
    assert [] + [load] == [load] && [load] + [next] == [load, next] && [load, next] + [insn] == [load, next, insn];
    LoadConstant(map[], p, x);
    LoadConstant(map[p := x], q, y);
    StepReadsSources(map[p := x][q := y], insn, x, y);
  }

  /** A program is executed instruction by instruction, in order. */
  lemma RunInOrder(program: seq<Insn>, insn: Insn)
    ensures RefRun([]) == map[] && RefRun(program + [insn]) == RefStep(RefRun(program), insn)
  {
    assert (program + [insn])[..|program|] == program;
  }
}
