// What the instructions do, in the numbers and binary digits of the RISC-V Unprivileged ISA.
module Instructions {
  import opened Words
  import opened Isa
  import opened Hart
  import opened Mmu
  import opened Exec
  import opened Numbers
  import MExtension

  function Unsigned(x: Word): int { Num(x.bits) }
  function Value(x: Word): int { Signed(x.bits) }

  /** The instruction completes, with a value for rd, and the next instruction is the one behind it. */
  predicate Completes(e: Effect, h: Hart, rd: bv5) {
    e.Retire? && e.h == h && e.rd == rd && Unsigned(e.next) == Modulo(Unsigned(h.pc) + 4)
  }

  // ---------------------------------------------------------------------------------------------
  // Word operations as those of Numbers

  lemma NextIs(pc: bv32)
    ensures NextPc(Word(pc)) == Word(Plus(pc, 4))
  {
  }

  lemma FourAsInt()
    ensures AsInt(4) == 4
  {
  }

  lemma Following(pc: Word)
    ensures Unsigned(NextPc(pc)) == Modulo(Unsigned(pc) + 4)
  {
    assert pc == Word(pc.bits);
    NextIs(pc.bits);
    FourAsInt();
    NumIsInt(4);
    PlusNum(pc.bits, 4);
  }

  lemma SumNum(a: Word, b: Word)
    ensures Unsigned(Add(a, b)) == Modulo(Unsigned(a) + Unsigned(b))
  {
    PlusNum(a.bits, b.bits);
  }

  // ---------------------------------------------------------------------------------------------
  // Register and immediate operations

  /** What v is for operands a and b. Shifts are by less than 32. */
  ghost predicate AluMeans(op: AluOp, a: Word, b: Word, v: Word) {
    match op
    case OpAdd => Unsigned(v) == Modulo(Unsigned(a) + Unsigned(b))
    case OpSub => Unsigned(v) == Modulo(Unsigned(a) - Unsigned(b))
    case OpAnd => forall i: nat :: Digit(v.bits, i) == (Digit(a.bits, i) && Digit(b.bits, i))
    case OpOr => forall i: nat :: Digit(v.bits, i) == (Digit(a.bits, i) || Digit(b.bits, i))
    case OpXor => forall i: nat :: Digit(v.bits, i) == (Digit(a.bits, i) != Digit(b.bits, i))
    case OpSlt => Unsigned(v) == if Value(a) < Value(b) then 1 else 0
    case OpSltu => Unsigned(v) == if Unsigned(a) < Unsigned(b) then 1 else 0
    case OpSll => Unsigned(b) >= 0 && Unsigned(v) == Modulo(Unsigned(a) * Pow2(Unsigned(b)))
    case OpSrl => Unsigned(b) >= 0 && Unsigned(v) == Unsigned(a) / Pow2(Unsigned(b))
    case OpSra => Unsigned(b) >= 0 && Value(v) == Value(a) / Pow2(Unsigned(b))
  }

  lemma SubMeans(a: bv32, b: bv32)
    ensures AluMeans(OpSub, Word(a), Word(b), AluResult(OpSub, Word(a), Word(b)))
  {
    MinusNum(a, b);
  }

  lemma AndIs(a: bv32, b: bv32)
    ensures AndBits(a, b) == Meet(a, b)
  {
  }

  lemma AndMeans(a: bv32, b: bv32)
    ensures AluMeans(OpAnd, Word(a), Word(b), AluResult(OpAnd, Word(a), Word(b)))
  {
    AndIs(a, b);
    forall i: nat ensures Digit(Meet(a, b), i) == (Digit(a, i) && Digit(b, i)) { MeetDigits(a, b, i); }
  }

  lemma OrIs(a: bv32, b: bv32)
    ensures OrBits(a, b) == Either(a, b)
  {
  }

  lemma OrMeans(a: bv32, b: bv32)
    ensures AluMeans(OpOr, Word(a), Word(b), AluResult(OpOr, Word(a), Word(b)))
  {
    OrIs(a, b);
    forall i: nat ensures Digit(Either(a, b), i) == (Digit(a, i) || Digit(b, i)) { EitherDigits(a, b, i); }
  }

  lemma XorMeans(a: bv32, b: bv32)
    ensures AluMeans(OpXor, Word(a), Word(b), AluResult(OpXor, Word(a), Word(b)))
  {
    forall i: nat ensures Digit(Differ(a, b), i) == (Digit(a, i) != Digit(b, i)) { DifferDigits(a, b, i); }
  }

  /** The comparisons order words by their numbers. */
  lemma Comparisons(a: Word, b: Word)
    ensures SignedLess(a, b) <==> Value(a) < Value(b)
    ensures UnsignedLess(a, b) <==> Unsigned(a) < Unsigned(b)
  {
    SignedLessNum(a.bits, b.bits);
    LessNum(a.bits, b.bits);
  }

  lemma OneAsInt()
    ensures AsInt(1) == 1 && AsInt(0) == 0
  {
  }

  lemma TruthNum(c: bool)
    ensures Unsigned(Truth(c)) == if c then 1 else 0
  {
    OneAsInt();
    NumIsInt(1);
    NumIsInt(0);
  }

  lemma SetMeans(a: Word, b: Word)
    ensures AluMeans(OpSlt, a, b, AluResult(OpSlt, a, b)) && AluMeans(OpSltu, a, b, AluResult(OpSltu, a, b))
  {
    Comparisons(a, b);
    TruthNum(SignedLess(a, b));
    TruthNum(UnsignedLess(a, b));
  }

  lemma ShiftMeans(op: AluOp, a: bv32, n: bv32)
    requires IsShift(op) && ShiftAmount(n)
    ensures Defined(op, Word(n)) && AluMeans(op, Word(a), Word(n), AluResult(op, Word(a), Word(n)))
  {
    NumBound(n);
    match op
    case OpSll => LeftNum(a, n);
    case OpSrl => RightNum(a, n);
    case OpSra => ArithmeticNum(a, n);
  }

  lemma Amounts(n: bv32)
    ensures ShiftAmount(n) <==> Num(n) < 32
  {
    NumIsInt(32);
    ThirtyTwo();
    LessNum(n, 32);
  }

  lemma ThirtyTwo()
    ensures AsInt(32) == 32
  {
  }

  /** Every operation on two operands gives what the ISA says; a shift by 32 or more is not defined. */
  lemma AluLaw(op: AluOp, a: Word, b: Word)
    ensures Defined(op, b) <==> (IsShift(op) ==> Unsigned(b) < 32)
    ensures Defined(op, b) ==> AluMeans(op, a, b, AluResult(op, a, b))
  {
    assert a == Word(a.bits) && b == Word(b.bits);
    Amounts(b.bits);
    match op
    case OpAdd => SumNum(a, b);
    case OpSub => SubMeans(a.bits, b.bits);
    case OpAnd => AndMeans(a.bits, b.bits);
    case OpOr => OrMeans(a.bits, b.bits);
    case OpXor => XorMeans(a.bits, b.bits);
    case OpSlt => SetMeans(a, b);
    case OpSltu => SetMeans(a, b);
    case _ => if ShiftAmount(b.bits) { ShiftMeans(op, a.bits, b.bits); }
  }

  /** The instructions on registers and on a register and an immediate. */
  lemma ComputesAlu(h: Hart, op: AluOp, rd: bv5, rs1: bv5, rs2: bv5, imm: Word, console: Word)
    ensures var e, b := ExecInstr(h, Alu(op, rd, rs1, rs2), console), Reg(h, rs2);
      if IsShift(op) && Unsigned(b) >= 32 then e == Stop
      else Completes(e, h, rd) && AluMeans(op, Reg(h, rs1), b, e.value)
    ensures var e := ExecInstr(h, AluImm(op, rd, rs1, imm), console);
      if IsShift(op) && Unsigned(imm) >= 32 then e == Stop
      else Completes(e, h, rd) && AluMeans(op, Reg(h, rs1), imm, e.value)
  {
    AluLaw(op, Reg(h, rs1), Reg(h, rs2));
    AluLaw(op, Reg(h, rs1), imm);
    Following(h.pc);
  }

  // ---------------------------------------------------------------------------------------------
  // Branches and jumps

  predicate Holds(cond: Cond, a: Word, b: Word) {
    match cond
    case Eq => Unsigned(a) == Unsigned(b)
    case Ne => Unsigned(a) != Unsigned(b)
    case Lt => Value(a) < Value(b)
    case Ge => Value(a) >= Value(b)
    case Ltu => Unsigned(a) < Unsigned(b)
    case Geu => Unsigned(a) >= Unsigned(b)
  }

  lemma SameWord(a: Word, b: Word)
    ensures a == b <==> Unsigned(a) == Unsigned(b)
  {
    if Unsigned(a) == Unsigned(b) { SameNum(a.bits, b.bits); }
  }

  /** A branch jumps exactly when its condition holds of the numbers, and writes no register. */
  lemma Branches(h: Hart, cond: Cond, rs1: bv5, rs2: bv5, imm: Word, console: Word)
    ensures var e := ExecInstr(h, Branch(cond, rs1, rs2, imm), console);
      e.Retire? && e.h == h && e.rd == 0
      && Unsigned(e.next) ==
        Modulo(Unsigned(h.pc) + if Holds(cond, Reg(h, rs1), Reg(h, rs2)) then Unsigned(imm) else 4)
  {
    TakenHolds(cond, Reg(h, rs1), Reg(h, rs2));
    Following(h.pc);
    SumNum(h.pc, imm);
  }

  lemma TakenHolds(cond: Cond, a: Word, b: Word)
    ensures Exec.Taken(cond, a, b) <==> Holds(cond, a, b)
  {
    Comparisons(a, b);
    SameWord(a, b);
  }

  lemma DropOddIs(x: bv32)
    ensures DropOdd(x) == Twice(HalfOf(x))
  {
  }

  /** The target of JALR is the sum, rounded down to an even address. */
  lemma TargetNum(a: Word, imm: Word)
    ensures var s := Modulo(Unsigned(a) + Unsigned(imm)); Unsigned(JumpTarget(a, imm)) == s - s % 2
  {
    DropOddIs(Plus(a.bits, imm.bits));
    PlusNum(a.bits, imm.bits);
    EvenPart(Plus(a.bits, imm.bits));
  }

  lemma EvenPart(s: bv32)
    ensures Num(Twice(HalfOf(s))) == Num(s) - Num(s) % 2
  {
    HalfSmall(s);
    TwiceNum(HalfOf(s));
    HalfNum(s);
  }

  lemma HalfNum(s: bv32)
    ensures 2 * Num(HalfOf(s)) == Num(s) - Num(s) % 2
  {
    Halve(s);
    EvenNumber(Num(s), Num(HalfOf(s)), if Odd(s) then 1 else 0);
  }

  lemma EvenNumber(n: int, half: int, low: int)
    requires n == 2 * half + low && 0 <= low <= 1
    ensures 2 * half == n - n % 2
  {
  }

  /** Jumps link to the instruction behind them. */
  lemma Jumps(h: Hart, rd: bv5, rs1: bv5, imm: Word, console: Word)
    ensures var e := ExecInstr(h, Jal(rd, imm), console);
      e.Retire? && e.h == h && e.rd == rd && Unsigned(e.value) == Modulo(Unsigned(h.pc) + 4)
      && Unsigned(e.next) == Modulo(Unsigned(h.pc) + Unsigned(imm))
    ensures var e, s := ExecInstr(h, Jalr(rd, rs1, imm), console), Modulo(Unsigned(Reg(h, rs1)) + Unsigned(imm));
      e.Retire? && e.h == h && e.rd == rd && Unsigned(e.value) == Modulo(Unsigned(h.pc) + 4)
      && Unsigned(e.next) == s - s % 2
  {
    Following(h.pc);
    SumNum(h.pc, imm);
    TargetNum(Reg(h, rs1), imm);
  }

  /** LUI gives its immediate, AUIPC the immediate added to the address of the instruction. */
  lemma UpperImmediates(h: Hart, rd: bv5, imm: Word, console: Word)
    ensures var e := ExecInstr(h, Lui(rd, imm), console); Completes(e, h, rd) && Unsigned(e.value) == Unsigned(imm)
    ensures var e := ExecInstr(h, Auipc(rd, imm), console);
      Completes(e, h, rd) && Unsigned(e.value) == Modulo(Unsigned(h.pc) + Unsigned(imm))
  {
    Following(h.pc);
    SumNum(imm, h.pc);
  }

  // ---------------------------------------------------------------------------------------------
  // Multiplication and division

  const WORD := 0x1_0000_0000

  /** What v is for operands a and b. */
  predicate MulDivMeans(op: MulOp, a: Word, b: Word, v: Word) {
    var x, y, ux, uy := Value(a), Value(b), Unsigned(a), Unsigned(b);
    match op
    case Mul => Unsigned(v) == Modulo(x * y)
    case Mulh => Value(v) == x * y / WORD
    case Mulhsu => Value(v) == x * uy / WORD
    case Mulhu => Unsigned(v) == ux * uy / WORD
    case Div =>
      if y == 0 then Value(v) == -1
      else if x == -0x8000_0000 && y == -1 then Value(v) == x
      else Quotient(x, y, Value(v))
    case Rem => if y == 0 then Value(v) == x else Remainder(x, y, Value(v))
    case Divu => Unsigned(v) == if uy == 0 then WORD - 1 else ux / uy
    case Remu => Unsigned(v) == if uy == 0 then ux else ux % uy
  }

  function Abs(x: int): int { if x < 0 then -x else x }

  /** q is the quotient of x and y, rounded toward zero: what remains is smaller than y and has the sign of x. */
  predicate Quotient(x: int, y: int, q: int) {
    var r := x - q * y;
    Abs(r) < Abs(y) && (r == 0 || (r > 0) == (x > 0))
  }

  predicate Remainder(x: int, y: int, r: int)
    requires y != 0
  {
    (x - r) % Abs(y) == 0 && Abs(r) < Abs(y) && (r == 0 || (r > 0) == (x > 0))
  }

  /** The word computed, as a number. */
  lemma ComputedNum(op: MulOp, a: Word, b: Word)
    ensures 0 <= Unsigned(a) < WORD && 0 <= Unsigned(b) < WORD
    ensures Unsigned(MulDivResult(op, a, b)) == MExtension.Compute(op, Unsigned(a), Unsigned(b))
  {
    NumBound(a.bits);
    NumBound(b.bits);
    Converted(MExtension.Compute(op, Unsigned(a), Unsigned(b)));
  }

  /** The product instructions. */
  lemma ProductMeans(op: MulOp, a: Word, b: Word, v: Word)
    requires op.Mul? || op.Mulh? || op.Mulhsu? || op.Mulhu?
    requires 0 <= Unsigned(a) < WORD && 0 <= Unsigned(b) < WORD
    requires Unsigned(v) == MExtension.Compute(op, Unsigned(a), Unsigned(b))
    ensures MulDivMeans(op, a, b, v)
  {
    var x, y := Unsigned(a), Unsigned(b);
    var low := MExtension.Compute(Mul, x, y);
    match op
    case Mul =>
    case Mulh =>
      MExtension.SignedProduct(x, y);
      HighPart(Value(a) * Value(b), low, Value(v));
    case Mulhsu =>
      MExtension.MixedProduct(x, y);
      HighPart(Value(a) * y, low, Value(v));
    case Mulhu =>
      MExtension.UnsignedProduct(x, y);
      HighPart(x * y, low, Unsigned(v));
  }

  lemma HighPart(p: int, low: int, high: int)
    requires 0 <= low < WORD && low + WORD * high == p
    ensures high == p / WORD
  {
  }

  lemma DivisionMeans(op: MulOp, a: Word, b: Word, v: Word)
    requires op.Div? || op.Rem? || op.Divu? || op.Remu?
    requires 0 <= Unsigned(a) < WORD && 0 <= Unsigned(b) < WORD
    requires Unsigned(v) == MExtension.Compute(op, Unsigned(a), Unsigned(b))
    ensures MulDivMeans(op, a, b, v)
  {
    var x, y := Unsigned(a), Unsigned(b);
    match op
    case Div => DivMeans(x, y, Value(a), Value(b), Value(v));
    case Rem => RemMeans(x, y, Value(a), Value(b), Value(v));
    case Divu => UnsignedDivisionMeans(x, y);
    case Remu => UnsignedDivisionMeans(x, y);
  }

  lemma UnsignedDivisionMeans(x: MExtension.u32, y: MExtension.u32)
    ensures MExtension.Compute(Divu, x, y) == if y == 0 then WORD - 1 else x / y
    ensures MExtension.Compute(Remu, x, y) == if y == 0 then x else x % y
  {
  }

  lemma DivMeans(x: MExtension.u32, y: MExtension.u32, a: int, b: int, v: int)
    requires a == MExtension.Signed(x) && b == MExtension.Signed(y)
      && v == MExtension.Signed(MExtension.Compute(Div, x, y))
    ensures if b == 0 then v == -1 else if a == -0x8000_0000 && b == -1 then v == a else Quotient(a, b, v)
  {
    MExtension.SignedDivision(x, y);
  }

  lemma RemMeans(x: MExtension.u32, y: MExtension.u32, a: int, b: int, v: int)
    requires a == MExtension.Signed(x) && b == MExtension.Signed(y)
      && v == MExtension.Signed(MExtension.Compute(Rem, x, y))
    ensures if b == 0 then v == a else Remainder(a, b, v)
  {
    MExtension.SignedDivision(x, y);
    if b != 0 { RemainderOf(a, b, MExtension.Signed(MExtension.Compute(Div, x, y)), v); }
  }

  lemma RemainderOf(x: int, y: int, q: int, r: int)
    requires y != 0
    requires if x == -0x8000_0000 && y == -1 then q == x && r == 0
      else q * y + r == x && Abs(r) < Abs(y) && (r == 0 || (r > 0) == (x > 0))
    ensures Remainder(x, y, r)
  {
    Divides(x - r, if y == -1 then r - x else q, y);
  }

  lemma Divides(n: int, q: int, y: int)
    requires y != 0 && n == q * y
    ensures n % Abs(y) == 0
  {
    var k := if y > 0 then q else -q;
    assert n == 0 + Abs(y) * k;
    MExtension.DropMultiple(0, k, Abs(y));
  }

  /** Multiplication and division of registers, rs1 the dividend. */
  lemma ComputesMulDiv(h: Hart, op: MulOp, rd: bv5, rs1: bv5, rs2: bv5, console: Word)
    ensures var e := ExecInstr(h, MulDiv(op, rd, rs1, rs2), console);
      Completes(e, h, rd) && MulDivMeans(op, Reg(h, rs1), Reg(h, rs2), e.value)
  {
    Following(h.pc);
    MulDivLaw(op, Reg(h, rs1), Reg(h, rs2));
  }

  lemma MulDivLaw(op: MulOp, a: Word, b: Word)
    ensures MulDivMeans(op, a, b, MulDivResult(op, a, b))
  {
    var v := MulDivResult(op, a, b);
    ComputedNum(op, a, b);
    if op.Mul? || op.Mulh? || op.Mulhsu? || op.Mulhu? {
      ProductMeans(op, a, b, v);
    } else {
      DivisionMeans(op, a, b, v);
    }
  }

  // ---------------------------------------------------------------------------------------------
  // The rest

  /** Fences and WFI do nothing but write zero to the register a fence names; what is not known stops the simulator. */
  lemma NoEffects(h: Hart, rd: bv5, console: Word)
    ensures Completes(ExecInstr(h, Wfi, console), h, 0)
    ensures var e := ExecInstr(h, Fence(rd), console); Completes(e, h, rd) && Unsigned(e.value) == 0
    ensures ExecInstr(h, Illegal, console) == Stop
  {
    Following(h.pc);
    ZeroNum();
  }

  /** Returns are allowed in their own mode only. */
  lemma Returns(h: Hart, console: Word)
    ensures var e := ExecInstr(h, Mret, console);
      if h.priv == 3 then e.Retire? && e.next == h.mepc && e.rd == 0 else e == Stop
    ensures var e := ExecInstr(h, Sret, console);
      if h.priv == 1 then e.Retire? && e.next == h.sepc && e.rd == 0 else e == Stop
  {
  }

  /** x0 stays zero, and a write to another register changes that one. */
  lemma WriteRegister(h: Hart, rd: bv5, value: Word, r: bv5)
    requires Unsigned(Reg(h, 0)) == 0
    ensures var h' := SetReg(h, rd, value);
      Reg(h', r) == (if r == rd && r != 0 then value else Reg(h, r)) && h' == h.(gpr := h'.gpr)
  {
    assert (r as int) as bv5 == r && (rd as int) as bv5 == rd;
  }
}
