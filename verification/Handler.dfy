// The firmware's trap entry and exit code, run on the simulator: an interrupt is transparent to the
// interrupted program.
module Handler {
  import opened Words
  import opened Isa
  import opened Hart
  import opened Mmu
  import opened Exec
  import opened Privilege
  import opened Traps

  // ---------------------------------------------------------------------------------------------
  // The code

  /** The slot of register r in the frame is word r + 3. */
  function Slot(k: bv32): Word { Word(k << 2) }
  function SlotOf(r: bv5): bv32 { (r as bv32) + 3 }

  /** x31, x30, ..., x1: the order in which the registers are saved. */
  function Down(r: bv5): seq<bv5>
    decreases r
  {
    if r == 0 then [] else [r] + Down(r - 1)
  }

  /** x_r, ..., x31. */
  function Up(r: bv5): seq<bv5>
    decreases 31 - r
  {
    if r == 31 then [31] else [r] + Up(r + 1)
  }

  function SaveReg(r: bv5): Instr { Store(Full, 2, r, Slot(SlotOf(r))) }
  function RestoreReg(r: bv5): Instr { Load(Full, true, r, 2, Slot(SlotOf(r))) }

  function Saves(regs: seq<bv5>): seq<Instr> {
    if regs == [] then [] else [SaveReg(regs[0])] + Saves(regs[1..])
  }

  function Loads(regs: seq<bv5>): seq<Instr> {
    if regs == [] then [] else [RestoreReg(regs[0])] + Loads(regs[1..])
  }

  function ReadCsr(rd: bv5, csr: bv12): Instr { Csr(CsrSet, false, rd, 0, csr) }
  function WriteCsr(csr: bv12, rs1: bv5): Instr { Csr(CsrWrite, false, 0, rs1, csr) }

  /** csrr s0, csr; sw s0, 4k(sp): s0 is x8. */
  function SaveCsrCode(csr: bv12, k: bv32, rest: seq<Instr>): seq<Instr> {
    [ReadCsr(8, csr)] + ([Store(Full, 2, 8, Slot(k))] + rest)
  }

  /** lw s0, 4k(sp); csrw csr, s0 */
  function RestoreCsrCode(csr: bv12, k: bv32, rest: seq<Instr>): seq<Instr> {
    [Load(Full, true, 8, 2, Slot(k))] + ([WriteCsr(csr, 8)] + rest)
  }

  /** From the trap vector to the call of the C handler: sp is x2, a0 is x10, ra is x1. */
  function Prologue(call: Word): seq<Instr> {
    [AluImm(OpAdd, 2, 2, Word(0xFFFF_FF74))] + (Saves(Down(31)) + SaveCsrs(call))
  }

  function SaveCsrs(call: Word): seq<Instr> {
    SaveCsrCode(0x342, 2, SaveCsrCode(0x300, 1, SaveCsrCode(0x341, 0, CallHandler(call))))
  }

  function CallHandler(call: Word): seq<Instr> { [AluImm(OpAdd, 10, 2, Zero())] + [Jal(1, call)] }

  /** From the return of the C handler. */
  function Epilogue(): seq<Instr> {
    [AluImm(OpAdd, 2, 10, Zero())] + RestoreCsrs()
  }

  function RestoreCsrs(): seq<Instr> { RestoreCsrCode(0x341, 0, RestoreCsrCode(0x300, 1, RestoreRegs())) }

  /** All but x0 and sp. */
  function Restored(): seq<bv5> { [1] + Up(3) }

  function RestoreRegs(): seq<Instr> { Loads(Restored()) + ([AluImm(OpAdd, 2, 2, Word(0x8C))] + [Mret]) }

  // ---------------------------------------------------------------------------------------------
  // One instruction, with interrupts disabled in machine mode

  predicate Quiet(h: Hart) { h.priv == 3 && !MieSet(h.mstatus) }

  /** What the entry and exit code works on. */
  datatype Core = Core(gpr: Regs, pc: Word, mem: Memory, mstatus: Word, mepc: Word, mcause: Word)

  function CoreOf(h: Hart): Core { Core(h.gpr, h.pc, h.mem, h.mstatus, h.mepc, h.mcause) }

  function Get(c: Core, r: bv5): Word { c.gpr[RegIndex(r)] }

  function Put(c: Core, r: bv5, x: Word): Core {
    c.(gpr := if r == 0 then c.gpr else c.gpr[RegIndex(r) := x], pc := NextPc(c.pc))
  }

  function WordAt(mem: Memory, a: Word): Word { if Mapped(mem, a) then mem[WordNumber(a)] else Zero() }
  function WithWord(mem: Memory, a: Word, x: Word): Memory { mem[WordNumber(a) := x] }

  function DoRead(c: Core, rd: bv5, name: CsrName): Core {
    match name
    case Mepc => Put(c, rd, c.mepc)
    case Mstatus => Put(c, rd, c.mstatus)
    case Mcause => Put(c, rd, Masked(c.mcause, 0x8000_000F))
    case _ => c
  }

  function DoWrite(c: Core, name: CsrName, x: Word): Core {
    match name
    case Mepc => c.(mepc := x, pc := NextPc(c.pc))
    case Mstatus => c.(mstatus := x, pc := NextPc(c.pc))
    case _ => c
  }

  /** The effect of the instructions the entry and exit code is made of. */
  function Do(c: Core, i: Instr): Core {
    match i
    case AluImm(_, rd, rs1, imm) => Put(c, rd, Add(Get(c, rs1), imm))
    case Load(_, _, rd, rs1, imm) => Put(c, rd, WordAt(c.mem, Add(Get(c, rs1), imm)))
    case Store(_, rs1, rs2, imm) =>
      c.(mem := WithWord(c.mem, Add(Get(c, rs1), imm), Get(c, rs2)), pc := NextPc(c.pc))
    case Csr(op, _, rd, rs1, csr) =>
      if op.CsrSet? then DoRead(c, rd, NameOf(csr)) else DoWrite(c, NameOf(csr), Get(c, rs1))
    case Jal(rd, imm) => Put(c, rd, NextPc(c.pc)).(pc := Add(c.pc, imm))
    case _ => c
  }

  predicate Accessible(mem: Memory, a: Word) { Mapped(mem, a) && Aligned(Full, a) }

  /** The instruction is one of those, and its memory access, if any, is in memory and aligned. */
  predicate Simple(c: Core, i: Instr) {
    match i
    case AluImm(op, _, _, _) => op == OpAdd
    case Load(w, _, _, rs1, imm) => w == Full && Accessible(c.mem, Add(Get(c, rs1), imm))
    case Store(w, rs1, _, imm) => w == Full && Accessible(c.mem, Add(Get(c, rs1), imm))
    case Csr(op, immediate, rd, rs1, csr) =>
      !immediate && SimpleCsr(op, rd, rs1, NameOf(csr))
    case Jal(_, _) => true
    case _ => false
  }

  predicate SimpleCsr(op: CsrOp, rd: bv5, rs1: bv5, name: CsrName) {
    || (op.CsrSet? && rs1 == 0 && (name.Mepc? || name.Mstatus? || name.Mcause?))
    || (op.CsrWrite? && rd == 0 && (name.Mepc? || name.Mstatus?))
  }

  lemma FullWord(word: Word, data: Word, a: Word)
    ensures Extract(word, Full, a) == word && Insert(word, data, Full, a) == data
  {
    FullField(word.bits);
    FullMerge(word.bits, data.bits);
  }

  lemma OrZero(x: Word)
    ensures Or(x, Zero()) == x
  {
  }

  lemma MaskedZero(mask: bv32)
    ensures Masked(Zero(), mask) == Zero()
  {
  }

  /** The effect retires into a quiet hart whose core is c. */
  predicate RetiresTo(e: Effect, c: Core) {
    e.Retire? && e.h.priv == 3 && CoreOf(SetReg(e.h, e.rd, e.value).(pc := e.next)) == c
  }

  lemma FullLoad(mem: Memory, a: Word, sext: bool)
    requires Accessible(mem, a)
    ensures LoadMem(mem, a, Full, sext) == Loaded(WordAt(mem, a))
  {
    FullWord(mem[WordNumber(a)], Zero(), a);
  }

  lemma FullStore(mem: Memory, a: Word, x: Word)
    requires Accessible(mem, a)
    ensures StoreMem(mem, a, x, Full) == Stored(WithWord(mem, a, x))
  {
    FullWord(mem[WordNumber(a)], x, a);
  }

  lemma LoadEffect(h: Hart, i: Instr, a: Word)
    requires h.priv == 3 && i.Load? && Simple(CoreOf(h), i) && a == Add(Reg(h, i.rs1), i.imm)
    ensures RetiresTo(ExecLoad(h, i), Do(CoreOf(h), i))
  {
    FullLoad(h.mem, a, i.sext);
    assert ExecLoad(h, i) == Retire(h, i.rd, WordAt(h.mem, a), NextPc(h.pc));
  }

  lemma StoreEffect(h: Hart, i: Instr, a: Word)
    requires h.priv == 3 && i.Store? && Simple(CoreOf(h), i) && a == Add(Reg(h, i.rs1), i.imm)
    ensures RetiresTo(ExecStore(h, i), Do(CoreOf(h), i))
  {
    FullStore(h.mem, a, Reg(h, i.rs2));
  }

  lemma CsrReadEffect(h: Hart, rd: bv5, name: CsrName, console: Word)
    requires name.Mepc? || name.Mstatus? || name.Mcause?
    ensures AccessCsr(h, name, Zero(), CsrSet, console) ==
      (match name
       case Mepc => CsrResult(h, h.mepc)
       case Mstatus => CsrResult(h, h.mstatus)
       case _ => CsrResult(h, Masked(h.mcause, 0x8000_000F)))
  {
    OrZero(h.mepc);
    OrZero(h.mstatus);
    OrZero(h.mcause);
    MaskedZero(0x8000_000F);
  }

  lemma CsrEffect(h: Hart, i: Instr, console: Word, name: CsrName)
    requires h.priv == 3 && i.Csr? && Simple(CoreOf(h), i) && Reg(h, 0) == Zero() && name == NameOf(i.csr)
    ensures RetiresTo(ExecCsr(h, i, console), Do(CoreOf(h), i))
  {
    if i.cop.CsrSet? {
      CsrReadEffect(h, i.rd, name, console);
    }
  }

  lemma SimpleEffect(h: Hart, i: Instr, console: Word, e: Effect)
    requires h.priv == 3 && Simple(CoreOf(h), i) && Reg(h, 0) == Zero() && e == ExecInstr(h, i, console)
    ensures RetiresTo(e, Do(CoreOf(h), i))
  {
    if i.Load? {
      LoadEffect(h, i, Add(Reg(h, i.rs1), i.imm));
    } else if i.Store? {
      StoreEffect(h, i, Add(Reg(h, i.rs1), i.imm));
    } else if i.Csr? {
      CsrEffect(h, i, console, NameOf(i.csr));
    }
  }

  lemma QuietFirstIrq()
    ensures FirstIrq(Zero(), 1) == 12
  {
    FirstIsLowest(Zero(), 1);
    NoBitOfZero(FirstIrq(Zero(), 1));
  }

  lemma NoInterruptWhenQuiet(h: Hart, next: Word)
    requires Quiet(h)
    ensures TakeInterrupts(h, next) == h.(pc := next)
  {
    QuietFirstIrq();
    assert Interrupts(h) == Zero();
  }

  lemma QuietFinish(e: Effect, c: Core, o: Outcome)
    requires RetiresTo(e, c) && !MieSet(c.mstatus) && o == Finish(e)
    ensures o.Running? && o.hart.priv == 3 && CoreOf(o.hart) == c
  {
    NoInterruptWhenQuiet(SetReg(e.h, e.rd, e.value), e.next);
  }

  predicate InstrAt(c: Core, i: Instr) {
    Accessible(c.mem, c.pc) && Decode(c.mem[WordNumber(c.pc)].bits) == i
  }

  /** With interrupts disabled, whatever arrives, one step of the simulator is the instruction. */
  lemma QuietStep(h: Hart, input: Input, i: Instr, o: Outcome)
    requires h.priv == 3 && InstrAt(CoreOf(h), i) && Simple(CoreOf(h), i) && Reg(h, 0) == Zero()
    requires !MieSet(Do(CoreOf(h), i).mstatus) && o == StepWith(h, input)
    ensures o.Running? && o.hart.priv == 3 && CoreOf(o.hart) == Do(CoreOf(h), i)
  {
    var start := RaiseExternal(h, input.irq);
    assert CoreOf(start) == CoreOf(h);
    StepIsFinish(start, input.console, start.pc);
    var e := ExecInstr(start, i, input.console);
    SimpleEffect(start, i, input.console, e);
    QuietFinish(e, Do(CoreOf(h), i), o);
  }

  // ---------------------------------------------------------------------------------------------
  // Straight-line code

  /** The code up to its end or its MRET. */
  function DoAll(c: Core, prog: seq<Instr>): Core
    decreases |prog|
  {
    if Over(prog) then c else DoAll(Do(c, prog[0]), prog[1..])
  }

  predicate Over(prog: seq<Instr>) { prog == [] || prog[0] == Mret }

  function Steps(prog: seq<Instr>): nat
    decreases |prog|
  {
    if Over(prog) then 0 else 1 + Steps(prog[1..])
  }

  /** Every instruction of prog is there when its turn comes, and can run. */
  predicate Runs(c: Core, prog: seq<Instr>)
    decreases |prog|
  {
    Over(prog) || (CanRun(c, prog[0]) && Runs(Do(c, prog[0]), prog[1..]))
  }

  predicate CanRun(c: Core, i: Instr) {
    InstrAt(c, i) && Simple(c, i) && Get(c, 0) == Zero() && !MieSet(Do(c, i).mstatus)
  }

  /** The simulator runs the code, whatever external interrupts arrive meanwhile. */
  lemma {:induction false} ProgramRuns(h: Hart, inputs: seq<Input>, prog: seq<Instr>, o: Outcome)
    requires h.priv == 3 && Runs(CoreOf(h), prog) && |inputs| == Steps(prog) && o == Run(h, inputs)
    ensures o.Running? && o.hart.priv == 3 && CoreOf(o.hart) == DoAll(CoreOf(h), prog)
    decreases |prog|
  {
    if !Over(prog) {
      var first := StepWith(h, inputs[0]);
      QuietStep(h, inputs[0], prog[0], first);
      ProgramRuns(first.hart, inputs[1..], prog[1..], o);
    }
  }

  // The frame below the stack pointer: 35 words at `base`.

  function SlotAddr(base: Word, k: bv32): Word { Add(base, Slot(k)) }

  ghost predicate FrameOk(mem: Memory, base: Word) {
    Aligned(Full, base) && forall k: bv32 :: k < 35 ==> Accessible(mem, SlotAddr(base, k))
  }

  ghost predicate InFrame(base: Word, w: Word) { exists k: bv32 :: k < 35 && w == WordNumber(SlotAddr(base, k)) }

  predicate CodeAt(mem: Memory, pc: Word, prog: seq<Instr>)
    decreases |prog|
  {
    prog == [] ||
    (Accessible(mem, pc) && Decode(mem[WordNumber(pc)].bits) == prog[0] && CodeAt(mem, NextPc(pc), prog[1..]))
  }

  /** None of the n words of code at pc is in the frame. */
  ghost predicate CodeOutside(base: Word, pc: Word, n: nat)
    decreases n
  {
    n == 0 || (!InFrame(base, WordNumber(pc)) && CodeOutside(base, NextPc(pc), n - 1))
  }

  lemma {:induction false} CodeKept(mem: Memory, base: Word, k: bv32, x: Word, pc: Word, prog: seq<Instr>)
    requires CodeAt(mem, pc, prog) && CodeOutside(base, pc, |prog|) && k < 35
    ensures CodeAt(WithWord(mem, SlotAddr(base, k), x), pc, prog)
    decreases |prog|
  {
    if prog != [] {
      assert WordNumber(pc) != WordNumber(SlotAddr(base, k));
      CodeKept(mem, base, k, x, NextPc(pc), prog[1..]);
    }
  }

  lemma SlotBits(base: bv32, j: bv32, k: bv32)
    requires base & 3 == 0 && j < 35 && k < 35 && j != k
    ensures (base + (j << 2)) >> 2 != (base + (k << 2)) >> 2
  {
  }

  lemma SlotsDiffer(base: Word, j: bv32, k: bv32)
    requires Aligned(Full, base) && j < 35 && k < 35 && j != k
    ensures WordNumber(SlotAddr(base, j)) != WordNumber(SlotAddr(base, k))
  {
    SlotBits(base.bits, j, k);
  }

  /** The code is next to run, the frame is usable, and the code is not in the frame. */
  ghost predicate Ready(c: Core, base: Word, prog: seq<Instr>) {
    && Get(c, 0) == Zero() && !MieSet(c.mstatus) && FrameOk(c.mem, base)
    && CodeAt(c.mem, c.pc, prog) && CodeOutside(base, c.pc, |prog|)
  }

  lemma StoreDoes(c: Core, base: Word, k: bv32, rs2: bv5)
    requires Get(c, 2) == base
    ensures Do(c, Store(Full, 2, rs2, Slot(k))) ==
      c.(mem := WithWord(c.mem, SlotAddr(base, k), Get(c, rs2)), pc := NextPc(c.pc))
  {
  }

  lemma FrameKept(mem: Memory, base: Word, k: bv32, x: Word)
    requires FrameOk(mem, base) && k < 35
    ensures FrameOk(WithWord(mem, SlotAddr(base, k), x), base)
  {
    assert Accessible(mem, SlotAddr(base, k));
  }

  lemma StoreReady(c: Core, base: Word, k: bv32, rs2: bv5, prog: seq<Instr>, c1: Core)
    requires Ready(c, base, prog) && prog != [] && prog[0] == Store(Full, 2, rs2, Slot(k)) && Get(c, 2) == base
      && k < 35
    requires c1 == c.(mem := WithWord(c.mem, SlotAddr(base, k), Get(c, rs2)), pc := NextPc(c.pc))
    ensures CanRun(c, prog[0]) && Do(c, prog[0]) == c1 && Ready(c1, base, prog[1..])
  {
    assert Accessible(c.mem, SlotAddr(base, k));
    StoreDoes(c, base, k, rs2);
    FrameKept(c.mem, base, k, Get(c, rs2));
    CodeKept(c.mem, base, k, Get(c, rs2), NextPc(c.pc), prog[1..]);
  }

  /** Instructions that leave memory alone. */
  lemma OtherReady(c: Core, base: Word, prog: seq<Instr>, c': Core)
    requires Ready(c, base, prog) && prog != [] && Simple(c, prog[0]) && !prog[0].Store? && !prog[0].Jal?
    requires c' == Do(c, prog[0]) && c'.mem == c.mem && c'.pc == NextPc(c.pc)
    requires !MieSet(c'.mstatus) && Get(c', 0) == Zero()
    ensures CanRun(c, prog[0]) && Ready(c', base, prog[1..])
  {
  }

  // Saving the registers

  function SaveAll(mem: Memory, base: Word, gpr: Regs, regs: seq<bv5>): Memory
    decreases |regs|
  {
    if regs == [] then mem
    else SaveAll(WithWord(mem, SlotAddr(base, SlotOf(regs[0])), gpr[RegIndex(regs[0])]), base, gpr, regs[1..])
  }

  function Skip(pc: Word, n: nat): Word
    decreases n
  {
    if n == 0 then pc else Skip(NextPc(pc), n - 1)
  }

  lemma SlotInFrame(r: bv5)
    ensures SlotOf(r) < 35
  {
  }

  /** Running prog from c comes down to running rest, its tail, from c', and c' is ready for it. */
  ghost predicate Leads(c: Core, base: Word, prog: seq<Instr>, c': Core, rest: seq<Instr>) {
    && DoAll(c, prog) == DoAll(c', rest) && (Runs(c', rest) ==> Runs(c, prog)) && Ready(c', base, rest)
    && Skip(c.pc, |prog|) == Skip(c'.pc, |rest|)
  }

  lemma FirstDone(c: Core, prog: seq<Instr>, c1: Core)
    requires prog != [] && CanRun(c, prog[0]) && c1 == Do(c, prog[0]) && c1.pc == NextPc(c.pc)
    ensures DoAll(c, prog) == DoAll(c1, prog[1..]) && (Runs(c1, prog[1..]) ==> Runs(c, prog))
    ensures Skip(c.pc, |prog|) == Skip(c1.pc, |prog[1..]|)
  {
    NotMret(c, prog[0]);
    SkipOne(c.pc, |prog|);
  }

  lemma NotMret(c: Core, i: Instr)
    requires CanRun(c, i)
    ensures i != Mret
  {
  }

  lemma SkipOne(pc: Word, n: nat)
    requires n > 0
    ensures Skip(pc, n) == Skip(NextPc(pc), n - 1)
  {
  }

  lemma LeadsStep(c: Core, base: Word, prog: seq<Instr>, c1: Core, c': Core, rest: seq<Instr>)
    requires prog != [] && CanRun(c, prog[0]) && c1 == Do(c, prog[0]) && c1.pc == NextPc(c.pc)
    requires Leads(c1, base, prog[1..], c', rest)
    ensures Leads(c, base, prog, c', rest)
  {
    FirstDone(c, prog, c1);
  }

  lemma Cons<T>(x: T, a: seq<T>, b: seq<T>)
    ensures ([x] + a)[0] == x && ([x] + a)[1..] == a
    ensures ([x] + a + b)[0] == x && ([x] + a + b)[1..] == a + b
  {
  }

  lemma SavesSplit(regs: seq<bv5>, rest: seq<Instr>)
    requires regs != []
    ensures var first := SaveReg(regs[0]);
      && Saves(regs)[0] == first && Saves(regs)[1..] == Saves(regs[1..])
      && (Saves(regs) + rest)[0] == first && (Saves(regs) + rest)[1..] == Saves(regs[1..]) + rest
  {
    Cons(SaveReg(regs[0]), Saves(regs[1..]), rest);
  }

  lemma SaveAllStep(c: Core, base: Word, regs: seq<bv5>, c1: Core, c': Core)
    requires regs != []
    requires c1 == c.(mem := WithWord(c.mem, SlotAddr(base, SlotOf(regs[0])), Get(c, regs[0])), pc := NextPc(c.pc))
    requires c' == c.(mem := SaveAll(c.mem, base, c.gpr, regs), pc := Skip(c.pc, |regs|))
    ensures c' == c1.(mem := SaveAll(c1.mem, base, c1.gpr, regs[1..]), pc := Skip(c1.pc, |regs[1..]|))
  {
  }

  lemma {:induction false} SavesRun(c: Core, base: Word, regs: seq<bv5>, prog: seq<Instr>, rest: seq<Instr>, c': Core)
    requires prog == Saves(regs) + rest && Ready(c, base, prog) && Get(c, 2) == base
    requires c' == c.(mem := SaveAll(c.mem, base, c.gpr, regs), pc := Skip(c.pc, |regs|))
    ensures Leads(c, base, prog, c', rest)
    decreases |regs|
  {
    if regs == [] {
      assert prog == rest;
    } else {
      var k := SlotOf(regs[0]);
      SlotInFrame(regs[0]);
      SavesSplit(regs, rest);
      var c1 := c.(mem := WithWord(c.mem, SlotAddr(base, k), Get(c, regs[0])), pc := NextPc(c.pc));
      StoreReady(c, base, k, regs[0], prog, c1);
      SaveAllStep(c, base, regs, c1, c');
      SavesRun(c1, base, regs[1..], prog[1..], rest, c');
      LeadsStep(c, base, prog, c1, c', rest);
    }
  }

  lemma SlotsOfRegs(base: Word, r: bv5, s: bv5)
    requires Aligned(Full, base) && r != s
    ensures WordNumber(SlotAddr(base, SlotOf(r))) != WordNumber(SlotAddr(base, SlotOf(s)))
  {
    SlotInFrame(r);
    SlotInFrame(s);
    SlotOfDiffers(r, s);
    SlotsDiffer(base, SlotOf(r), SlotOf(s));
  }

  lemma SlotOfDiffers(r: bv5, s: bv5)
    requires r != s
    ensures SlotOf(r) != SlotOf(s)
  {
  }

  /** Where each saved register is found. */
  lemma {:induction false} SaveAllAt(mem: Memory, base: Word, gpr: Regs, regs: seq<bv5>, r: bv5)
    requires FrameOk(mem, base)
    ensures var m := SaveAll(mem, base, gpr, regs);
      && m.Keys == mem.Keys
      && WordAt(m, SlotAddr(base, SlotOf(r))) ==
          if r in regs then gpr[RegIndex(r)] else WordAt(mem, SlotAddr(base, SlotOf(r)))
    decreases |regs|
  {
    if regs != [] {
      var s := regs[0];
      SlotInFrame(s);
      SlotInFrame(r);
      var mem' := WithWord(mem, SlotAddr(base, SlotOf(s)), gpr[RegIndex(s)]);
      assert Accessible(mem, SlotAddr(base, SlotOf(s)));
      assert mem'.Keys == mem.Keys;
      if r != s { SlotsOfRegs(base, r, s); }
      SaveAllAt(mem', base, gpr, regs[1..], r);
      assert r in regs <==> r == s || r in regs[1..];
    }
  }

  lemma LowSlot(r: bv5)
    ensures SlotOf(r) >= 3
  {
  }

  // Restoring the registers

  function LoadAll(gpr: Regs, mem: Memory, base: Word, regs: seq<bv5>): Regs
    decreases |regs|
  {
    if regs == [] then gpr
    else LoadAll(gpr[RegIndex(regs[0]) := WordAt(mem, SlotAddr(base, SlotOf(regs[0])))], mem, base, regs[1..])
  }

  lemma RegIndexDiffers(r: bv5, s: bv5)
    requires r != s
    ensures RegIndex(r) != RegIndex(s)
  {
    assert (r as int) as bv5 == r && (s as int) as bv5 == s;
  }

  lemma LoadReady(c: Core, base: Word, k: bv32, rd: bv5, prog: seq<Instr>, c1: Core)
    requires Ready(c, base, prog) && prog != [] && prog[0] == Load(Full, true, rd, 2, Slot(k)) && Get(c, 2) == base
      && k < 35
    requires rd != 0 && c1 == Put(c, rd, WordAt(c.mem, SlotAddr(base, k)))
    ensures CanRun(c, prog[0]) && Do(c, prog[0]) == c1 && Ready(c1, base, prog[1..]) && (rd != 2 ==> Get(c1, 2) == base)
  {
    RegIndexDiffers(rd, 0);
    if rd != 2 { RegIndexDiffers(rd, 2); }
    assert Accessible(c.mem, SlotAddr(base, k));
    OtherReady(c, base, prog, c1);
  }

  lemma LoadsSplit(regs: seq<bv5>, rest: seq<Instr>)
    requires regs != []
    ensures var first := RestoreReg(regs[0]);
      && Loads(regs)[0] == first && Loads(regs)[1..] == Loads(regs[1..])
      && (Loads(regs) + rest)[0] == first && (Loads(regs) + rest)[1..] == Loads(regs[1..]) + rest
  {
    Cons(RestoreReg(regs[0]), Loads(regs[1..]), rest);
  }

  lemma LoadAllStep(c: Core, base: Word, regs: seq<bv5>, c1: Core, c': Core)
    requires regs != [] && regs[0] != 0
    requires c1 == Put(c, regs[0], WordAt(c.mem, SlotAddr(base, SlotOf(regs[0]))))
    requires c' == c.(gpr := LoadAll(c.gpr, c.mem, base, regs), pc := Skip(c.pc, |regs|))
    ensures c' == c1.(gpr := LoadAll(c1.gpr, c1.mem, base, regs[1..]), pc := Skip(c1.pc, |regs[1..]|))
  {
  }

  lemma {:induction false} LoadsRun(c: Core, base: Word, regs: seq<bv5>, prog: seq<Instr>, rest: seq<Instr>, c': Core)
    requires prog == Loads(regs) + rest && Ready(c, base, prog) && Get(c, 2) == base && 2 !in regs && 0 !in regs
    requires c' == c.(gpr := LoadAll(c.gpr, c.mem, base, regs), pc := Skip(c.pc, |regs|))
    ensures Leads(c, base, prog, c', rest)
    decreases |regs|
  {
    if regs == [] {
      assert prog == rest;
    } else {
      var r := regs[0];
      SlotInFrame(r);
      LoadsSplit(regs, rest);
      var c1 := Put(c, r, WordAt(c.mem, SlotAddr(base, SlotOf(r))));
      LoadReady(c, base, SlotOf(r), r, prog, c1);
      LoadAllStep(c, base, regs, c1, c');
      LoadsRun(c1, base, regs[1..], prog[1..], rest, c');
      LeadsStep(c, base, prog, c1, c', rest);
    }
  }

  lemma {:induction false} LoadAllAt(gpr: Regs, mem: Memory, base: Word, regs: seq<bv5>, r: bv5)
    ensures LoadAll(gpr, mem, base, regs)[RegIndex(r)] ==
      if r in regs then WordAt(mem, SlotAddr(base, SlotOf(r))) else gpr[RegIndex(r)]
    decreases |regs|
  {
    if regs != [] {
      var s := regs[0];
      if r != s { RegIndexDiffers(r, s); }
      LoadAllAt(gpr[RegIndex(s) := WordAt(mem, SlotAddr(base, SlotOf(s)))], mem, base, regs[1..], r);
      assert r in regs <==> r == s || r in regs[1..];
    }
  }

  // The register lists

  lemma {:induction false} InDown(n: bv5, r: bv5)
    ensures r in Down(n) <==> r != 0 && r <= n
    decreases n
  {
    if n != 0 {
      InDown(n - 1, r);
      BelowOrEqual(r, n);
    }
  }

  lemma BelowOrEqual(r: bv5, n: bv5)
    requires n != 0
    ensures r <= n <==> r <= n - 1 || r == n
  {
  }

  lemma {:induction false} InUp(n: bv5, r: bv5)
    ensures r in Up(n) <==> n <= r
    decreases 31 - n
  {
    if n != 31 {
      InUp(n + 1, r);
      AboveOrEqual(r, n);
    }
  }

  lemma AboveOrEqual(r: bv5, n: bv5)
    requires n != 31
    ensures n <= r <==> n + 1 <= r || r == n
  {
  }

  // Saving mcause, mstatus and mepc, and calling the handler

  lemma OtherLeads(c: Core, base: Word, i: Instr, rest: seq<Instr>, c': Core)
    requires Ready(c, base, [i] + rest) && Simple(c, i) && !i.Store? && !i.Jal?
    requires c' == Do(c, i) && c'.mem == c.mem && c'.pc == NextPc(c.pc) && !MieSet(c'.mstatus) && Get(c', 0) == Zero()
    ensures Leads(c, base, [i] + rest, c', rest)
  {
    var prog := [i] + rest;
    assert prog[1..] == rest;
    OtherReady(c, base, prog, c');
    LeadsStep(c, base, prog, c', c', rest);
  }

  lemma StoreLeads(c: Core, base: Word, k: bv32, rs2: bv5, rest: seq<Instr>, c': Core)
    requires Ready(c, base, [Store(Full, 2, rs2, Slot(k))] + rest) && Get(c, 2) == base && k < 35
    requires c' == c.(mem := WithWord(c.mem, SlotAddr(base, k), Get(c, rs2)), pc := NextPc(c.pc))
    ensures Leads(c, base, [Store(Full, 2, rs2, Slot(k))] + rest, c', rest)
  {
    var prog := [Store(Full, 2, rs2, Slot(k))] + rest;
    assert prog[1..] == rest;
    StoreReady(c, base, k, rs2, prog, c');
    LeadsStep(c, base, prog, c', c', rest);
  }

  lemma LeadsJoin(c: Core, base: Word, prog: seq<Instr>, c1: Core, rest1: seq<Instr>, c2: Core, rest2: seq<Instr>)
    requires Leads(c, base, prog, c1, rest1) && Leads(c1, base, rest1, c2, rest2)
    ensures Leads(c, base, prog, c2, rest2)
  {
  }

  /** csrr s0, name; sw s0, 4k(sp) */
  function CsrSaved(c: Core, base: Word, k: bv32, value: Word): Core {
    Put(c, 8, value).(mem := WithWord(c.mem, SlotAddr(base, k), value), pc := NextPc(NextPc(c.pc)))
  }

  lemma SaveCsr(c: Core, base: Word, csr: bv12, k: bv32, value: Word, rest: seq<Instr>, c2: Core)
    requires Ready(c, base, SaveCsrCode(csr, k, rest)) && Get(c, 2) == base && k < 35
    requires SimpleCsr(CsrSet, 8, 0, NameOf(csr))
    requires DoRead(c, 8, NameOf(csr)) == Put(c, 8, value) && c2 == CsrSaved(c, base, k, value)
    ensures Leads(c, base, SaveCsrCode(csr, k, rest), c2, rest) && Get(c2, 2) == base
  {
    RegIndexDiffers(8, 0);
    RegIndexDiffers(8, 2);
    var store := [Store(Full, 2, 8, Slot(k))] + rest;
    var c1 := Put(c, 8, value);
    OtherLeads(c, base, ReadCsr(8, csr), store, c1);
    StoreLeads(c1, base, k, 8, rest, c2);
    LeadsJoin(c, base, SaveCsrCode(csr, k, rest), c1, store, c2, rest);
  }

  function CsrsSaved(c: Core, base: Word): Core {
    var c1 := CsrSaved(c, base, 2, Masked(c.mcause, 0x8000_000F));
    var c2 := CsrSaved(c1, base, 1, c1.mstatus);
    CsrSaved(c2, base, 0, c2.mepc)
  }

  lemma SaveCause(c: Core, base: Word, rest: seq<Instr>, c': Core)
    requires Ready(c, base, SaveCsrCode(0x342, 2, rest)) && Get(c, 2) == base
    requires c' == CsrSaved(c, base, 2, Masked(c.mcause, 0x8000_000F))
    ensures Leads(c, base, SaveCsrCode(0x342, 2, rest), c', rest) && Get(c', 2) == base
  {
    SaveCsr(c, base, 0x342, 2, Masked(c.mcause, 0x8000_000F), rest, c');
  }

  lemma SaveStatus(c: Core, base: Word, rest: seq<Instr>, c': Core)
    requires Ready(c, base, SaveCsrCode(0x300, 1, rest)) && Get(c, 2) == base && c' == CsrSaved(c, base, 1, c.mstatus)
    ensures Leads(c, base, SaveCsrCode(0x300, 1, rest), c', rest) && Get(c', 2) == base
  {
    SaveCsr(c, base, 0x300, 1, c.mstatus, rest, c');
  }

  lemma SaveEpc(c: Core, base: Word, rest: seq<Instr>, c': Core)
    requires Ready(c, base, SaveCsrCode(0x341, 0, rest)) && Get(c, 2) == base && c' == CsrSaved(c, base, 0, c.mepc)
    ensures Leads(c, base, SaveCsrCode(0x341, 0, rest), c', rest) && Get(c', 2) == base
  {
    SaveCsr(c, base, 0x341, 0, c.mepc, rest, c');
  }

  lemma SaveCsrsLead(c: Core, base: Word, call: Word, c1: Core, c2: Core, c3: Core)
    requires Ready(c, base, SaveCsrs(call)) && Get(c, 2) == base
    requires c1 == CsrSaved(c, base, 2, Masked(c.mcause, 0x8000_000F))
    requires c2 == CsrSaved(c1, base, 1, c1.mstatus)
    requires c3 == CsrSaved(c2, base, 0, c2.mepc)
    ensures Leads(c, base, SaveCsrs(call), c3, CallHandler(call)) && Get(c3, 2) == base
  {
    var rest2 := SaveCsrCode(0x341, 0, CallHandler(call));
    var rest1 := SaveCsrCode(0x300, 1, rest2);
    SaveCause(c, base, rest1, c1);
    SaveStatus(c1, base, rest2, c2);
    SaveEpc(c2, base, CallHandler(call), c3);
    LeadsJoin(c, base, SaveCsrs(call), c1, rest1, c2, rest2);
    LeadsJoin(c, base, SaveCsrs(call), c2, rest2, c3, CallHandler(call));
  }

  lemma AddZero(x: Word)
    ensures Add(x, Zero()) == x
  {
  }

  /** Where the call of the C handler is reached. */
  function AtCall(c: Core, base: Word): Core {
    var c1 := Put(c, 2, base);
    var c2 := c1.(mem := SaveAll(c1.mem, base, c1.gpr, Down(31)), pc := Skip(c1.pc, |Down(31)|));
    Put(CsrsSaved(c2, base), 10, base)
  }

  lemma CallLeads(c: Core, base: Word, call: Word)
    requires Ready(c, base, CallHandler(call)) && Get(c, 2) == base
    ensures Leads(c, base, CallHandler(call), Put(c, 10, base), [Jal(1, call)])
  {
    AddZero(base);
    RegIndexDiffers(10, 0);
    OtherLeads(c, base, AluImm(OpAdd, 10, 2, Zero()), [Jal(1, call)], Put(c, 10, base));
  }

  lemma PrologueLeads(c: Core, base: Word, call: Word)
    requires Ready(c, base, Prologue(call)) && base == Add(Get(c, 2), Word(0xFFFF_FF74))
    ensures Leads(c, base, Prologue(call), AtCall(c, base), [Jal(1, call)])
  {
    RegIndexDiffers(2, 0);
    var c1 := Put(c, 2, base);
    var saves := Saves(Down(31)) + SaveCsrs(call);
    OtherLeads(c, base, AluImm(OpAdd, 2, 2, Word(0xFFFF_FF74)), saves, c1);
    var c2 := c1.(mem := SaveAll(c1.mem, base, c1.gpr, Down(31)), pc := Skip(c1.pc, |Down(31)|));
    SavesRun(c1, base, Down(31), saves, SaveCsrs(call), c2);
    var c3 := CsrSaved(c2, base, 2, Masked(c2.mcause, 0x8000_000F));
    SaveCsrsLead(c2, base, call, c3, CsrSaved(c3, base, 1, c3.mstatus), CsrsSaved(c2, base));
    CallLeads(CsrsSaved(c2, base), base, call);
    LeadsJoin(c, base, Prologue(call), c1, saves, c2, SaveCsrs(call));
    LeadsJoin(c, base, Prologue(call), c2, SaveCsrs(call), CsrsSaved(c2, base), CallHandler(call));
    LeadsJoin(c, base, Prologue(call), CsrsSaved(c2, base), CallHandler(call), AtCall(c, base), [Jal(1, call)]);
  }

  lemma JumpEnds(c: Core, base: Word, prog: seq<Instr>, c': Core, jump: Instr)
    requires Leads(c, base, prog, c', [jump]) && jump.Jal? && Get(Do(c', jump), 0) == Zero()
    ensures Runs(c, prog) && DoAll(c, prog) == Do(c', jump) && Skip(c.pc, |prog|) == NextPc(c'.pc)
  {
    var last := [jump];
    assert last[1..] == [] && Skip(c'.pc, 1) == Skip(NextPc(c'.pc), 0);
    assert CanRun(c', last[0]);
    assert Runs(Do(c', jump), []) && DoAll(Do(c', jump), []) == Do(c', jump);
    assert Runs(c', last) && DoAll(c', last) == Do(c', jump);
  }

  /** The entry code as a whole, up to the first instruction of the C handler. */
  lemma PrologueRuns(c: Core, base: Word, call: Word, e: Core)
    requires Ready(c, base, Prologue(call)) && base == Add(Get(c, 2), Word(0xFFFF_FF74)) && e == AtCall(c, base)
    ensures Runs(c, Prologue(call)) && DoAll(c, Prologue(call)) == Do(e, Jal(1, call))
    ensures Skip(c.pc, |Prologue(call)|) == NextPc(e.pc)
  {
    PrologueLeads(c, base, call);
    CallThenJump(c, base, Prologue(call), e, call);
  }

  lemma CallThenJump(c: Core, base: Word, prog: seq<Instr>, e: Core, call: Word)
    requires Leads(c, base, prog, e, [Jal(1, call)])
    ensures Runs(c, prog) && DoAll(c, prog) == Do(e, Jal(1, call)) && Skip(c.pc, |prog|) == NextPc(e.pc)
  {
    RegIndexDiffers(1, 0);
    JumpEnds(c, base, prog, e, Jal(1, call));
  }

  // ---------------------------------------------------------------------------------------------
  // What the frame holds

  function FrameMem(mem: Memory, base: Word, gpr: Regs, cause: Word, status: Word, epc: Word): Memory {
    var m := SaveAll(mem, base, gpr, Down(31));
    WithWord(WithWord(WithWord(m, SlotAddr(base, 2), cause), SlotAddr(base, 1), status), SlotAddr(base, 0), epc)
  }

  /** What trap entry and the entry code record of the interrupted program. */
  datatype Context = Context(gpr: Regs, cause: Word, status: Word, epc: Word)

  ghost predicate FrameIs(m: Memory, base: Word, x: Context) {
    && FrameOk(m, base)
    && WordAt(m, SlotAddr(base, 0)) == x.epc && WordAt(m, SlotAddr(base, 1)) == x.status
    && WordAt(m, SlotAddr(base, 2)) == x.cause
    && forall r: bv5 :: r != 0 ==> WordAt(m, SlotAddr(base, SlotOf(r))) == x.gpr[RegIndex(r)]
  }

  ghost predicate OnlyFrameChanged(before: Memory, m: Memory, base: Word) {
    m.Keys == before.Keys && forall w: Word :: w in before && !InFrame(base, w) ==> m[w] == before[w]
  }

  lemma WithSlotOther(mem: Memory, base: Word, k: bv32, x: Word, j: bv32)
    requires FrameOk(mem, base) && k < 35 && j < 35
    ensures WordAt(WithWord(mem, SlotAddr(base, k), x), SlotAddr(base, j)) ==
      if j == k then x else WordAt(mem, SlotAddr(base, j))
  {
    assert Accessible(mem, SlotAddr(base, j));
    if j != k { SlotsDiffer(base, j, k); }
  }

  lemma WithSlotOutside(mem: Memory, base: Word, k: bv32, x: Word)
    requires FrameOk(mem, base) && k < 35
    ensures var m := WithWord(mem, SlotAddr(base, k), x);
      FrameOk(m, base) && OnlyFrameChanged(mem, m, base)
  {
    FrameKept(mem, base, k, x);
    assert Accessible(mem, SlotAddr(base, k));
    assert InFrame(base, WordNumber(SlotAddr(base, k)));
  }

  lemma {:induction false} SaveAllOutside(mem: Memory, base: Word, gpr: Regs, regs: seq<bv5>, m: Memory)
    requires FrameOk(mem, base) && m == SaveAll(mem, base, gpr, regs)
    ensures FrameOk(m, base) && OnlyFrameChanged(mem, m, base)
    decreases |regs|
  {
    if regs != [] {
      SlotInFrame(regs[0]);
      WithSlotOutside(mem, base, SlotOf(regs[0]), gpr[RegIndex(regs[0])]);
      SaveAllOutside(WithWord(mem, SlotAddr(base, SlotOf(regs[0])), gpr[RegIndex(regs[0])]), base, gpr, regs[1..], m);
    }
  }

  lemma FrameSlot(mem: Memory, base: Word, gpr: Regs, cause: Word, status: Word, epc: Word, j: bv32, m: Memory)
    requires FrameOk(mem, base) && j < 35 && m == FrameMem(mem, base, gpr, cause, status, epc)
    ensures WordAt(m, SlotAddr(base, j)) ==
      if j == 0 then epc else if j == 1 then status else if j == 2 then cause
      else WordAt(SaveAll(mem, base, gpr, Down(31)), SlotAddr(base, j))
    ensures FrameOk(m, base) && OnlyFrameChanged(mem, m, base)
  {
    var m0 := SaveAll(mem, base, gpr, Down(31));
    SaveAllOutside(mem, base, gpr, Down(31), m0);
    LowSlots(m0, base, cause, status, epc, j, m);
    ChangedTwice(mem, m0, m, base);
  }

  lemma ChangedTwice(a: Memory, b: Memory, c: Memory, base: Word)
    requires OnlyFrameChanged(a, b, base) && OnlyFrameChanged(b, c, base)
    ensures OnlyFrameChanged(a, c, base)
  {
  }

  lemma LowSlots(m0: Memory, base: Word, cause: Word, status: Word, epc: Word, j: bv32, m: Memory)
    requires FrameOk(m0, base) && j < 35
    requires var m1 := WithWord(m0, SlotAddr(base, 2), cause);
      m == WithWord(WithWord(m1, SlotAddr(base, 1), status), SlotAddr(base, 0), epc)
    ensures WordAt(m, SlotAddr(base, j)) ==
      if j == 0 then epc else if j == 1 then status else if j == 2 then cause else WordAt(m0, SlotAddr(base, j))
    ensures FrameOk(m, base) && OnlyFrameChanged(m0, m, base)
  {
    var m1 := WithWord(m0, SlotAddr(base, 2), cause);
    WithSlotOutside(m0, base, 2, cause);
    WithSlotOther(m0, base, 2, cause, j);
    var m2 := WithWord(m1, SlotAddr(base, 1), status);
    WithSlotOutside(m1, base, 1, status);
    WithSlotOther(m1, base, 1, status, j);
    WithSlotOutside(m2, base, 0, epc);
    WithSlotOther(m2, base, 0, epc, j);
    ChangedTwice(m0, m1, m2, base);
    ChangedTwice(m0, m2, m, base);
  }

  lemma FrameFilled(mem: Memory, base: Word, gpr: Regs, cause: Word, status: Word, epc: Word, m: Memory)
    requires FrameOk(mem, base) && m == FrameMem(mem, base, gpr, cause, status, epc)
    ensures FrameIs(m, base, Context(gpr, cause, status, epc)) && OnlyFrameChanged(mem, m, base)
  {
    FrameSlot(mem, base, gpr, cause, status, epc, 0, m);
    FrameSlot(mem, base, gpr, cause, status, epc, 1, m);
    FrameSlot(mem, base, gpr, cause, status, epc, 2, m);
    forall r: bv5 | r != 0 ensures WordAt(m, SlotAddr(base, SlotOf(r))) == gpr[RegIndex(r)] {
      SlotInFrame(r);
      LowSlot(r);
      InDown(31, r);
      LastRegister(r);
      SaveAllAt(mem, base, gpr, Down(31), r);
      FrameSlot(mem, base, gpr, cause, status, epc, SlotOf(r), m);
    }
  }

  lemma LastRegister(r: bv5)
    ensures r <= 31
  {
  }

  /** What the entry code saves when it starts from c. */
  function Saved(c: Core, base: Word): Context {
    Context(c.gpr[RegIndex(2) := base], Masked(c.mcause, 0x8000_000F), c.mstatus, c.mepc)
  }

  lemma AtCallState(c: Core, base: Word, c': Core)
    requires FrameOk(c.mem, base) && c' == AtCall(c, base)
    ensures FrameIs(c'.mem, base, Saved(c, base)) && OnlyFrameChanged(c.mem, c'.mem, base)
    ensures Get(c', 10) == base && c'.mstatus == c.mstatus
  {
    var x := Saved(c, base);
    RegIndexDiffers(2, 0);
    assert c'.mem == FrameMem(c.mem, base, x.gpr, x.cause, x.status, x.epc);
    FrameFilled(c.mem, base, x.gpr, x.cause, x.status, x.epc, c'.mem);
  }

  // ---------------------------------------------------------------------------------------------
  // The exit code

  lemma LoadLeads(c: Core, base: Word, k: bv32, rd: bv5, rest: seq<Instr>, c': Core)
    requires Ready(c, base, [Load(Full, true, rd, 2, Slot(k))] + rest) && Get(c, 2) == base && k < 35 && rd != 0
      && rd != 2
    requires c' == Put(c, rd, WordAt(c.mem, SlotAddr(base, k)))
    ensures Leads(c, base, [Load(Full, true, rd, 2, Slot(k))] + rest, c', rest) && Get(c', 2) == base
  {
    var prog := [Load(Full, true, rd, 2, Slot(k))] + rest;
    assert prog[1..] == rest;
    LoadReady(c, base, k, rd, prog, c');
    LeadsStep(c, base, prog, c', c', rest);
  }

  /** lw s0, 4k(sp); csrw csr, s0 */
  lemma RestoreCsr(c: Core, base: Word, csr: bv12, k: bv32, name: CsrName, rest: seq<Instr>, c1: Core, c2: Core)
    requires Ready(c, base, RestoreCsrCode(csr, k, rest)) && Get(c, 2) == base && k < 35
    requires name == NameOf(csr) && SimpleCsr(CsrWrite, 0, 8, name) && c1 == Put(c, 8, WordAt(c.mem, SlotAddr(base, k)))
    requires c2 == DoWrite(c1, name, WordAt(c.mem, SlotAddr(base, k))) && !MieSet(c2.mstatus)
    ensures Leads(c, base, RestoreCsrCode(csr, k, rest), c2, rest) && Get(c2, 2) == base && c2.mem == c.mem
  {
    var write := [WriteCsr(csr, 8)] + rest;
    LoadLeads(c, base, k, 8, write, c1);
    WriteLeads(c1, base, csr, name, rest, c2);
    LeadsJoin(c, base, RestoreCsrCode(csr, k, rest), c1, write, c2, rest);
  }

  lemma WriteLeads(c: Core, base: Word, csr: bv12, name: CsrName, rest: seq<Instr>, c': Core)
    requires Ready(c, base, [WriteCsr(csr, 8)] + rest) && name == NameOf(csr) && SimpleCsr(CsrWrite, 0, 8, name)
    requires c' == DoWrite(c, name, Get(c, 8)) && !MieSet(c'.mstatus)
    ensures Leads(c, base, [WriteCsr(csr, 8)] + rest, c', rest) && c'.gpr == c.gpr && c'.mem == c.mem
  {
    OtherLeads(c, base, WriteCsr(csr, 8), rest, c');
  }

  function Loaded8(c: Core, base: Word, k: bv32): Core { Put(c, 8, WordAt(c.mem, SlotAddr(base, k))) }

  function EpcRestored(c: Core, base: Word, epc: Word): Core { DoWrite(Loaded8(c, base, 0), Mepc, epc) }
  function StatusRestored(c: Core, base: Word, status: Word): Core { DoWrite(Loaded8(c, base, 1), Mstatus, status) }

  lemma RestoreEpc(c: Core, base: Word, epc: Word, rest: seq<Instr>, c': Core)
    requires Ready(c, base, RestoreCsrCode(0x341, 0, rest)) && Get(c, 2) == base
      && epc == WordAt(c.mem, SlotAddr(base, 0))
    requires c' == EpcRestored(c, base, epc)
    ensures Leads(c, base, RestoreCsrCode(0x341, 0, rest), c', rest) && Get(c', 2) == base && c'.mem == c.mem
  {
    RestoreCsr(c, base, 0x341, 0, Mepc, rest, Loaded8(c, base, 0), c');
  }

  lemma RestoreStatus(c: Core, base: Word, status: Word, rest: seq<Instr>, c': Core)
    requires Ready(c, base, RestoreCsrCode(0x300, 1, rest)) && Get(c, 2) == base
      && status == WordAt(c.mem, SlotAddr(base, 1))
    requires c' == StatusRestored(c, base, status) && !MieSet(status)
    ensures Leads(c, base, RestoreCsrCode(0x300, 1, rest), c', rest) && Get(c', 2) == base && c'.mem == c.mem
  {
    RestoreCsr(c, base, 0x300, 1, Mstatus, rest, Loaded8(c, base, 1), c');
  }

  lemma InRestored(r: bv5)
    ensures r in Restored() <==> r != 0 && r != 2
  {
    InUp(3, r);
    NotBelowThree(r);
  }

  lemma NotBelowThree(r: bv5)
    ensures 3 <= r <==> r != 0 && r != 1 && r != 2
  {
  }

  /** The hart at the MRET: it is as the context says. */
  ghost predicate AtReturn(c: Core, base: Word, x: Context) {
    && (forall r: bv5 :: r != 0 && r != 2 ==> Get(c, r) == x.gpr[RegIndex(r)])
    && Get(c, 0) == Zero() && Get(c, 2) == Add(base, Word(0x8C))
    && c.mstatus == x.status && c.mepc == x.epc && InstrAt(c, Mret)
  }

  /** The registers of c, loaded from the frame. */
  function RegsLoaded(c: Core, base: Word): Core {
    c.(gpr := LoadAll(c.gpr, c.mem, base, Restored()), pc := Skip(c.pc, |Restored()|))
  }

  lemma RegLoaded(c: Core, base: Word, x: Context, c1: Core, r: bv5)
    requires FrameIs(c.mem, base, x) && c1 == RegsLoaded(c, base)
    ensures Get(c1, r) == if r != 0 && r != 2 then x.gpr[RegIndex(r)] else Get(c, r)
  {
    InRestored(r);
    LoadAllAt(c.gpr, c.mem, base, Restored(), r);
  }

  lemma RegsLead(c: Core, base: Word, rest: seq<Instr>, c1: Core)
    requires Ready(c, base, Loads(Restored()) + rest) && Get(c, 2) == base && c1 == RegsLoaded(c, base)
    ensures Leads(c, base, Loads(Restored()) + rest, c1, rest)
  {
    InRestored(0);
    InRestored(2);
    LoadsRun(c, base, Restored(), Loads(Restored()) + rest, rest, c1);
  }

  /** After the CSRs: all registers but sp, then sp. */
  lemma RestoreRegsLead(c: Core, base: Word, x: Context, c1: Core, c2: Core)
    requires Ready(c, base, RestoreRegs()) && Get(c, 2) == base && FrameIs(c.mem, base, x)
    requires c1 == RegsLoaded(c, base) && c2 == Put(c1, 2, Add(base, Word(0x8C)))
    ensures Leads(c, base, RestoreRegs(), c2, [Mret])
  {
    var last := [AluImm(OpAdd, 2, 2, Word(0x8C))] + [Mret];
    RegsLead(c, base, last, c1);
    RegLoaded(c, base, x, c1, 2);
    RegIndexDiffers(2, 0);
    OtherLeads(c1, base, AluImm(OpAdd, 2, 2, Word(0x8C)), [Mret], c2);
    LeadsJoin(c, base, RestoreRegs(), c1, last, c2, [Mret]);
  }

  lemma RestoredValues(c: Core, base: Word, x: Context, c1: Core, c2: Core)
    requires FrameIs(c.mem, base, x) && c1 == RegsLoaded(c, base) && c2 == Put(c1, 2, Add(base, Word(0x8C)))
    ensures forall r: bv5 :: r != 0 && r != 2 ==> Get(c2, r) == x.gpr[RegIndex(r)]
    ensures Get(c2, 2) == Add(base, Word(0x8C)) && Get(c2, 0) == Get(c, 0)
  {
    RegLoaded(c, base, x, c1, 0);
    RegIndexDiffers(2, 0);
    forall r: bv5 | r != 0 && r != 2 ensures Get(c2, r) == x.gpr[RegIndex(r)] {
      RegLoaded(c, base, x, c1, r);
      RegIndexDiffers(r, 2);
    }
  }

  lemma MoveSp(c: Core, base: Word, rest: seq<Instr>, c1: Core)
    requires Ready(c, base, [AluImm(OpAdd, 2, 10, Zero())] + rest) && Get(c, 10) == base && c1 == Put(c, 2, base)
    ensures Leads(c, base, [AluImm(OpAdd, 2, 10, Zero())] + rest, c1, rest) && Get(c1, 2) == base
  {
    AddZero(base);
    RegIndexDiffers(2, 0);
    OtherLeads(c, base, AluImm(OpAdd, 2, 10, Zero()), rest, c1);
  }

  lemma RestoreCsrsLead(c: Core, base: Word, epc: Word, status: Word, c2: Core, c3: Core)
    requires Ready(c, base, RestoreCsrs()) && Get(c, 2) == base && !MieSet(status)
    requires epc == WordAt(c.mem, SlotAddr(base, 0)) && status == WordAt(c.mem, SlotAddr(base, 1))
    requires c2 == EpcRestored(c, base, epc) && c3 == StatusRestored(c2, base, status)
    ensures Leads(c, base, RestoreCsrs(), c3, RestoreRegs()) && Get(c3, 2) == base && c3.mem == c.mem
  {
    var rest := RestoreCsrCode(0x300, 1, RestoreRegs());
    RestoreEpc(c, base, epc, rest, c2);
    RestoreStatus(c2, base, status, RestoreRegs(), c3);
    LeadsJoin(c, base, RestoreCsrs(), c2, rest, c3, RestoreRegs());
  }

  lemma RegsRestored(c: Core, base: Word, x: Context, c': Core)
    requires Ready(c, base, RestoreRegs()) && Get(c, 2) == base && FrameIs(c.mem, base, x)
    requires c.mstatus == x.status && c.mepc == x.epc && c' == Put(RegsLoaded(c, base), 2, Add(base, Word(0x8C)))
    ensures Leads(c, base, RestoreRegs(), c', [Mret]) && AtReturn(c', base, x) && c'.mem == c.mem
  {
    RestoreRegsLead(c, base, x, RegsLoaded(c, base), c');
    RestoredValues(c, base, x, RegsLoaded(c, base), c');
  }

  lemma CsrsRestored(c: Core, base: Word, epc: Word, status: Word)
    ensures var c' := StatusRestored(EpcRestored(c, base, epc), base, status); c'.mstatus == status && c'.mepc == epc
  {
  }

  lemma FrameCsrs(m: Memory, base: Word, x: Context)
    requires FrameIs(m, base, x)
    ensures WordAt(m, SlotAddr(base, 0)) == x.epc && WordAt(m, SlotAddr(base, 1)) == x.status
  {
  }

  lemma EndsAtMret(c: Core, base: Word, prog: seq<Instr>, c': Core)
    requires Leads(c, base, prog, c', [Mret])
    ensures Runs(c, prog) && DoAll(c, prog) == c'
  {
  }

  lemma EpilogueToRegs(c: Core, base: Word, epc: Word, status: Word, c1: Core, c2: Core, c3: Core)
    requires Ready(c, base, Epilogue()) && Get(c, 10) == base && !MieSet(status)
    requires epc == WordAt(c.mem, SlotAddr(base, 0)) && status == WordAt(c.mem, SlotAddr(base, 1))
    requires c1 == Put(c, 2, base) && c2 == EpcRestored(c1, base, epc) && c3 == StatusRestored(c2, base, status)
    ensures Leads(c, base, Epilogue(), c3, RestoreRegs()) && Get(c3, 2) == base && c3.mem == c.mem
    ensures c3.mstatus == status && c3.mepc == epc
  {
    CsrsRestored(c1, base, epc, status);
    MoveSp(c, base, RestoreCsrs(), c1);
    RestoreCsrsLead(c1, base, epc, status, c2, c3);
    LeadsJoin(c, base, Epilogue(), c1, RestoreCsrs(), c3, RestoreRegs());
  }

  /** From the first instruction of the exit code with the frame in a0. */
  lemma EpilogueLeads(c: Core, base: Word, x: Context, c3: Core, c': Core)
    requires FrameIs(c.mem, base, x) && Leads(c, base, Epilogue(), c3, RestoreRegs()) && Get(c3, 2) == base
      && c3.mem == c.mem
    requires c3.mstatus == x.status && c3.mepc == x.epc && c' == Put(RegsLoaded(c3, base), 2, Add(base, Word(0x8C)))
    ensures Leads(c, base, Epilogue(), c', [Mret]) && AtReturn(c', base, x) && c'.mem == c.mem
  {
    RegsRestored(c3, base, x, c');
    LeadsJoin(c, base, Epilogue(), c3, RestoreRegs(), c', [Mret]);
  }

  lemma EpilogueRuns(c: Core, base: Word, x: Context) returns (c': Core)
    requires Ready(c, base, Epilogue()) && Get(c, 10) == base && FrameIs(c.mem, base, x) && !MieSet(x.status)
    ensures Runs(c, Epilogue()) && DoAll(c, Epilogue()) == c' && AtReturn(c', base, x) && c'.mem == c.mem
  {
    var c1 := Put(c, 2, base);
    var c2 := EpcRestored(c1, base, x.epc);
    var c3 := StatusRestored(c2, base, x.status);
    c' := Put(RegsLoaded(c3, base), 2, Add(base, Word(0x8C)));
    FrameCsrs(c.mem, base, x);
    EpilogueToRegs(c, base, x.epc, x.status, c1, c2, c3);
    EpilogueLeads(c, base, x, c3, c');
    EndsAtMret(c, base, Epilogue(), c');
  }

  /** The first instruction of the C handler is next; a0 is the frame, ra the code after the call. */
  ghost predicate AtHandler(c: Core, base: Word, x: Context, before: Core, call: Word) {
    && FrameIs(c.mem, base, x) && OnlyFrameChanged(before.mem, c.mem, base)
    && Get(c, 10) == base && Get(c, 1) == Skip(before.pc, |Prologue(call)|) && !MieSet(c.mstatus)
  }

  lemma EntryCode(c: Core, base: Word, call: Word, c': Core)
    requires Ready(c, base, Prologue(call)) && base == Add(Get(c, 2), Word(0xFFFF_FF74))
    requires c' == DoAll(c, Prologue(call))
    ensures Runs(c, Prologue(call)) && AtHandler(c', base, Saved(c, base), c, call)
  {
    var e := AtCall(c, base);
    PrologueRuns(c, base, call, e);
    AtCallState(c, base, e);
    AtHandlerAfterJump(c, base, Saved(c, base), e, call, c');
  }

  lemma AtHandlerAfterJump(c: Core, base: Word, x: Context, e: Core, call: Word, c': Core)
    requires FrameIs(e.mem, base, x) && OnlyFrameChanged(c.mem, e.mem, base)
    requires Get(e, 10) == base && !MieSet(e.mstatus) && Skip(c.pc, |Prologue(call)|) == NextPc(e.pc)
    requires c' == Do(e, Jal(1, call))
    ensures AtHandler(c', base, x, c, call)
  {
    RegIndexDiffers(1, 10);
    RegIndexDiffers(1, 0);
  }
}
