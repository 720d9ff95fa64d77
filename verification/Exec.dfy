// One step of the simulator: fetch, decode, execute, interrupts and the timer.
module Exec {
  import opened Words
  import opened Isa
  import opened Hart
  import opened Mmu
  import MExtension
  import opened Numbers

  // ---------------------------------------------------------------------------------------------
  // Memory accesses

  datatype Loaded = Loaded(value: Word) | LoadHalt
  datatype Stored = Stored(mem: Memory) | StoreHalt

  predicate Aligned(width: Width, address: Word) {
    match width case Byte => true case Half => address.bits & 1 == 0 case Full => address.bits & 3 == 0
  }

  function ByteLane(address: Word): bv32 { (address.bits & 3) << 3 }
  function HalfLane(address: Word): bv32 { if address.bits & 2 != 0 then 16 else 0 }

  /** 8 times the offset of the byte or half-word in its word. */
  function Lane(width: Width, address: Word): bv32 {
    match width case Byte => ByteLane(address) case Half => HalfLane(address) case Full => 0
  }

  function WidthMask(width: Width): bv32 { match width case Byte => 0xFF case Half => 0xFFFF case Full => 0xFFFF_FFFF }

  function ShiftDown(word: bv32, lane: bv32): bv32 { if lane <= 32 then word >> lane else 0 }
  function ShiftUp(word: bv32, lane: bv32): bv32 { if lane <= 32 then word << lane else 0 }

  function Field(word: bv32, mask: bv32, lane: bv32): bv32 { ShiftDown(word, lane) & mask }

  function WithField(word: bv32, data: bv32, mask: bv32, lane: bv32): bv32 {
    (word & !ShiftUp(mask, lane)) | ShiftUp(data & mask, lane)
  }

  function Extract(word: Word, width: Width, address: Word): Word {
    Word(Field(word.bits, WidthMask(width), Lane(width, address)))
  }

  function SignExtend(x: Word, width: Width): Word {
    match width
    case Byte => if x.bits & 0x80 != 0 then Word(x.bits | 0xFFFF_FF00) else x
    case Half => if x.bits & 0x8000 != 0 then Word(x.bits | 0xFFFF_0000) else x
    case Full => x
  }

  function Insert(word: Word, data: Word, width: Width, address: Word): Word {
    Word(WithField(word.bits, data.bits, WidthMask(width), Lane(width, address)))
  }

  lemma FullField(w: bv32)
    ensures Field(w, 0xFFFF_FFFF, 0) == w
  {
  }

  lemma FullMerge(w: bv32, d: bv32)
    ensures WithField(w, d, 0xFFFF_FFFF, 0) == d
  {
  }

  /** A load at a physical address. An unmapped or misaligned access ends the simulation. */
  function LoadMem(mem: Memory, pa: Word, width: Width, sext: bool): Loaded {
    if !Mapped(mem, pa) || !Aligned(width, pa) then LoadHalt
    else
      var x := Extract(mem[WordNumber(pa)], width, pa);
      Loaded(if sext then SignExtend(x, width) else x)
  }

  function StoreMem(mem: Memory, pa: Word, data: Word, width: Width): Stored {
    if !Mapped(mem, pa) || !Aligned(width, pa) then StoreHalt
    else Stored(mem[WordNumber(pa) := Insert(mem[WordNumber(pa)], data, width, pa)])
  }

  // ---------------------------------------------------------------------------------------------
  // Arithmetic

  /** Signed comparison, done on words with the sign bits flipped. */
  predicate SignedLess(a: Word, b: Word) { Less(FlipTop(a.bits), FlipTop(b.bits)) }
  predicate UnsignedLess(a: Word, b: Word) { Less(a.bits, b.bits) }

  /** A shift by 32 or more has no meaning in C++: the model stops there. */
  predicate Defined(op: AluOp, b: Word) { IsShift(op) ==> ShiftAmount(b.bits) }

  function Truth(b: bool): Word { if b then Word(1) else Zero() }

  function AluResult(op: AluOp, a: Word, b: Word): Word
    requires Defined(op, b)
  {
    match op
    case OpAnd => And(a, b)
    case OpOr => Or(a, b)
    case OpXor => Word(Differ(a.bits, b.bits))
    case OpAdd => Add(a, b)
    case OpSub => Word(Minus(a.bits, b.bits))
    case OpSlt => Truth(SignedLess(a, b))
    case OpSltu => Truth(UnsignedLess(a, b))
    case OpSll => Word(Left(a.bits, b.bits))
    case OpSrl => Word(Right(a.bits, b.bits))
    case OpSra => Word(Arithmetic(a.bits, b.bits))
  }

  function MulDivResult(op: MulOp, a: Word, b: Word): Word {
    Word(OfInt(MExtension.Compute(op, Number(a.bits), Number(b.bits))))
  }

  predicate Taken(cond: Cond, a: Word, b: Word) {
    match cond
    case Eq => a == b
    case Ne => a != b
    case Lt => SignedLess(a, b)
    case Ge => !SignedLess(a, b)
    case Ltu => UnsignedLess(a, b)
    case Geu => !UnsignedLess(a, b)
  }

  // ---------------------------------------------------------------------------------------------
  // Instructions

  function RegIndex(r: bv5): (n: nat)
    ensures n < 32
  {
    r as int
  }

  function Reg(h: Hart, r: bv5): Word { h.gpr[RegIndex(r)] }

  function SetReg(h: Hart, r: bv5, value: Word): Hart {
    if r == 0 then h else h.(gpr := h.gpr[RegIndex(r) := value])
  }

  /**
   * The effect of an instruction before interrupts are looked at: the simulation ends, or a trap was
   * taken, or the instruction completes with a value for rd and the next pc.
   */
  datatype Effect = Stop | Trapped(h: Hart) | Retire(h: Hart, rd: bv5, value: Word, next: Word)

  function JumpTarget(a: Word, imm: Word): Word { Word(DropOdd(Plus(a.bits, imm.bits))) }
  function DropOdd(x: bv32): bv32 { x & 0xFFFF_FFFE }
  function Widened(r: bv5): Word { Word(r as bv32) }
  function NextPc(pc: Word): Word { Word(pc.bits + 4) }

  function ExecLoad(h: Hart, i: Instr): Effect
    requires i.Load?
  {
    var addr := Add(Reg(h, i.rs1), i.imm);
    match Translate(h, addr, Read)
    case TranslateHalt => Stop
    case PageFault => Trapped(TakeTrap(h, Exception(13), h.pc, addr))
    case Physical(pa) =>
      match LoadMem(h.mem, pa, i.width, i.sext)
      case LoadHalt => Stop
      case Loaded(value) => Retire(h, i.rd, value, NextPc(h.pc))
  }

  function ExecStore(h: Hart, i: Instr): Effect
    requires i.Store?
  {
    var addr := Add(Reg(h, i.rs1), i.imm);
    match Translate(h, addr, Write)
    case TranslateHalt => Stop
    case PageFault => Trapped(TakeTrap(h, Exception(15), h.pc, addr))
    case Physical(pa) =>
      match StoreMem(h.mem, pa, Reg(h, i.rs2), i.width)
      case StoreHalt => Stop
      case Stored(mem) => Retire(h.(mem := mem), 0, Zero(), NextPc(h.pc))
  }

  function ExecCsr(h: Hart, i: Instr, console: Word): Effect
    requires i.Csr?
  {
    var data := if i.immediate then Widened(i.rs1) else Reg(h, i.rs1);
    match AccessCsr(h, NameOf(i.csr), data, i.cop, console)
    case CsrHalt => Stop
    case CsrResult(h', value) => Retire(h', i.rd, value, NextPc(h.pc))
  }

  function ExecInstr(h: Hart, i: Instr, console: Word): Effect {
    var next := NextPc(h.pc);
    match i
    case AluImm(op, rd, rs1, imm) =>
      if Defined(op, imm) then Retire(h, rd, AluResult(op, Reg(h, rs1), imm), next) else Stop
    case Alu(op, rd, rs1, rs2) =>
      if Defined(op, Reg(h, rs2)) then Retire(h, rd, AluResult(op, Reg(h, rs1), Reg(h, rs2)), next) else Stop
    case MulDiv(op, rd, rs1, rs2) => Retire(h, rd, MulDivResult(op, Reg(h, rs1), Reg(h, rs2)), next)
    case Lui(rd, imm) => Retire(h, rd, imm, next)
    case Auipc(rd, imm) => Retire(h, rd, Add(imm, h.pc), next)
    case Jal(rd, imm) => Retire(h, rd, next, Add(h.pc, imm))
    case Jalr(rd, rs1, imm) => Retire(h, rd, next, JumpTarget(Reg(h, rs1), imm))
    case Branch(cond, rs1, rs2, imm) =>
      Retire(h, 0, Zero(), if Taken(cond, Reg(h, rs1), Reg(h, rs2)) then Add(h.pc, imm) else next)
    case Load(_, _, _, _, _) => ExecLoad(h, i)
    case Store(_, _, _, _) => ExecStore(h, i)
    case Ecall => Trapped(TakeTrap(h, Exception(8 + h.priv), h.pc, Zero()))
    case Ebreak => Trapped(TakeTrap(h, Exception(3), h.pc, Zero()))
    case Mret => if h.priv == 3 then Retire(ReturnMachine(h), 0, Zero(), h.mepc) else Stop
    case Sret => if h.priv == 1 then Retire(ReturnSupervisor(h), 0, Zero(), h.sepc) else Stop
    case Wfi => Retire(h, 0, Zero(), next)
    case Fence(rd) => Retire(h, rd, Zero(), next)
    case Csr(_, _, _, _, _) => ExecCsr(h, i, console)
    case Illegal => Stop
  }

  // ---------------------------------------------------------------------------------------------
  // Interrupts

  function Pending(h: Hart): Word { And(h.mip, h.mie) }
  predicate MieSet(mstatus: Word) { HasBit(mstatus, 3) }
  predicate SieSet(mstatus: Word) { HasBit(mstatus, 1) }
  predicate MachineEnabled(h: Hart) { h.priv < 3 || (h.priv == 3 && MieSet(h.mstatus)) }
  predicate SupervisorEnabled(h: Hart) { h.priv < 1 || (h.priv == 1 && SieSet(h.mstatus)) }

  function MachineInterrupts(h: Hart): Word { if MachineEnabled(h) then Clear(Pending(h), h.mideleg) else Zero() }
  function SupervisorInterrupts(h: Hart): Word { if SupervisorEnabled(h) then And(Pending(h), h.mideleg) else Zero() }

  /** The enabled interrupts: the ones for machine mode if there are any, else those for supervisor mode. */
  function Interrupts(h: Hart): Word {
    if MachineInterrupts(h) != Zero() then MachineInterrupts(h) else SupervisorInterrupts(h)
  }

  /** The loop from irq i up to 11: the first number whose bit is set, or 12. */
  function FirstIrq(interrupts: Word, i: nat): nat
    decreases 12 - i
  {
    if i >= 12 || HasBit(interrupts, i) then i else FirstIrq(interrupts, i + 1)
  }

  /** What happens between an instruction and the next one at pc `next`. */
  function TakeInterrupts(h: Hart, next: Word): Hart {
    var irq := FirstIrq(Interrupts(h), 1);
    if irq < 12 then TakeTrap(h, Interrupt(irq), next, Zero()) else h.(pc := next)
  }

  function Execute(h: Hart, console: Word): Outcome {
    match Translate(h, h.pc, Fetch)
    case TranslateHalt => Halted
    case PageFault => Running(TakeTrap(h, Exception(12), h.pc, h.pc))
    case Physical(pa) =>
      if !Mapped(h.mem, pa) || !Aligned(Full, pa) then Halted
      else
        match ExecInstr(h, Decode(h.mem[WordNumber(pa)].bits), console)
        case Stop => Halted
        case Trapped(h') => Running(h')
        case Retire(h', rd, value, next) => Running(TakeInterrupts(SetReg(h', rd, value), next))
  }

  function Tick(h: Hart): Hart {
    var now := Add(h.mtime, Word(1));
    var h' := h.(mtime := now);
    if now == h.mtimecmp then h'.(mip := Or(h.mip, TimerPendingBit(h))) else h'
  }

  function Step(h: Hart, console: Word): Outcome {
    match Execute(h, console)
    case Halted => Halted
    case Running(h') => Running(Tick(h'))
  }

  /** What the outside does before a step: the external interrupt line, and the next console character. */
  datatype Input = Input(irq: bool, console: Word)

  function RaiseExternal(h: Hart, irq: bool): Hart { if irq then h.(mip := Or(h.mip, Word(0x800))) else h }

  function StepWith(h: Hart, input: Input): Outcome { Step(RaiseExternal(h, input.irq), input.console) }

  function Run(h: Hart, inputs: seq<Input>): Outcome
    decreases |inputs|
  {
    if inputs == [] then Running(h)
    else
      match StepWith(h, inputs[0])
      case Halted => Halted
      case Running(h') => Run(h', inputs[1..])
  }

  lemma {:induction false} RunSplit(h: Hart, a: seq<Input>, b: seq<Input>)
    ensures Run(h, a + b) == match Run(h, a) case Halted => Halted case Running(h') => Run(h', b)
    decreases |a|
  {
    if a == [] {
      assert a + b == b;
    } else {
      assert (a + b)[0] == a[0] && (a + b)[1..] == a[1..] + b;
      var o := StepWith(h, a[0]);
      if o.Running? {
        RunSplit(o.hart, a[1..], b);
      }
    }
  }
}
