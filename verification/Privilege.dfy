// Privilege, interrupts and trap nesting over all runs of the simulator.
module Privilege {
  import opened Words
  import opened Isa
  import opened Hart
  import opened Mmu
  import opened Exec

  /** Only the six interrupt bits. */
  predicate Confined(x: Word) { x.bits & !0xAAA == 0 }

  predicate Inv(h: Hart) { h.priv <= 3 && Confined(h.mip) && Confined(h.mie) && h.gpr[0] == Zero() }

  predicate AtVector(h: Hart) { (h.priv == 3 && h.pc == h.mtvec) || (h.priv == 1 && h.pc == h.stvec) }

  // ---------------------------------------------------------------------------------------------
  // One step

  lemma TrapLands(h: Hart, c: Cause, pc: Word, badaddr: Word)
    requires Inv(h)
    ensures Inv(TakeTrap(h, c, pc, badaddr)) && AtVector(TakeTrap(h, c, pc, badaddr))
  {
  }

  lemma MaskConfines(y: Word)
    ensures Confined(Masked(y, 0xAAA)) && Confined(Masked(y, 0x222))
  {
  }

  lemma UpdateConfines(cop: CsrOp, x: Word, y: Word)
    requires Confined(x) && (Confined(y) || cop == CsrClear)
    ensures Confined(Update(cop, x, y))
  {
  }

  lemma TimerConfines(h: Hart)
    requires Confined(h.mip)
    ensures Confined(Or(h.mip, TimerPendingBit(h))) && Confined(Clear(h.mip, TimerPendingBit(h)))
  {
  }

  predicate InterruptCsr(name: CsrName) { name.Mip? || name.Mie? || name.Sip? || name.Sie? }

  /** A register CSR is rewritten, and an interrupt register keeps to the six interrupt bits. */
  lemma AccessRegister(h: Hart, name: CsrName, data: Word, cop: CsrOp, console: Word) returns (x: Word, value: Word)
    requires Inv(h) && HasRegister(name)
    ensures AccessCsr(h, name, data, cop, console) == CsrResult(SetCsr(h, name, x), value)
    ensures InterruptCsr(name) ==> Confined(x)
  {
    x := Update(cop, GetCsr(h, name), Implemented(name, data));
    value := Implemented(name, GetCsr(h, name));
    if InterruptCsr(name) {
      MaskConfines(data);
      UpdateConfines(cop, GetCsr(h, name), Implemented(name, data));
    }
  }

  lemma SetCsrFrame(h: Hart, name: CsrName, x: Word)
    requires HasRegister(name)
    ensures var h' := SetCsr(h, name, x);
      && h'.priv == h.priv && h'.gpr == h.gpr
      && (h'.mip == h.mip || (InterruptCsr(name) && h'.mip == x))
      && (h'.mie == h.mie || (InterruptCsr(name) && h'.mie == x))
  {
  }

  predicate CsrKept(h: Hart, r: CsrResult) {
    r.CsrResult? ==> Inv(r.hart) && r.hart.priv == h.priv && r.hart.gpr == h.gpr
  }

  lemma RegisterCsrKeeps(h: Hart, name: CsrName, x: Word, value: Word, r: CsrResult)
    requires Inv(h) && HasRegister(name) && r == CsrResult(SetCsr(h, name, x), value)
    requires InterruptCsr(name) ==> Confined(x)
    ensures CsrKept(h, r)
  {
    SetCsrFrame(h, name, x);
  }

  lemma OtherCsrKeeps(h: Hart, name: CsrName, data: Word, cop: CsrOp, console: Word)
    requires Inv(h) && !HasRegister(name)
    ensures CsrKept(h, AccessCsr(h, name, data, cop, console))
  {
    TimerConfines(h);
  }

  lemma CsrKeeps(h: Hart, name: CsrName, data: Word, cop: CsrOp, console: Word, r: CsrResult)
    requires Inv(h) && r == AccessCsr(h, name, data, cop, console)
    ensures CsrKept(h, r)
  {
    if HasRegister(name) {
      var x, value := AccessRegister(h, name, data, cop, console);
      RegisterCsrKeeps(h, name, x, value, r);
    } else {
      OtherCsrKeeps(h, name, data, cop, console);
    }
  }

  lemma PreviousPrivilege(s: Word)
    ensures GetMpp(s) <= 3 && GetSpp(s) <= 1
  {
  }

  /** An instruction either traps to a vector or leaves the privilege where it was or lower. */
  predicate EffectKept(h: Hart, e: Effect) {
    match e
    case Stop => true
    case Trapped(h') => Inv(h') && AtVector(h')
    case Retire(h', _, _, _) => Inv(h') && h'.priv <= h.priv && h'.gpr == h.gpr
  }

  lemma LoadKeeps(h: Hart, i: Instr)
    requires Inv(h) && i.Load?
    ensures EffectKept(h, ExecLoad(h, i))
  {
    TrapLands(h, Exception(13), h.pc, Add(Reg(h, i.rs1), i.imm));
  }

  lemma StoreKeeps(h: Hart, i: Instr)
    requires Inv(h) && i.Store?
    ensures EffectKept(h, ExecStore(h, i))
  {
    TrapLands(h, Exception(15), h.pc, Add(Reg(h, i.rs1), i.imm));
  }

  lemma TrapInstrKeeps(h: Hart, i: Instr, console: Word, code: nat)
    requires Inv(h) && ((i == Ecall && code == 8 + h.priv) || (i == Ebreak && code == 3))
    ensures EffectKept(h, ExecInstr(h, i, console))
  {
    TrapLands(h, Exception(code), h.pc, Zero());
    assert ExecInstr(h, i, console) == Trapped(TakeTrap(h, Exception(code), h.pc, Zero()));
  }

  lemma ReturnKeeps(h: Hart, i: Instr, console: Word)
    requires Inv(h) && (i.Mret? || i.Sret?)
    ensures EffectKept(h, ExecInstr(h, i, console))
  {
    PreviousPrivilege(h.mstatus);
  }

  lemma InstrKeeps(h: Hart, i: Instr, console: Word, e: Effect)
    requires Inv(h) && e == ExecInstr(h, i, console)
    ensures EffectKept(h, e)
  {
    if i.Load? {
      LoadKeeps(h, i);
    } else if i.Store? {
      StoreKeeps(h, i);
    } else if i.Ecall? || i.Ebreak? {
      TrapInstrKeeps(h, i, console, if i.Ecall? then 8 + h.priv else 3);
    } else if i.Mret? || i.Sret? {
      ReturnKeeps(h, i, console);
    } else if i.Csr? {
      CsrInstrKeeps(h, i, console);
    } else {
      OtherInstr(h, i, console);
    }
  }

  lemma CsrInstrKeeps(h: Hart, i: Instr, console: Word)
    requires Inv(h) && i.Csr?
    ensures EffectKept(h, ExecInstr(h, i, console))
  {
    var data := if i.immediate then Widened(i.rs1) else Reg(h, i.rs1);
    CsrKeeps(h, NameOf(i.csr), data, i.cop, console, AccessCsr(h, NameOf(i.csr), data, i.cop, console));
  }

  lemma OtherInstr(h: Hart, i: Instr, console: Word)
    requires !i.Load? && !i.Store? && !i.Ecall? && !i.Ebreak? && !i.Mret? && !i.Sret? && !i.Csr?
    ensures var e := ExecInstr(h, i, console); e.Stop? || (e.Retire? && e.h == h)
  {
  }

  lemma NonZeroRegister(r: bv5)
    ensures r != 0 ==> RegIndex(r) != 0
  {
    assert (r as int) as bv5 == r;
  }

  lemma ExternalConfines(x: Word)
    requires Confined(x)
    ensures Confined(Or(x, Word(0x800)))
  {
  }

  predicate Raised(before: Hart, after: Hart) { after.priv > before.priv ==> AtVector(after) }

  predicate OutcomeKept(before: Hart, o: Outcome) { o.Running? ==> Inv(o.hart) && Raised(before, o.hart) }

  /** The end of an execution from its effect. */
  function Finish(e: Effect): Outcome {
    match e
    case Stop => Halted
    case Trapped(h) => Running(Tick(h))
    case Retire(h, rd, value, next) => Running(Tick(TakeInterrupts(SetReg(h, rd, value), next)))
  }

  lemma FinishKeeps(before: Hart, e: Effect)
    requires Inv(before) && EffectKept(before, e)
    ensures OutcomeKept(before, Finish(e))
  {
    match e
    case Stop =>
    case Trapped(h) => TickKeeps(h);
    case Retire(h, rd, value, next) => RetireKeeps(before, h, rd, value, next);
  }

  lemma StepIsFinish(h: Hart, console: Word, pa: Word)
    requires Translate(h, h.pc, Fetch) == Physical(pa) && Mapped(h.mem, pa) && Aligned(Full, pa)
    ensures Step(h, console) == Finish(ExecInstr(h, Decode(h.mem[WordNumber(pa)].bits), console))
  {
  }

  lemma StepKeeps(h: Hart, console: Word, t: Translation, o: Outcome)
    requires Inv(h) && t == Translate(h, h.pc, Fetch) && o == Step(h, console)
    ensures OutcomeKept(h, o)
  {
    if t.PageFault? {
      TrapLands(h, Exception(12), h.pc, h.pc);
      TickKeeps(TakeTrap(h, Exception(12), h.pc, h.pc));
    } else if t.Physical? && Mapped(h.mem, t.address) && Aligned(Full, t.address) {
      var e := ExecInstr(h, Decode(h.mem[WordNumber(t.address)].bits), console);
      StepIsFinish(h, console, t.address);
      InstrKeeps(h, Decode(h.mem[WordNumber(t.address)].bits), console, e);
      FinishKeeps(h, e);
    }
  }

  lemma StepWithKeeps(h: Hart, input: Input)
    requires Inv(h)
    ensures OutcomeKept(h, StepWith(h, input))
  {
    var start := RaiseExternal(h, input.irq);
    ExternalConfines(h.mip);
    StepKeeps(start, input.console, Translate(start, start.pc, Fetch), Step(start, input.console));
  }

  lemma TickKeeps(h: Hart)
    requires Inv(h)
    ensures Inv(Tick(h)) && Tick(h).priv == h.priv && (AtVector(h) ==> AtVector(Tick(h)))
  {
    TimerConfines(h);
  }

  lemma RetireKeeps(before: Hart, h: Hart, rd: bv5, value: Word, next: Word)
    requires Inv(h) && h.priv <= before.priv
    ensures var h' := Tick(TakeInterrupts(SetReg(h, rd, value), next)); Inv(h') && Raised(before, h')
  {
    NonZeroRegister(rd);
    var h1 := SetReg(h, rd, value);
    var irq := FirstIrq(Interrupts(h1), 1);
    if irq < 12 {
      TrapLands(h1, Interrupt(irq), next, Zero());
    }
    TickKeeps(TakeInterrupts(h1, next));
  }

  // ---------------------------------------------------------------------------------------------
  // All runs

  lemma ResetInv(start: Word, mem: Memory)
    ensures Inv(Reset(start, mem))
  {
  }

  lemma {:induction false} RunInv(h: Hart, inputs: seq<Input>)
    requires Inv(h)
    ensures match Run(h, inputs) case Halted => true case Running(h') => Inv(h')
    decreases |inputs|
  {
    if inputs != [] {
      StepWithKeeps(h, inputs[0]);
      var o := StepWith(h, inputs[0]);
      if o.Running? {
        RunInv(o.hart, inputs[1..]);
      }
    }
  }

  /**
   * Over every run from reset the privilege level stays in 0..3, register x0 stays 0, only the six
   * interrupt bits are ever pending or enabled, and a step that ends at a higher privilege level ends
   * at the trap vector of that level.
   */
  lemma PrivilegeSafety(start: Word, mem: Memory, inputs: seq<Input>, next: Input)
    requires Run(Reset(start, mem), inputs).Running?
    ensures var h := Run(Reset(start, mem), inputs).hart;
      Inv(h) && OutcomeKept(h, Run(Reset(start, mem), inputs + [next]))
  {
    ResetInv(start, mem);
    RunInv(Reset(start, mem), inputs);
    RunSplit(Reset(start, mem), inputs, [next]);
    var h := Run(Reset(start, mem), inputs).hart;
    StepWithKeeps(h, next);
    LastStep(h, next);
  }

  lemma LastStep(h: Hart, next: Input)
    ensures Run(h, [next]) == StepWith(h, next)
  {
    var o := StepWith(h, next);
    assert [next][1..] == [];
    if o.Running? {
      assert Run(o.hart, []) == Running(o.hart);
    }
  }
}
