// Traps and the firmware together: whatever is interrupted resumes as if nothing had happened.
module Transparency {
  import opened Words
  import opened Isa
  import opened Hart
  import opened Exec
  import opened Privilege
  import opened Traps
  import opened Handler
  import opened Numbers

  // ---------------------------------------------------------------------------------------------
  // The C side

  /** MPP is made machine mode, so that the return stays there. */
  function FixMpp(s: Word): Word { Word(FixMppBits(s.bits)) }
  function FixMppBits(s: bv32): bv32 { (s & !0x1800) | 0x1800 }

  predicate FromInterrupt(cause: Word) { cause.bits & 0x8000_0000 != 0 }
  predicate FromEcall(cause: Word) { cause.bits == 8 || cause.bits == 9 || cause.bits == 11 }

  /** The context as the registered handlers get it. */
  function Prepared(x: Context): Context {
    var y := x.(status := FixMpp(x.status));
    if !FromInterrupt(x.cause) && FromEcall(x.cause) then y.(epc := NextPc(x.epc)) else y
  }

  lemma FixMppBit(s: bv32, i: nat)
    requires i == 1 || i == 3 || i == 5 || i == 7 || i == 8
    ensures BitSet(FixMppBits(s), i) == BitSet(s, i)
  {
    match i case 1 => case 3 => case 5 => case 7 => case _ =>
  }

  lemma FixMppSets(s: bv32)
    ensures MppField(FixMppBits(s)) == 0x1800
  {
  }

  lemma FixMppOther(s: bv32)
    ensures OtherBits(FixMppBits(s)) == OtherBits(s)
  {
  }

  lemma FixMppFields(w: Word)
    ensures StatusOf(FixMpp(w)) == StatusOf(w).(mpp := 3)
  {
    FixMppSets(w.bits);
    FixMppOther(w.bits);
    FixMppBit(w.bits, 1);
    FixMppBit(w.bits, 3);
    FixMppBit(w.bits, 5);
    FixMppBit(w.bits, 7);
    FixMppBit(w.bits, 8);
  }

  // ---------------------------------------------------------------------------------------------
  // Entry

  function FrameBase(h: Hart): Word { Add(Reg(h, 2), Word(0xFFFF_FF74)) }

  /** The vector holds the entry code, and the 35 words below sp are memory outside that code. */
  ghost predicate CanEnter(h: Hart, call: Word) {
    var base := FrameBase(h);
    && FrameOk(h.mem, base) && CodeAt(h.mem, h.mtvec, Prologue(call)) && CodeOutside(base, h.mtvec, |Prologue(call)|)
    && h.priv <= 3 && Reg(h, 0) == Zero()
  }

  /** What the frame of a trap holds. */
  function TrapContext(h: Hart, c: Cause, epc: Word): Context {
    Context(h.gpr[RegIndex(2) := FrameBase(h)], Masked(CauseWord(c), 0x8000_000F), PushMachine(h.mstatus, h.priv), epc)
  }

  /** The cause in the frame is the number of the trap. */
  lemma FrameCause(h: Hart, c: Cause, epc: Word)
    requires Proper(c)
    ensures Num(TrapContext(h, c, epc).cause.bits) == CauseNumber(c)
  {
    CauseShown(c);
    CauseNum(c);
  }

  lemma TopBit(x: bv32)
    ensures (x & 0x8000_0000 != 0) == !Small(x)
  {
  }

  lemma EcallCodes()
    ensures AsInt(8) == 8 && AsInt(9) == 9 && AsInt(11) == 11
  {
  }

  lemma IsNumber(x: bv32, y: bv32, n: int)
    requires AsInt(y) == n
    ensures x == y <==> Num(x) == n
  {
    NumIsInt(y);
    if Num(x) == n { SameNum(x, y); }
  }

  /** What the C handler asks of a cause, in numbers. */
  lemma CauseTests(cause: Word)
    ensures FromInterrupt(cause) <==> Num(cause.bits) >= 0x8000_0000
    ensures FromEcall(cause) <==> Num(cause.bits) == 8 || Num(cause.bits) == 9 || Num(cause.bits) == 11
  {
    TopBit(cause.bits);
    NotSmall(cause.bits);
    EcallCodes();
    IsNumber(cause.bits, 8, 8);
    IsNumber(cause.bits, 9, 9);
    IsNumber(cause.bits, 11, 11);
  }

  /** The hart t is in the trap taken from h, possibly with interrupts raised and the timer advanced since. */
  predicate InTrap(t: Hart, h: Hart, c: Cause, epc: Word) {
    !Delegated(h, c) && t.priv == 3 && CoreOf(t) == CoreOf(TakeTrap(h, c, epc, Zero()))
  }

  lemma TrapStatus(h: Hart)
    requires h.priv <= 3
    ensures !MieSet(PushMachine(h.mstatus, h.priv)) && !MieSet(FixMpp(PushMachine(h.mstatus, h.priv)))
    ensures GetMpp(FixMpp(PushMachine(h.mstatus, h.priv))) == 3
    ensures StatusOf(PopMachine(FixMpp(PushMachine(h.mstatus, h.priv)))) == StatusOf(h.mstatus).(mpie := true, mpp := 0)
  {
    var s := PushMachine(h.mstatus, h.priv);
    PushMachineFields(h.mstatus, h.priv);
    FixMppFields(s);
    PopMachineFields(FixMpp(s));
  }

  lemma TrapReady(h: Hart, c: Cause, epc: Word, call: Word, t: Hart)
    requires CanEnter(h, call) && InTrap(t, h, c, epc)
    ensures Ready(CoreOf(t), FrameBase(h), Prologue(call)) && Saved(CoreOf(t), FrameBase(h)) == TrapContext(h, c, epc)
  {
    TrapStatus(h);
  }

  /** From the trap to the first instruction of the C handler, whatever arrives meanwhile. */
  lemma TrapEnters(h: Hart, c: Cause, epc: Word, call: Word, t: Hart, inputs: seq<Input>, o: Outcome)
    requires CanEnter(h, call) && InTrap(t, h, c, epc)
    requires |inputs| == Steps(Prologue(call)) && o == Run(t, inputs)
    ensures o.Running? && o.hart.priv == 3
    ensures AtHandler(CoreOf(o.hart), FrameBase(h), TrapContext(h, c, epc), CoreOf(t), call)
  {
    TrapReady(h, c, epc, call, t);
    EntryCode(CoreOf(t), FrameBase(h), call, DoAll(CoreOf(t), Prologue(call)));
    ProgramRuns(t, inputs, Prologue(call), o);
  }

  // ---------------------------------------------------------------------------------------------
  // Exit

  /** The C handler returns a context that holds x, to the exit code. */
  ghost predicate CanLeave(back: Hart, x: Context) {
    var base := Reg(back, 10);
    && back.priv == 3 && !MieSet(back.mstatus) && Reg(back, 0) == Zero() && FrameIs(back.mem, base, x)
    && CodeAt(back.mem, back.pc, Epilogue()) && CodeOutside(base, back.pc, |Epilogue()|)
  }

  lemma RunsToReturn(back: Hart, x: Context, inputs: seq<Input>, o: Outcome)
    requires CanLeave(back, x) && !MieSet(x.status)
    requires |inputs| == Steps(Epilogue()) && o == Run(back, inputs)
    ensures o.Running? && o.hart.priv == 3 && AtReturn(CoreOf(o.hart), Reg(back, 10), x) && o.hart.mem == back.mem
  {
    var c' := EpilogueRuns(CoreOf(back), Reg(back, 10), x);
    ProgramRuns(back, inputs, Epilogue(), o);
  }

  /** No interrupt is enabled and pending once the MRET of h, at which the line is as in `input`, is done. */
  predicate NoneAtReturn(h: Hart, input: Input) {
    Interrupts(ReturnMachine(RaiseExternal(h, input.irq))) == Zero()
  }

  /** The program runs on at x.epc, with the registers of x and sp as the frame was built on. */
  ghost predicate Resumed(h: Hart, base: Word, x: Context) {
    && h.pc == x.epc && Reg(h, 0) == Zero() && Reg(h, 2) == Add(base, Word(0x8C))
    && (forall r: bv5 :: r != 0 && r != 2 ==> Reg(h, r) == x.gpr[RegIndex(r)])
    && h.priv == GetMpp(x.status) && h.mstatus == PopMachine(x.status)
  }

  lemma NoInterruptAtReturn(h: Hart, next: Word)
    requires Interrupts(h) == Zero()
    ensures TakeInterrupts(h, next) == h.(pc := next)
  {
    QuietFirstIrq();
  }

  lemma MretStep(start: Hart, input: Input, e: Effect, o: Outcome)
    requires start.priv == 3 && Interrupts(ReturnMachine(start)) == Zero()
    requires e == ExecInstr(start, Mret, input.console) && o == Finish(e)
    ensures o == Running(Tick(ReturnMachine(start).(pc := start.mepc)))
  {
    NoInterruptAtReturn(ReturnMachine(start), start.mepc);
  }

  lemma ReturnedIsResumed(h: Hart, base: Word, x: Context, input: Input, r: Hart)
    requires AtReturn(CoreOf(h), base, x) && r == Tick(ReturnMachine(RaiseExternal(h, input.irq)).(pc := h.mepc))
    ensures Resumed(r, base, x) && r.mem == h.mem
  {
  }

  lemma MretResumes(h: Hart, base: Word, x: Context, input: Input, o: Outcome)
    requires h.priv == 3 && AtReturn(CoreOf(h), base, x) && NoneAtReturn(h, input) && o == StepWith(h, input)
    ensures o.Running? && Resumed(o.hart, base, x) && o.hart.mem == h.mem
  {
    var start := RaiseExternal(h, input.irq);
    assert CoreOf(start) == CoreOf(h);
    StepIsFinish(start, input.console, start.pc);
    MretStep(start, input, ExecInstr(start, Mret, input.console), o);
    ReturnedIsResumed(h, base, x, input, o.hart);
  }

  /** Whatever context a handler returns, its own or another one, is the one that is resumed. */
  lemma ContextResumes(back: Hart, x: Context, inputs: seq<Input>, last: Input)
    requires CanLeave(back, x) && !MieSet(x.status) && |inputs| == Steps(Epilogue())
    ensures Run(back, inputs).Running?
    ensures NoneAtReturn(Run(back, inputs).hart, last) ==>
      var o := Run(back, inputs + [last]);
      o.Running? && Resumed(o.hart, Reg(back, 10), x) && o.hart.mem == back.mem
  {
    var o := Run(back, inputs);
    RunsToReturn(back, x, inputs, o);
    if NoneAtReturn(o.hart, last) {
      MretResumes(o.hart, Reg(back, 10), x, last, StepWith(o.hart, last));
      RunSplit(back, inputs, [last]);
      LastStep(o.hart, last);
    }
  }

  // ---------------------------------------------------------------------------------------------
  // Both together

  /** Every register, the status fields and memory outside the frame are as in h; the privilege is machine. */
  ghost predicate SameProgram(h: Hart, r: Hart, pc: Word) {
    && r.pc == pc && (forall i: bv5 :: Reg(r, i) == Reg(h, i)) && r.priv == 3
    && StatusOf(r.mstatus) == StatusOf(h.mstatus).(mpie := true, mpp := 0)
  }

  lemma FrameUndone(x: Word)
    ensures Add(Add(x, Word(0xFFFF_FF74)), Word(0x8C)) == x
  {
  }

  lemma ResumedIsSame(h: Hart, c: Cause, epc: Word, r: Hart)
    requires h.priv <= 3 && Reg(h, 0) == Zero()
    requires Resumed(r, FrameBase(h), Prepared(TrapContext(h, c, epc)))
    ensures SameProgram(h, r, Prepared(TrapContext(h, c, epc)).epc)
  {
    FrameUndone(Reg(h, 2));
    TrapStatus(h);
    forall i: bv5 | i != 0 && i != 2 ensures Reg(r, i) == Reg(h, i) {
      RegIndexDiffers(i, 2);
    }
  }

  lemma InterruptPrepared(h: Hart, i: nat, epc: Word)
    ensures Prepared(TrapContext(h, Interrupt(i), epc)).epc == epc
  {
    InterruptCause(CodeWord(i).bits);
  }

  lemma InterruptCause(x: bv32)
    ensures FromInterrupt(Masked(InterruptWord(Word(x)), 0x8000_000F))
  {
  }

  lemma EcallPrepared(h: Hart, epc: Word)
    requires h.priv == 0 || h.priv == 1 || h.priv == 3
    ensures Prepared(TrapContext(h, Exception(8 + h.priv), epc)).epc == NextPc(epc)
  {
    EcallCause(h.priv);
  }

  lemma EcallCause(priv: nat)
    requires priv == 0 || priv == 1 || priv == 3
    ensures var w := Masked(CauseWord(Exception(8 + priv)), 0x8000_000F); !FromInterrupt(w) && FromEcall(w)
  {
    match priv case 0 => case 1 => case _ =>
  }

  /**
   * A trap that goes to machine mode, the entry code, any C handler that returns its own context with
   * the frame as the dispatcher prepared it, the exit code and the MRET: everything the program can see
   * is back, at the pc in the prepared context. Interrupts may arrive at every instruction; only at the
   * MRET none may be enabled and pending.
   */
  lemma TrapTransparent(h: Hart, c: Cause, epc: Word, call: Word, t: Hart, back: Hart, inputs: seq<Input>, last: Input)
    requires CanEnter(h, call) && InTrap(t, h, c, epc)
    requires CanLeave(back, Prepared(TrapContext(h, c, epc))) && Reg(back, 10) == FrameBase(h)
    requires |inputs| == Steps(Epilogue())
    ensures Run(back, inputs).Running?
    ensures NoneAtReturn(Run(back, inputs).hart, last) ==>
      var o := Run(back, inputs + [last]);
      o.Running? && SameProgram(h, o.hart, Prepared(TrapContext(h, c, epc)).epc) && o.hart.mem == back.mem
  {
    var x := Prepared(TrapContext(h, c, epc));
    TrapStatus(h);
    ContextResumes(back, x, inputs, last);
    if NoneAtReturn(Run(back, inputs).hart, last) {
      ResumedIsSame(h, c, epc, Run(back, inputs + [last]).hart);
    }
  }

  /**
   * Interrupts are transparent. An interrupt is taken in machine mode before the instruction at `next`;
   * the entry code runs, then a handler that returns its context with the frame intact, then the exit
   * code. The program goes on at `next` with x1..x31, the privilege and MIE as before.
   */
  lemma InterruptTransparent(h: Hart, next: Word, call: Word, t: Hart, entry: seq<Input>, back: Hart,
      inputs: seq<Input>, last: Input)
    requires CanEnter(h, call) && h.priv == 3 && FirstIrq(Interrupts(h), 1) < 12 && t == Tick(TakeInterrupts(h, next))
    requires |entry| == Steps(Prologue(call)) && |inputs| == Steps(Epilogue())
    ensures var cause := Interrupt(FirstIrq(Interrupts(h), 1));
      && Run(t, entry).Running?
      && AtHandler(CoreOf(Run(t, entry).hart), FrameBase(h), TrapContext(h, cause, next), CoreOf(t), call)
      && (CanLeave(back, Prepared(TrapContext(h, cause, next))) && Reg(back, 10) == FrameBase(h) ==>
        && Run(back, inputs).Running?
        && (NoneAtReturn(Run(back, inputs).hart, last) ==>
          var o := Run(back, inputs + [last]);
          o.Running? && SameProgram(h, o.hart, next) && o.hart.priv == h.priv && o.hart.mem == back.mem))
  {
    var i := FirstIrq(Interrupts(h), 1);
    assert InTrap(t, h, Interrupt(i), next);
    TrapEnters(h, Interrupt(i), next, call, t, entry, Run(t, entry));
    InterruptPrepared(h, i, next);
    if CanLeave(back, Prepared(TrapContext(h, Interrupt(i), next))) && Reg(back, 10) == FrameBase(h) {
      TrapTransparent(h, Interrupt(i), next, call, t, back, inputs, last);
    }
  }

  lemma EcallTraps(h: Hart, console: Word, t: Hart)
    requires ExecInstr(h, Ecall, console) == Trapped(t) && !Delegated(h, Exception(8 + h.priv))
    ensures InTrap(t, h, Exception(8 + h.priv), h.pc)
  {
  }

  /**
   * A system call from any mode that is not delegated returns to the instruction after the ECALL with
   * all registers as they were, in machine mode: the privilege comes back exactly if it was machine.
   */
  lemma EcallReturns(h: Hart, call: Word, c: Cause, t: Hart, back: Hart, inputs: seq<Input>, last: Input, console: Word)
    requires CanEnter(h, call) && h.priv != 2 && c == Exception(8 + h.priv) && !Delegated(h, c)
    requires ExecInstr(h, Ecall, console) == Trapped(t)
    requires CanLeave(back, Prepared(TrapContext(h, c, h.pc))) && Reg(back, 10) == FrameBase(h)
    requires |inputs| == Steps(Epilogue())
    ensures Run(back, inputs).Running?
    ensures NoneAtReturn(Run(back, inputs).hart, last) ==>
      var o := Run(back, inputs + [last]);
      o.Running? && SameProgram(h, o.hart, NextPc(h.pc)) && (o.hart.priv == h.priv <==> h.priv == 3)
  {
    EcallTraps(h, console, t);
    EcallPrepared(h, h.pc);
    TrapTransparent(h, c, h.pc, call, t, back, inputs, last);
  }
}
