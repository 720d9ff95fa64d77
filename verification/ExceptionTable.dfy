// The C trap handler: it fixes up the saved context in place and picks the registered handler.
module ExceptionTable {
  import opened Words
  import opened Hart
  import opened Exec
  import opened Handler
  import opened Transparency
  import opened Traps
  import opened Numbers

  type HandlerId = nat
  datatype Registration = Free | Registered(handler: HandlerId)

  /** What the trap handler does with the context: passes it to a handler, returns it as it is, or aborts. */
  datatype Action = Pass(handler: HandlerId) | ReturnIt | Abort

  class Frame {
    var pc: Word
    var status: Word
    var cause: Word
    var gpr: Regs

    function Value(): Context
      reads this
    {
      Context(gpr, cause, status, pc)
    }

    constructor (x: Context)
      ensures Value() == x
    {
      pc, status, cause, gpr := x.epc, x.status, x.cause, x.gpr;
    }
  }

  predicate IsCode(cause: Word) { SmallCode(cause.bits) }
  function CodeOf(cause: Word): (n: nat)
    requires IsCode(cause)
    ensures n < 16 && n == Num(cause.bits)
  {
    SmallCodeNum(cause.bits);
    Number(cause.bits)
  }

  /** The handler for a cause. */
  function ActionFor(cause: Word, irq: Registration, table: seq<Registration>): Action
    requires |table| == 16
  {
    if FromInterrupt(cause) then
      if irq.Registered? then Pass(irq.handler) else ReturnIt
    else if IsCode(cause) && table[CodeOf(cause)].Registered? then Pass(table[CodeOf(cause)].handler)
    else Abort
  }

  class Table {
    var irq: Registration
    const entries: array<Registration>

    predicate Valid()
      reads this
    {
      entries.Length == 16
    }

    constructor ()
      ensures Valid() && fresh(entries) && irq == Free && forall i :: 0 <= i < 16 ==> entries[i] == Free
    {
      irq := Free;
      entries := new Registration[16](_ => Free);
    }

    method SetIrqHandler(handler: Registration)
      modifies this
      ensures irq == handler
    {
      irq := handler;
    }

    method SetHandler(cause: nat, handler: Registration)
      requires Valid() && cause < 16
      modifies entries
      ensures entries[..] == old(entries[..])[cause := handler]
    {
      entries[cause] := handler;
    }

    method SetSyscallHandler(handler: Registration)
      requires Valid()
      modifies entries
      ensures entries[..] == old(entries[..])[8 := handler][9 := handler][11 := handler]
    {
      entries[8] := handler;
      entries[9] := handler;
      entries[11] := handler;
    }

    /** Fixes up the frame for machine mode and a finished ECALL, then picks the handler for its cause. */
    method Handle(frame: Frame) returns (action: Action)
      requires Valid()
      modifies frame
      ensures frame.Value() == Prepared(old(frame.Value()))
      ensures action == ActionFor(old(frame.cause), irq, entries[..])
    {
      frame.status := FixMpp(frame.status);
      if FromInterrupt(frame.cause) {
        if irq.Registered? {
          action := Pass(irq.handler);
        } else {
          action := ReturnIt;
        }
      } else {
        if FromEcall(frame.cause) {
          frame.pc := NextPc(frame.pc);
        }
        if IsCode(frame.cause) && entries[CodeOf(frame.cause)].Registered? {
          action := Pass(entries[CodeOf(frame.cause)].handler);
        } else {
          action := Abort;
        }
      }
    }
  }

  /**
   * From the trap to the handler: the one registered for interrupts gets every interrupt, the one registered
   * for the code of an exception gets that exception; without one an interrupt is ignored, an exception aborts.
   */
  lemma HandlerChosen(h: Hart, c: Cause, epc: Word, irq: Registration, table: seq<Registration>)
    requires |table| == 16 && Proper(c)
    ensures ActionFor(TrapContext(h, c, epc).cause, irq, table) ==
      match c
      case Interrupt(_) => (if irq.Registered? then Pass(irq.handler) else ReturnIt)
      case Exception(code) => (if table[code].Registered? then Pass(table[code].handler) else Abort)
  {
    var cause := TrapContext(h, c, epc).cause;
    FrameCause(h, c, epc);
    CauseTests(cause);
    SmallCodeNum(cause.bits);
  }

  /** Once a system call handler is set, an ECALL from any mode reaches it, and an interrupt never does so by it. */
  lemma SyscallsReachHandler(cause: Word, irq: Registration, table: seq<Registration>, f: HandlerId)
    requires |table| == 16
    ensures var t := table[8 := Registered(f)][9 := Registered(f)][11 := Registered(f)];
      && (FromEcall(cause) ==> ActionFor(cause, irq, t) == Pass(f))
      && (FromInterrupt(cause) ==>
          ActionFor(cause, irq, t) == ActionFor(cause, irq, table) && ActionFor(cause, irq, t) != Abort)
  {
    if FromEcall(cause) {
      EcallCode(cause);
    }
  }

  lemma EcallCode(cause: Word)
    requires FromEcall(cause)
    ensures !FromInterrupt(cause) && IsCode(cause) && (CodeOf(cause) == 8 || CodeOf(cause) == 9 || CodeOf(cause) == 11)
  {
    CauseTests(cause);
    SmallCodeNum(cause.bits);
  }
}
