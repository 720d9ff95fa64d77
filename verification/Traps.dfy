// Which interrupt is taken and where it lands, and how nested traps unwind.
module Traps {
  import opened Words
  import opened Isa
  import opened Hart
  import opened Exec
  import opened Privilege
  import opened Mmu
  import opened Numbers

  // ---------------------------------------------------------------------------------------------
  // Interrupt choice, one bit at a time

  predicate Waiting(h: Hart, i: nat) { HasBit(h.mip, i) && HasBit(h.mie, i) }

  predicate ForMachine(h: Hart, i: nat) { Waiting(h, i) && !HasBit(h.mideleg, i) && MachineEnabled(h) }

  predicate ForSupervisor(h: Hart, i: nat) { Waiting(h, i) && HasBit(h.mideleg, i) && SupervisorEnabled(h) }

  lemma BitsOfAnd(a: bv32, b: bv32, i: nat)
    ensures BitSet(AndBits(a, b), i) == (BitSet(a, i) && BitSet(b, i))
  {
    match i
    case 0 => case 1 => case 2 => case 3 => case 4 => case 5 => case 6 => case 7 =>
    case 8 => case 9 => case 10 => case 11 => case 12 => case 13 => case 14 => case _ =>
  }

  lemma BitsOfNot(a: bv32, i: nat)
    ensures BitSet(NotBits(a), i) == !BitSet(a, i)
  {
    match i
    case 0 => case 1 => case 2 => case 3 => case 4 => case 5 => case 6 => case 7 =>
    case 8 => case 9 => case 10 => case 11 => case 12 => case 13 => case 14 => case _ =>
  }

  lemma BitOfAnd(a: Word, b: Word, i: nat)
    ensures HasBit(And(a, b), i) == (HasBit(a, i) && HasBit(b, i))
  {
    BitsOfAnd(a.bits, b.bits, i);
  }

  lemma BitOfClear(a: Word, b: Word, i: nat)
    ensures HasBit(Clear(a, b), i) == (HasBit(a, i) && !HasBit(b, i))
  {
    BitsOfAnd(a.bits, NotBits(b.bits), i);
    BitsOfNot(b.bits, i);
  }

  lemma NoBitOfZero(i: nat)
    ensures !HasBit(Zero(), i)
  {
  }

  lemma ConfinedBits(x: Word)
    requires Confined(x)
    ensures x == Zero() || HasBit(x, 1) || HasBit(x, 3) || HasBit(x, 5) || HasBit(x, 7) || HasBit(x, 9) || HasBit(x, 11)
    ensures !HasBit(x, 0)
  {
  }

  lemma {:induction false} FirstIsLowest(w: Word, i: nat)
    requires i <= 12
    ensures var r := FirstIrq(w, i);
      && i <= r <= 12 && (r < 12 ==> HasBit(w, r))
      && forall j: nat :: i <= j < r ==> !HasBit(w, j)
    decreases 12 - i
  {
    FirstStep(w, i);
    if i < 12 && !HasBit(w, i) {
      FirstIsLowest(w, i + 1);
    }
  }

  lemma FirstStep(w: Word, i: nat)
    requires i <= 12
    ensures FirstIrq(w, i) == if i < 12 && !HasBit(w, i) then FirstIrq(w, i + 1) else i
  {
  }

  lemma MachineSet(h: Hart, i: nat)
    ensures HasBit(MachineInterrupts(h), i) == ForMachine(h, i)
  {
    BitOfAnd(h.mip, h.mie, i);
    BitOfClear(Pending(h), h.mideleg, i);
    NoBitOfZero(i);
  }

  lemma SupervisorSet(h: Hart, i: nat)
    ensures HasBit(SupervisorInterrupts(h), i) == ForSupervisor(h, i)
  {
    BitOfAnd(h.mip, h.mie, i);
    BitOfAnd(Pending(h), h.mideleg, i);
    NoBitOfZero(i);
  }

  lemma SetsConfined(h: Hart)
    requires Confined(h.mip)
    ensures Confined(MachineInterrupts(h)) && Confined(SupervisorInterrupts(h))
  {
    ConfinedMeet(h.mip.bits, h.mie.bits, h.mideleg.bits);
  }

  lemma ConfinedMeet(a: bv32, b: bv32, c: bv32)
    requires a & !0xAAA == 0
    ensures AndBits(AndBits(a, b), c) & !0xAAA == 0 && AndBits(AndBits(a, b), NotBits(c)) & !0xAAA == 0
  {
  }

  /** An interrupt that the choice rule of the architecture picks: the number, and the mode it is for. */
  datatype Choice = ToMachine(irq: nat) | ToSupervisor(irq: nat) | NoInterrupt

  ghost predicate Chosen(h: Hart, c: Choice) {
    match c
    case ToMachine(i) => i < 12 && ForMachine(h, i) && forall j: nat :: j < i ==> !ForMachine(h, j)
    case ToSupervisor(i) =>
      && (forall j: nat :: j < 12 ==> !ForMachine(h, j))
      && i < 12 && ForSupervisor(h, i) && forall j: nat :: j < i ==> !ForSupervisor(h, j)
    case NoInterrupt => forall j: nat :: j < 12 ==> !ForMachine(h, j) && !ForSupervisor(h, j)
  }

  /** Where the hart is after the choice. */
  predicate Delivered(h: Hart, next: Word, c: Choice, h': Hart) {
    match c
    case ToMachine(i) =>
      h'.priv == 3 && h'.pc == h.mtvec && h'.mepc == next && Num(h'.mcause.bits) == 0x8000_0000 + i
        && h'.mstatus == PushMachine(h.mstatus, h.priv)
    case ToSupervisor(i) =>
      h'.priv == 1 && h'.pc == h.stvec && h'.sepc == next && Num(h'.scause.bits) == 0x8000_0000 + i
        && h'.mstatus == PushSupervisor(h.mstatus, h.priv)
    case NoInterrupt => h' == h.(pc := next)
  }

  lemma TrapDelivers(h: Hart, next: Word, i: nat)
    requires h.priv <= 3 && i < 12
    ensures ForMachine(h, i) ==> Delivered(h, next, ToMachine(i), TakeTrap(h, Interrupt(i), next, Zero()))
    ensures ForSupervisor(h, i) ==> Delivered(h, next, ToSupervisor(i), TakeTrap(h, Interrupt(i), next, Zero()))
  {
    CauseNum(Interrupt(i));
  }

  /** The interrupt the simulator takes is the architecture's choice, and it lands in the mode it is for. */
  lemma InterruptDelivery(h: Hart, next: Word) returns (c: Choice)
    requires Inv(h)
    ensures Chosen(h, c) && Delivered(h, next, c, TakeInterrupts(h, next))
    ensures h.priv == 3 && !MieSet(h.mstatus) ==> c.NoInterrupt?
  {
    SetsConfined(h);
    var w := Interrupts(h);
    var i := FirstIrq(w, 1);
    FirstIsLowest(w, 1);
    ConfinedBits(MachineInterrupts(h));
    ConfinedBits(SupervisorInterrupts(h));
    forall j: nat | j < 12 ensures HasBit(MachineInterrupts(h), j) == ForMachine(h, j) { MachineSet(h, j); }
    forall j: nat | j < 12 ensures HasBit(SupervisorInterrupts(h), j) == ForSupervisor(h, j) { SupervisorSet(h, j); }
    if i < 12 { TrapDelivers(h, next, i); }
    if w == Zero() {
      forall j: nat | j < 12 ensures !HasBit(Zero(), j) { NoBitOfZero(j); }
      c := NoInterrupt;
    } else if MachineInterrupts(h) != Zero() {
      c := ToMachine(i);
    } else {
      forall j: nat | j < 12 ensures !HasBit(Zero(), j) { NoBitOfZero(j); }
      c := ToSupervisor(i);
    }
  }

  // ---------------------------------------------------------------------------------------------
  // Causes as numbers

  predicate Proper(c: Cause) { match c case Exception(code) => code < 16 case Interrupt(irq) => irq < 12 }

  /** The cause codes of the Privileged Architecture, section 3.1.15: interrupts have the top bit set. */
  function CauseNumber(c: Cause): int { match c case Exception(code) => code case Interrupt(irq) => 0x8000_0000 + irq }

  predicate SmallCode(x: bv32) { x < 16 }

  lemma SmallCodeNum(x: bv32)
    ensures SmallCode(x) <==> Num(x) < 16
  {
    NumIsInt(16);
    SixteenInt();
    LessNum(x, 16);
  }

  lemma SixteenInt()
    ensures AsInt(16) == 16
  {
  }

  lemma CodeWordIs(code: nat, x: bv32)
    requires code < 16 && x == OfInt(code)
    ensures CodeWord(code) == Word(x) && Num(x) == code && SmallCode(x)
  {
    Converted(code);
    SmallCodeNum(x);
  }

  lemma TopAdded(x: bv32)
    requires SmallCode(x)
    ensures 0x8000_0000 | x == Plus(x, 0x8000_0000)
  {
  }

  lemma InterruptNum(x: bv32)
    requires SmallCode(x)
    ensures Num(InterruptWord(Word(x)).bits) == 0x8000_0000 + Num(x)
  {
    TopAdded(x);
    SmallCodeNum(x);
    TopNum();
    PlusNum(x, 0x8000_0000);
  }

  lemma CauseNum(c: Cause)
    requires Proper(c)
    ensures Num(CauseWord(c).bits) == CauseNumber(c)
  {
    match c
    case Exception(code) => CodeWordIs(code, OfInt(code));
    case Interrupt(irq) =>
      CodeWordIs(irq, OfInt(irq));
      InterruptNum(OfInt(irq));
  }

  lemma CodesKept(x: bv32)
    requires SmallCode(x)
    ensures AndBits(x, 0x8000_000F) == x && AndBits(0x8000_0000 | x, 0x8000_000F) == 0x8000_0000 | x
  {
  }

  /** Reading the cause through its CSR shows the same number. */
  lemma CauseShown(c: Cause)
    requires Proper(c)
    ensures Masked(CauseWord(c), 0x8000_000F) == CauseWord(c)
  {
    var x := match c case Exception(code) => OfInt(code) case Interrupt(irq) => OfInt(irq);
    match c
    case Exception(code) =>
      CodeWordIs(code, x);
      CodesKept(x);
    case Interrupt(irq) =>
      CodeWordIs(irq, x);
      CodesKept(x);
  }

  /** HasBit is the binary digit. */
  lemma NextBit(x: bv32, i: nat)
    requires 0 < i < 16
    ensures BitSet(x, i) == BitSet(HalfOf(x), i - 1)
  {
    match i
    case 1 => case 2 => case 3 => case 4 => case 5 => case 6 => case 7 => case 8 =>
    case 9 => case 10 => case 11 => case 12 => case 13 => case 14 => case _ =>
  }

  lemma {:induction false} BitSetIsBit(x: bv32, i: nat)
    requires i < 16
    ensures BitSet(x, i) == Bit(x, i)
    decreases i
  {
    if i > 0 {
      NextBit(x, i);
      BitSetIsBit(HalfOf(x), i - 1);
    }
  }

  lemma HasBitIsDigit(w: Word, i: nat)
    requires i < 16
    ensures HasBit(w, i) == Digit(w.bits, i)
  {
    BitSetIsBit(w.bits, i);
    BitIsDigit(w.bits, i);
  }

  // ---------------------------------------------------------------------------------------------
  // Timer and external interrupt

  lemma SetBit(x: bv32, i: nat)
    requires i < 16
    ensures BitSet(OrBits(x, 0x20), i) == (BitSet(x, i) || i == 5)
    ensures BitSet(OrBits(x, 0x80), i) == (BitSet(x, i) || i == 7)
    ensures BitSet(OrBits(x, 0x800), i) == (BitSet(x, i) || i == 11)
  {
    match i
    case 0 => case 1 => case 2 => case 3 => case 4 => case 5 => case 6 => case 7 =>
    case 8 => case 9 => case 10 => case 11 => case 12 => case 13 => case 14 => case _ =>
  }

  lemma OneInt()
    ensures AsInt(1) == 1
  {
  }

  /** The timer counts, and its interrupt becomes pending exactly when it reaches the threshold. */
  lemma TimerTicks(h: Hart, i: nat)
    requires i < 16
    ensures var t := Tick(h);
      && t == h.(mtime := t.mtime, mip := t.mip) && Num(t.mtime.bits) == Modulo(Num(h.mtime.bits) + 1)
      && (HasBit(t.mip, i) <==>
          HasBit(h.mip, i) || (t.mtime == h.mtimecmp && i == if HasBit(h.mideleg, 5) then 5 else 7))
  {
    OneInt();
    NumIsInt(1);
    PlusNum(h.mtime.bits, 1);
    SetBit(h.mip.bits, i);
  }

  /** The external interrupt line makes interrupt 11 pending and nothing else. */
  lemma ExternalRaised(h: Hart, irq: bool, i: nat)
    requires i < 16
    ensures var t := RaiseExternal(h, irq);
      t == h.(mip := t.mip) && (HasBit(t.mip, i) <==> HasBit(h.mip, i) || (irq && i == 11))
  {
    SetBit(h.mip.bits, i);
  }

  // ---------------------------------------------------------------------------------------------
  // Trap entry

  /** The trap goes to supervisor mode: it comes from there or below, and its bit is set in the delegation register. */
  predicate Delegates(h: Hart, c: Cause) {
    h.priv <= 1 &&
    match c
    case Exception(code) => Digit(h.medeleg.bits, code)
    case Interrupt(irq) => Digit(h.mideleg.bits, irq)
  }

  /** The hart after trap entry: everything that has changed, causes as numbers and the status as fields. */
  predicate Entered(h: Hart, c: Cause, pc: Word, badaddr: Word, t: Hart) {
    var s := StatusOf(h.mstatus);
    if Delegates(h, c) then
      && t == h.(priv := 1, mstatus := t.mstatus, sepc := pc, scause := t.scause, stval := badaddr, pc := h.stvec)
      && Num(t.scause.bits) == CauseNumber(c)
      && StatusOf(t.mstatus) == s.(sie := false, spie := s.sie, spp := h.priv == 1)
    else
      && t == h.(priv := 3, mstatus := t.mstatus, mepc := pc, mcause := t.mcause, pc := h.mtvec)
      && Num(t.mcause.bits) == CauseNumber(c) && StatusOf(t.mstatus) == s.(mie := false, mpie := s.mie, mpp := h.priv)
  }

  lemma TrapEntry(h: Hart, c: Cause, pc: Word, badaddr: Word)
    requires h.priv <= 3 && Proper(c)
    ensures Entered(h, c, pc, badaddr, TakeTrap(h, c, pc, badaddr))
  {
    CauseNum(c);
    match c {
      case Exception(code) => HasBitIsDigit(h.medeleg, code);
      case Interrupt(irq) => HasBitIsDigit(h.mideleg, irq);
    }
    PushSupervisorFields(h.mstatus, h.priv);
    PushMachineFields(h.mstatus, h.priv);
  }

  /** ECALL and EBREAK trap at their own address, with the code of the mode and code 3. */
  lemma CallsTrap(h: Hart, console: Word)
    requires h.priv <= 3
    ensures var e := ExecInstr(h, Ecall, console); e.Trapped? && Entered(h, Exception(8 + h.priv), h.pc, Zero(), e.h)
    ensures var e := ExecInstr(h, Ebreak, console); e.Trapped? && Entered(h, Exception(3), h.pc, Zero(), e.h)
  {
    CallTraps(h, console, ExecInstr(h, Ecall, console));
    BreakTraps(h, console, ExecInstr(h, Ebreak, console));
  }

  lemma CallTraps(h: Hart, console: Word, e: Effect)
    requires h.priv <= 3 && e == ExecInstr(h, Ecall, console)
    ensures e.Trapped? && Entered(h, Exception(8 + h.priv), h.pc, Zero(), e.h)
  {
    TrapEntry(h, Exception(8 + h.priv), h.pc, Zero());
  }

  lemma BreakTraps(h: Hart, console: Word, e: Effect)
    requires h.priv <= 3 && e == ExecInstr(h, Ebreak, console)
    ensures e.Trapped? && Entered(h, Exception(3), h.pc, Zero(), e.h)
  {
    TrapEntry(h, Exception(3), h.pc, Zero());
  }

  /**
   * A page fault traps at the instruction, with the address and the code of the access: fetch 12, load 13,
   * store 15.
   */
  lemma PageFaultsTrap(h: Hart, i: Instr, console: Word)
    requires h.priv <= 3
    ensures Translate(h, h.pc, Fetch).PageFault? ==>
      var o := Execute(h, console); o.Running? && Entered(h, Exception(12), h.pc, h.pc, o.hart)
    ensures i.Load? && Translate(h, Add(Reg(h, i.rs1), i.imm), Read).PageFault? ==>
      var e := ExecInstr(h, i, console);
      e.Trapped? && Entered(h, Exception(13), h.pc, Add(Reg(h, i.rs1), i.imm), e.h)
    ensures i.Store? && Translate(h, Add(Reg(h, i.rs1), i.imm), Write).PageFault? ==>
      var e := ExecInstr(h, i, console);
      e.Trapped? && Entered(h, Exception(15), h.pc, Add(Reg(h, i.rs1), i.imm), e.h)
  {
    TrapEntry(h, Exception(12), h.pc, h.pc);
    if i.Load? { TrapEntry(h, Exception(13), h.pc, Add(Reg(h, i.rs1), i.imm)); }
    if i.Store? { TrapEntry(h, Exception(15), h.pc, Add(Reg(h, i.rs1), i.imm)); }
  }

  /**
   * A whole execution: an instruction that completes writes its register, and then the interrupt that the
   * architecture picks is taken in front of the next instruction. One that traps goes to its trap.
   */
  lemma ExecutionEnds(h: Hart, console: Word, pa: Word, i: Instr) returns (c: Choice)
    requires Inv(h) && Translate(h, h.pc, Fetch) == Physical(pa) && Mapped(h.mem, pa) && Aligned(Full, pa)
    requires i == Decode(h.mem[WordNumber(pa)].bits)
    ensures match ExecInstr(h, i, console)
            case Stop => Execute(h, console) == Halted
            case Trapped(t) => Execute(h, console) == Running(t)
            case Retire(k, rd, value, next) =>
              var w := SetReg(k, rd, value);
              Execute(h, console).Running? && Chosen(w, c) && Delivered(w, next, c, Execute(h, console).hart)
  {
    c := NoInterrupt;
    var e := ExecInstr(h, i, console);
    InstrKeeps(h, i, console, e);
    if e.Retire? { c := InterruptDelivery(SetReg(e.h, e.rd, e.value), e.next); }
  }

  // ---------------------------------------------------------------------------------------------
  // The status register as the fields that traps save and restore

  datatype Status = Status(sie: bool, mie: bool, spie: bool, mpie: bool, spp: bool, mpp: nat, rest: bv32)

  function StatusOf(w: Word): Status { StatusBits(w.bits) }

  function StatusBits(s: bv32): Status {
    Status(BitSet(s, 1), BitSet(s, 3), BitSet(s, 5), BitSet(s, 7), BitSet(s, 8), MppLevel(MppField(s)), OtherBits(s))
  }

  function OtherBits(s: bv32): bv32 { s & !0x19AA }

  lemma PushSBit(s: bv32, spie: bool, spp: bool, i: nat)
    requires i == 1 || i == 3 || i == 5 || i == 7 || i == 8
    ensures BitSet(PushS(s, IfBits(spie, 0x20), IfBits(spp, 0x100)), i) ==
      (if i == 1 then false else if i == 5 then spie else if i == 8 then spp else BitSet(s, i))
  {
    match i case 1 => case 3 => case 5 => case 7 => case _ =>
  }

  lemma PushSMpp(s: bv32, spie: bool, spp: bool)
    ensures MppField(PushS(s, IfBits(spie, 0x20), IfBits(spp, 0x100))) == MppField(s)
  {
  }

  lemma PushSOther(s: bv32, spie: bool, spp: bool)
    ensures OtherBits(PushS(s, IfBits(spie, 0x20), IfBits(spp, 0x100))) == OtherBits(s)
  {
  }

  lemma PushMBit(s: bv32, mpie: bool, mpp: bv32, i: nat)
    requires i == 1 || i == 3 || i == 5 || i == 7 || i == 8
    requires MppField(mpp) == mpp
    ensures BitSet(PushM(s, IfBits(mpie, 0x80), mpp), i) ==
      (if i == 3 then false else if i == 7 then mpie else BitSet(s, i))
  {
    match i case 1 => case 3 => case 5 => case 7 => case _ =>
  }

  lemma PushMMpp(s: bv32, mpie: bool, mpp: bv32)
    requires MppField(mpp) == mpp
    ensures MppField(PushM(s, IfBits(mpie, 0x80), mpp)) == mpp
  {
  }

  lemma PushMOther(s: bv32, mpie: bool, mpp: bv32)
    requires MppField(mpp) == mpp
    ensures OtherBits(PushM(s, IfBits(mpie, 0x80), mpp)) == OtherBits(s)
  {
  }

  lemma PopSBit(s: bv32, sie: bool, i: nat)
    requires i == 1 || i == 3 || i == 5 || i == 7 || i == 8
    ensures BitSet(PopS(s, IfBits(sie, 0x2)), i) ==
      (if i == 1 then sie else if i == 5 then true else if i == 8 then false else BitSet(s, i))
  {
    match i case 1 => case 3 => case 5 => case 7 => case _ =>
  }

  lemma PopSMpp(s: bv32, sie: bool)
    ensures MppField(PopS(s, IfBits(sie, 0x2))) == MppField(s)
  {
  }

  lemma PopSOther(s: bv32, sie: bool)
    ensures OtherBits(PopS(s, IfBits(sie, 0x2))) == OtherBits(s)
  {
  }

  lemma PopMBit(s: bv32, mie: bool, i: nat)
    requires i == 1 || i == 3 || i == 5 || i == 7 || i == 8
    ensures BitSet(PopM(s, IfBits(mie, 0x8)), i) == (if i == 3 then mie else if i == 7 then true else BitSet(s, i))
  {
    match i case 1 => case 3 => case 5 => case 7 => case _ =>
  }

  lemma PopMMpp(s: bv32, mie: bool)
    ensures MppField(PopM(s, IfBits(mie, 0x8))) == 0
  {
  }

  lemma PopMOther(s: bv32, mie: bool)
    ensures OtherBits(PopM(s, IfBits(mie, 0x8))) == OtherBits(s)
  {
  }

  lemma PushSupervisorFields(w: Word, priv: nat)
    ensures StatusOf(PushSupervisor(w, priv)) ==
      StatusOf(w).(sie := false, spie := StatusOf(w).sie, spp := priv == 1)
  {
    PushSMpp(w.bits, HasBit(w, 1), priv == 1);
    PushSOther(w.bits, HasBit(w, 1), priv == 1);
    PushSBit(w.bits, HasBit(w, 1), priv == 1, 1);
    PushSBit(w.bits, HasBit(w, 1), priv == 1, 3);
    PushSBit(w.bits, HasBit(w, 1), priv == 1, 5);
    PushSBit(w.bits, HasBit(w, 1), priv == 1, 7);
    PushSBit(w.bits, HasBit(w, 1), priv == 1, 8);
  }

  lemma PushMachineFields(w: Word, priv: nat)
    requires priv <= 3
    ensures StatusOf(PushMachine(w, priv)) ==
      StatusOf(w).(mie := false, mpie := StatusOf(w).mie, mpp := priv)
  {
    MppRoundTrip(priv);
    PushMMpp(w.bits, HasBit(w, 3), MppBits(priv));
    PushMOther(w.bits, HasBit(w, 3), MppBits(priv));
    PushMBit(w.bits, HasBit(w, 3), MppBits(priv), 1);
    PushMBit(w.bits, HasBit(w, 3), MppBits(priv), 3);
    PushMBit(w.bits, HasBit(w, 3), MppBits(priv), 5);
    PushMBit(w.bits, HasBit(w, 3), MppBits(priv), 7);
    PushMBit(w.bits, HasBit(w, 3), MppBits(priv), 8);
  }

  lemma MppRoundTrip(priv: nat)
    requires priv <= 3
    ensures MppField(MppBits(priv)) == MppBits(priv) && MppLevel(MppBits(priv)) == priv
  {
  }

  lemma PopSupervisorFields(w: Word)
    ensures StatusOf(PopSupervisor(w)) == StatusOf(w).(sie := StatusOf(w).spie, spie := true, spp := false)
  {
    PopSMpp(w.bits, HasBit(w, 5));
    PopSOther(w.bits, HasBit(w, 5));
    PopSBit(w.bits, HasBit(w, 5), 1);
    PopSBit(w.bits, HasBit(w, 5), 3);
    PopSBit(w.bits, HasBit(w, 5), 5);
    PopSBit(w.bits, HasBit(w, 5), 7);
    PopSBit(w.bits, HasBit(w, 5), 8);
  }

  lemma PopMachineFields(w: Word)
    ensures StatusOf(PopMachine(w)) == StatusOf(w).(mie := StatusOf(w).mpie, mpie := true, mpp := 0)
  {
    PopMMpp(w.bits, HasBit(w, 7));
    PopMOther(w.bits, HasBit(w, 7));
    PopMBit(w.bits, HasBit(w, 7), 1);
    PopMBit(w.bits, HasBit(w, 7), 3);
    PopMBit(w.bits, HasBit(w, 7), 5);
    PopMBit(w.bits, HasBit(w, 7), 7);
    PopMBit(w.bits, HasBit(w, 7), 8);
  }

  // ---------------------------------------------------------------------------------------------
  // Nesting: a trap into supervisor mode, interrupted by a trap into machine mode, unwinds

  /** What code between a trap into machine mode and the MRET may change: anything but these. */
  predicate MachineFrameKept(a: Hart, b: Hart) {
    var x, y := StatusOf(a.mstatus), StatusOf(b.mstatus);
    && b.priv == 3 && b.mepc == a.mepc && y.mpie == x.mpie && y.mpp == x.mpp
    && SupervisorSaves(a, b) && y.sie == x.sie
  }

  /** What a supervisor handler keeps up to its SRET. */
  predicate SupervisorFrameKept(a: Hart, b: Hart) {
    b.priv == 1 && SupervisorSaves(a, b) && StatusOf(b.mstatus).mie == StatusOf(a.mstatus).mie
  }

  predicate SupervisorSaves(a: Hart, b: Hart) {
    var x, y := StatusOf(a.mstatus), StatusOf(b.mstatus);
    b.sepc == a.sepc && y.spie == x.spie && y.spp == x.spp
  }

  /** The hart after an instruction that completes, before interrupts are looked at. */
  function Completed(e: Effect): Hart
    requires e.Retire?
  {
    e.h.(pc := e.next)
  }

  lemma MretReturns(trapped: Hart, back: Hart, console: Word)
    requires MachineFrameKept(trapped, back)
    ensures var e := ExecInstr(back, Mret, console);
      && e.Retire? && e.rd == 0
      && var r := Completed(e);
        && r.pc == trapped.mepc && r.priv == StatusOf(trapped.mstatus).mpp
        && StatusOf(r.mstatus).mie == StatusOf(trapped.mstatus).mpie
        && StatusOf(r.mstatus).sie == StatusOf(trapped.mstatus).sie && SupervisorSaves(trapped, r)
  {
    PopMachineFields(back.mstatus);
  }

  lemma SretReturns(trapped: Hart, back: Hart, console: Word)
    requires SupervisorFrameKept(trapped, back)
    ensures var e := ExecInstr(back, Sret, console);
      && e.Retire? && e.rd == 0
      && var r := Completed(e);
        && r.pc == trapped.sepc && r.priv == (if StatusOf(trapped.mstatus).spp then 1 else 0)
        && StatusOf(r.mstatus).sie == StatusOf(trapped.mstatus).spie
        && StatusOf(r.mstatus).mie == StatusOf(trapped.mstatus).mie
  {
    PopSupervisorFields(back.mstatus);
  }

  /** A trap into machine mode from anywhere returns to the same pc, privilege and enable bits. */
  lemma MachineTrapReturns(h: Hart, c: Cause, pc: Word, badaddr: Word, back: Hart, console: Word)
    requires h.priv <= 3 && !Delegated(h, c)
    requires MachineFrameKept(TakeTrap(h, c, pc, badaddr), back)
    ensures var e := ExecInstr(back, Mret, console);
      && e.Retire?
      && var r := Completed(e);
        && r.pc == pc && r.priv == h.priv && SupervisorSaves(h, r)
        && StatusOf(r.mstatus).mie == StatusOf(h.mstatus).mie && StatusOf(r.mstatus).sie == StatusOf(h.mstatus).sie
  {
    PushMachineFields(h.mstatus, h.priv);
    MretReturns(TakeTrap(h, c, pc, badaddr), back, console);
  }

  /**
   * From user or supervisor mode: a delegated trap, then in its handler a trap that is not delegated,
   * then MRET, then SRET. The first pc, the privilege level and both interrupt enables come back.
   */
  lemma NestedTrapsUnwind(h: Hart, c1: Cause, pc1: Word, bad1: Word, inS: Hart, c2: Cause, pc2: Word, bad2: Word,
                          inM: Hart, backInS: Hart, console: Word)
    requires h.priv <= 1 && Delegated(h, c1)
    requires SupervisorFrameKept(TakeTrap(h, c1, pc1, bad1), inS)
    requires !Delegated(inS, c2)
    requires MachineFrameKept(TakeTrap(inS, c2, pc2, bad2), inM)
    requires ExecInstr(inM, Mret, console).Retire? ==>
      SupervisorFrameKept(Completed(ExecInstr(inM, Mret, console)), backInS)
    ensures var m := ExecInstr(inM, Mret, console);
      && m.Retire? && Completed(m).pc == pc2 && Completed(m).priv == 1
      && var s := ExecInstr(backInS, Sret, console);
        && s.Retire?
        && var r := Completed(s);
          && r.pc == pc1 && r.priv == h.priv
          && StatusOf(r.mstatus).sie == StatusOf(h.mstatus).sie && StatusOf(r.mstatus).mie == StatusOf(h.mstatus).mie
  {
    var trapped := TakeTrap(h, c1, pc1, bad1);
    PushSupervisorFields(h.mstatus, h.priv);
    MachineTrapReturns(inS, c2, pc2, bad2, inM, console);
    SretReturns(trapped, backInS, console);
  }
}
