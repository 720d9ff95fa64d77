// The simulator as the object it is: registers and CSRs updated in place, memory behind the bus.
// Every method is proved against the state machine of Exec.
module Machine {
  import opened Words
  import opened Isa
  import opened Hart
  import opened Mmu
  import opened Exec
  import opened Regions

  lemma PteAligned(base: bv32, index: bv32)
    requires base & 3 == 0
    ensures (base + (index << 2)) & 3 == 0
  {
  }

  lemma PageAligned(page: bv32)
    ensures (page << 12) & 3 == 0
  {
  }

  lemma FullRead(mem: Memory, a: Word)
    requires Mapped(mem, a) && Aligned(Full, a)
    ensures LoadMem(mem, a, Full, false) == Loaded(mem[WordNumber(a)])
  {
    FullField(mem[WordNumber(a)].bits);
  }

  function PageFaultCause(access: Access): Cause {
    match access case Fetch => Exception(12) case Read => Exception(13) case Write => Exception(15)
  }

  /** How an instruction left the simulator: the values of its locals rd, reg_rd and pc, or none. */
  datatype Flow = Stopped | TrapTaken | Done(rd: bv5, value: Word, next: Word)

  /** The locals of an instruction agree with its effect, which left the hart at h. */
  predicate FlowIs(e: Effect, f: Flow, h: Hart) {
    match e
    case Stop => f.Stopped?
    case Trapped(h') => f.TrapTaken? && h == h'
    case Retire(h', rd, value, next) => f == Done(rd, value, next) && h == h'
  }

  predicate IsComputation(i: Instr) { i.AluImm? || i.Alu? || i.MulDiv? || i.Lui? || i.Auipc? }
  predicate IsFlowOnly(i: Instr) { i.Jal? || i.Jalr? || i.Branch? || i.Wfi? || i.Fence? || i.Illegal? }

  lemma ConsoleUnread(h: Hart, i: Instr, console: Word)
    requires !i.Csr?
    ensures ExecInstr(h, i, console) == ExecInstr(h, i, Zero())
  {
  }

  /** What is left of a step after the effect of its instruction, up to the timer. */
  function Completion(e: Effect): Outcome {
    match e
    case Stop => Halted
    case Trapped(h) => Running(h)
    case Retire(h, rd, value, next) => Running(TakeInterrupts(SetReg(h, rd, value), next))
  }

  function Fetched(mem: Memory, pa: Word): Loaded {
    if Mapped(mem, pa) then LoadMem(mem, pa, Full, false) else Loaded(Zero())
  }

  lemma FetchedExecutes(h: Hart, console: Word, pa: Word, opcode: Loaded)
    requires Translate(h, h.pc, Fetch) == Physical(pa) && opcode == Fetched(h.mem, pa)
    ensures Execute(h, console) ==
      if opcode.LoadHalt? then Halted else Completion(ExecInstr(h, Decode(opcode.value.bits), console))
  {
    if Mapped(h.mem, pa) && Aligned(Full, pa) {
      FullRead(h.mem, pa);
    } else if !Mapped(h.mem, pa) {
      NoInstruction();
    }
  }

  lemma NoInstruction()
    ensures Decode(0) == Illegal
  {
  }

  class Riscv {
    const gpr: array<Word>
    var pc: Word
    var priv: nat
    var mstatus: Word
    var mepc: Word
    var mcause: Word
    var mtvec: Word
    var mscratch: Word
    var mie: Word
    var mip: Word
    var mideleg: Word
    var medeleg: Word
    var mtime: Word
    var mtimecmp: Word
    var sepc: Word
    var stvec: Word
    var scause: Word
    var stval: Word
    var satp: Word
    var sscratch: Word
    const bus: Bus

    ghost predicate Valid()
      reads this, bus, bus.Devices()
    {
      gpr.Length == 32 && bus.Valid()
    }

    /** The state of the hart that the fields hold. */
    ghost function State(): Hart
      requires gpr.Length == 32
      reads this, gpr, bus
    {
      Hart(gpr[..], pc, priv, mstatus, mepc, mcause, mtvec, mscratch, mie, mip, mideleg, medeleg, mtime, mtimecmp,
           sepc, stvec, scause, stval, satp, sscratch, bus.image)
    }

    constructor (bus: Bus, start: Word)
      requires bus.Valid()
      ensures Valid() && this.bus == bus && fresh(gpr) && State() == Reset(start, bus.image)
    {
      this.bus := bus;
      gpr := new Word[32](_ => Zero());
      pc, priv := start, 3;
      mstatus, mepc, mcause, mtvec, mscratch, mie, mip := Zero(), Zero(), Zero(), Zero(), Zero(), Zero(), Zero();
      mideleg, medeleg, mtime, mtimecmp := Zero(), Zero(), Zero(), Zero();
      sepc, stvec, scause, stval, satp, sscratch := Zero(), Zero(), Zero(), Zero(), Zero(), Zero();
      new;
      assert gpr[..] == seq(32, _ => Zero());
    }

    method SetInterrupt()
      requires Valid()
      modifies this
      ensures Valid() && State() == RaiseExternal(old(State()), true)
    {
      mip := Or(mip, Word(0x800));
    }

    method WriteSupervisorTrap(s: Word, cause: Word, epc: Word, badaddr: Word)
      modifies this`priv, this`mstatus, this`sepc, this`scause, this`stval, this`pc
      ensures priv == 1 && mstatus == s && sepc == epc && scause == cause && stval == badaddr && pc == stvec
    {
      priv := 1;
      mstatus := s;
      sepc := epc;
      scause := cause;
      stval := badaddr;
      pc := stvec;
    }

    method WriteMachineTrap(s: Word, cause: Word, epc: Word)
      modifies this`priv, this`mstatus, this`mepc, this`mcause, this`pc
      ensures priv == 3 && mstatus == s && mepc == epc && mcause == cause && pc == mtvec
    {
      priv := 3;
      mstatus := s;
      mepc := epc;
      mcause := cause;
      pc := mtvec;
    }

    method EnterSupervisor(s: Word, cause: Word, epc: Word, badaddr: Word)
      requires Valid()
      modifies this
      ensures Valid() && State() == old(State()).(
        priv := 1, mstatus := s, sepc := epc, scause := cause, stval := badaddr, pc := old(stvec))
    {
      WriteSupervisorTrap(s, cause, epc, badaddr);
    }

    method EnterMachine(s: Word, cause: Word, epc: Word)
      requires Valid()
      modifies this
      ensures Valid() && State() == old(State()).(
        priv := 3, mstatus := s, mepc := epc, mcause := cause, pc := old(mtvec))
    {
      WriteMachineTrap(s, cause, epc);
    }

    /** Trap entry: into supervisor mode when the cause is delegated, else into machine mode. */
    method TakeException(c: Cause, epc: Word, badaddr: Word)
      requires Valid()
      modifies this
      ensures Valid() && State() == TakeTrap(old(State()), c, epc, badaddr)
    {
      var deleg := if c.Interrupt? then HasBit(mideleg, c.irq) else HasBit(medeleg, c.code);
      if priv <= 1 && deleg {
        EnterSupervisor(PushSupervisor(mstatus, priv), CauseWord(c), epc, badaddr);
      } else {
        EnterMachine(PushMachine(mstatus, priv), CauseWord(c), epc);
      }
    }

    /** The page-table walk, entry by entry. */
    method Walk(addr: Word) returns (w: Walk)
      requires Valid()
      ensures w == MmuWalk(bus.image, satp, addr)
    {
      if !SatpMode(satp) {
        return Entry(BareEntry(addr));
      }
      var base := PageBase(SatpPpn(satp));
      var i := 1;
      PageAligned(SatpPpn(satp).bits);
      while true
        invariant -1 <= i <= 1 && Aligned(Full, base)
        invariant MmuWalk(bus.image, satp, addr) == WalkFrom(bus.image, base, addr, i)
        decreases i + 1
      {
        var a := PteAddress(base, Index(addr, i));
        PteAligned(base.bits, Index(addr, i).bits);
        var found, value := bus.ReadWord(a);
        if !found {
          return Entry(Zero());
        }
        FullRead(bus.image, a);
        var pte := value.value;
        if !Mmu.Valid(pte) {
          return Entry(Zero());
        } else if i < 0 {
          return WalkHalt;
        } else if Pointer(pte) {
          base := PageBase(Ppn(pte));
          PageAligned(Ppn(pte).bits);
          i := i - 1;
        } else {
          var page := FakePage(pte, if i == 1 then Index0(addr) else Zero());
          var there, _ := bus.ReadWord(PageBase(page));
          return if TooHigh(page) || !there then WalkHalt else Entry(MakeEntry(page, pte));
        }
      }
    }

    /** Address translation for a fetch, load or store. A page fault has been taken when it is reported. */
    method MmuTranslate(addr: Word, access: Access, epc: Word) returns (t: Translation)
      requires Valid()
      modifies this
      ensures Valid() && t == Translate(old(State()), addr, access)
      ensures State() ==
        if t.PageFault? then TakeTrap(old(State()), PageFaultCause(access), epc, addr) else old(State())
    {
      if priv > 1 {
        return Physical(addr);
      }
      var w := Walk(addr);
      if w.WalkHalt? {
        return TranslateHalt;
      }
      t := CheckEntry(w.pte, priv, access, SumSet(mstatus), addr);
      if t.PageFault? {
        TakeException(PageFaultCause(access), epc, addr);
      }
    }

    /** A load: a value, a page fault already taken, or the end of the simulation. */
    method LoadWord(addr: Word, width: Width, sext: bool) returns (f: Flow)
      requires Valid()
      modifies this
      ensures Valid()
      ensures match Translate(old(State()), addr, Read)
              case TranslateHalt => f.Stopped?
              case PageFault => f.TrapTaken? && State() == TakeTrap(old(State()), Exception(13), old(pc), addr)
              case Physical(pa) =>
                State() == old(State()) &&
                match LoadMem(old(bus.image), pa, width, sext)
                case LoadHalt => f.Stopped?
                case Loaded(value) => f == Done(0, value, NextPc(old(pc)))
    {
      var t := MmuTranslate(addr, Read, pc);
      match t
      case TranslateHalt => f := Stopped;
      case PageFault => f := TrapTaken;
      case Physical(pa) =>
        var r := bus.Load(pa, width, sext);
        f := if r.LoadHalt? then Stopped else Done(0, r.value, NextPc(pc));
    }

    method StoreWord(addr: Word, data: Word, width: Width) returns (f: Flow)
      requires Valid()
      modifies this, bus`image, bus`contents, bus.Devices()
      ensures Valid()
      ensures match Translate(old(State()), addr, Write)
              case TranslateHalt => f.Stopped?
              case PageFault => f.TrapTaken? && State() == TakeTrap(old(State()), Exception(15), old(pc), addr)
              case Physical(pa) =>
                match StoreMem(old(bus.image), pa, data, width)
                case StoreHalt => f.Stopped?
                case Stored(mem) => f == Done(0, Zero(), NextPc(old(pc))) && State() == old(State()).(mem := mem)
    {
      var t := MmuTranslate(addr, Write, pc);
      match t
      case TranslateHalt => f := Stopped;
      case PageFault => f := TrapTaken;
      case Physical(pa) =>
        var ok := bus.Store(pa, data, width);
        f := if ok then Done(0, Zero(), NextPc(pc)) else Stopped;
    }

    function ReadCsr(name: CsrName): (x: Word)
      requires gpr.Length == 32 && HasRegister(name)
      reads this, gpr, bus
      ensures x == GetCsr(State(), name)
    {
      match name
      case Mepc => mepc
      case Mtvec => mtvec
      case Mcause => mcause
      case Mstatus => mstatus
      case Mip => mip
      case Mie => mie
      case Mideleg => mideleg
      case Medeleg => medeleg
      case Mscratch => mscratch
      case Sepc => sepc
      case Stvec => stvec
      case Scause => scause
      case Sip => mip
      case Sie => mie
      case Satp => satp
      case Stval => stval
      case Sscratch => sscratch
      case Sstatus => mstatus
    }

    method WriteTrapState(name: CsrName, x: Word)
      requires Valid() && (name.Mepc? || name.Mcause? || name.Mtvec?)
      modifies this
      ensures Valid() && State() == SetCsr(old(State()), name, x)
    {
      if name.Mepc? {
        mepc := x;
      } else if name.Mcause? {
        mcause := x;
      } else {
        mtvec := x;
      }
    }

    method WriteStatus(name: CsrName, x: Word)
      requires Valid() && (name.Mscratch? || name.Mstatus? || name.Sstatus?)
      modifies this
      ensures Valid() && State() == SetCsr(old(State()), name, x)
    {
      if name.Mscratch? {
        mscratch := x;
      } else {
        mstatus := x;
      }
    }

    method WriteInterrupts(name: CsrName, x: Word)
      requires Valid() && (name.Mip? || name.Sip? || name.Mie? || name.Sie?)
      modifies this
      ensures Valid() && State() == SetCsr(old(State()), name, x)
    {
      if name.Mip? || name.Sip? {
        mip := x;
      } else {
        mie := x;
      }
    }

    method WriteDelegation(name: CsrName, x: Word)
      requires Valid() && (name.Mideleg? || name.Medeleg?)
      modifies this
      ensures Valid() && State() == SetCsr(old(State()), name, x)
    {
      if name.Mideleg? {
        mideleg := x;
      } else {
        medeleg := x;
      }
    }

    method WriteSupervisorTrapState(name: CsrName, x: Word)
      requires Valid() && (name.Sepc? || name.Scause? || name.Stvec?)
      modifies this
      ensures Valid() && State() == SetCsr(old(State()), name, x)
    {
      if name.Sepc? {
        sepc := x;
      } else if name.Scause? {
        scause := x;
      } else {
        stvec := x;
      }
    }

    method WriteSupervisorOther(name: CsrName, x: Word)
      requires Valid() && (name.Stval? || name.Satp? || name.Sscratch?)
      modifies this
      ensures Valid() && State() == SetCsr(old(State()), name, x)
    {
      if name.Stval? {
        stval := x;
      } else if name.Satp? {
        satp := x;
      } else {
        sscratch := x;
      }
    }

    method WriteCsr(name: CsrName, x: Word)
      requires Valid() && HasRegister(name)
      modifies this
      ensures Valid() && State() == SetCsr(old(State()), name, x)
    {
      if name.Mepc? || name.Mcause? || name.Mtvec? {
        WriteTrapState(name, x);
      } else if name.Mscratch? || name.Mstatus? || name.Sstatus? {
        WriteStatus(name, x);
      } else if name.Mip? || name.Sip? || name.Mie? || name.Sie? {
        WriteInterrupts(name, x);
      } else if name.Mideleg? || name.Medeleg? {
        WriteDelegation(name, x);
      } else if name.Sepc? || name.Scause? || name.Stvec? {
        WriteSupervisorTrapState(name, x);
      } else {
        WriteSupervisorOther(name, x);
      }
    }

    method WriteTime(data: Word, cop: CsrOp)
      requires Valid()
      modifies this
      ensures Valid() && State() == AccessTime(old(State()), data, cop).hart
    {
      if cop != CsrClear && data != Zero() {
        mtimecmp := data;
        mip := Clear(mip, if HasBit(mideleg, 5) then Word(0x20) else Word(0x80));
      }
    }

    method AccessRegister(name: CsrName, data: Word, cop: CsrOp) returns (value: Word)
      requires Valid() && HasRegister(name)
      modifies this
      ensures Valid() && value == Implemented(name, GetCsr(old(State()), name))
      ensures State() == SetCsr(old(State()), name, Update(cop, GetCsr(old(State()), name), Implemented(name, data)))
    {
      var masked := Implemented(name, data);
      value := Implemented(name, ReadCsr(name));
      if cop.CsrWrite? {
        WriteCsr(name, masked);
      } else if cop.CsrSet? {
        WriteCsr(name, Or(ReadCsr(name), masked));
      } else {
        WriteCsr(name, Clear(ReadCsr(name), masked));
      }
    }

    /** Reads a CSR and updates it. The simulation can end here. */
    method Access(csr: bv12, data: Word, cop: CsrOp, console: Word) returns (ok: bool, value: Word)
      requires Valid()
      modifies this
      ensures Valid()
      ensures match AccessCsr(old(State()), NameOf(csr), data, cop, console)
              case CsrHalt => !ok
              case CsrResult(h, v) => ok && State() == h && value == v
    {
      var name := NameOf(csr);
      ok, value := true, Zero();
      if HasRegister(name) {
        value := AccessRegister(name, data, cop);
      } else if name.SimCtrl? {
        ok := !SimExit(data);
        value := if SimGetChar(data) then console else Zero();
      } else if name.Misa? {
        value := Word(0x4014_1100);
      } else if name.NoCsr? {
        ok := false;
      } else if name.Mtime? {
        value := mtime;
        WriteTime(data, cop);
      }
    }

    /** MRET and SRET: the enable bit and the privilege come back from the status register. */
    method MachineReturn()
      requires Valid()
      modifies this
      ensures Valid() && State() == ReturnMachine(old(State()))
    {
      priv := GetMpp(mstatus);
      mstatus := PopMachine(mstatus);
    }

    method SupervisorReturn()
      requires Valid()
      modifies this
      ensures Valid() && State() == ReturnSupervisor(old(State()))
    {
      priv := GetSpp(mstatus);
      mstatus := PopSupervisor(mstatus);
    }

    /** The flow of an instruction that computes a value from registers. */
    function ComputeAluImm(i: Instr): (f: Flow)
      requires gpr.Length == 32 && i.AluImm?
      reads this, gpr, bus
      ensures FlowIs(ExecInstr(State(), i, Zero()), f, State())
    {
      if Defined(i.op, i.imm) then Done(i.rd, AluResult(i.op, gpr[RegIndex(i.rs1)], i.imm), NextPc(pc)) else Stopped
    }

    function ComputeAlu(i: Instr): (f: Flow)
      requires gpr.Length == 32 && i.Alu?
      reads this, gpr, bus
      ensures FlowIs(ExecInstr(State(), i, Zero()), f, State())
    {
      var b := gpr[RegIndex(i.rs2)];
      if Defined(i.op, b) then Done(i.rd, AluResult(i.op, gpr[RegIndex(i.rs1)], b), NextPc(pc)) else Stopped
    }

    function ComputeValue(i: Instr): (f: Flow)
      requires gpr.Length == 32 && IsComputation(i)
      reads this, gpr, bus
      ensures FlowIs(ExecInstr(State(), i, Zero()), f, State())
    {
      var next := NextPc(pc);
      match i
      case AluImm(_, _, _, _) => ComputeAluImm(i)
      case Alu(_, _, _, _) => ComputeAlu(i)
      case MulDiv(op, rd, rs1, rs2) => Done(rd, MulDivResult(op, gpr[RegIndex(rs1)], gpr[RegIndex(rs2)]), next)
      case Lui(rd, imm) => Done(rd, imm, next)
      case Auipc(rd, imm) => Done(rd, Add(imm, pc), next)
    }

    function ComputeJump(i: Instr): (f: Flow)
      requires gpr.Length == 32 && (i.Jal? || i.Jalr?)
      reads this, gpr, bus
      ensures FlowIs(ExecInstr(State(), i, Zero()), f, State())
    {
      match i
      case Jal(rd, imm) => Done(rd, NextPc(pc), Add(pc, imm))
      case Jalr(rd, rs1, imm) => Done(rd, NextPc(pc), JumpTarget(gpr[RegIndex(rs1)], imm))
    }

    function ComputeBranch(i: Instr): (f: Flow)
      requires gpr.Length == 32 && i.Branch?
      reads this, gpr, bus
      ensures FlowIs(ExecInstr(State(), i, Zero()), f, State())
    {
      var jumps := Exec.Taken(i.cond, gpr[RegIndex(i.rs1)], gpr[RegIndex(i.rs2)]);
      Done(0, Zero(), if jumps then Add(pc, i.imm) else NextPc(pc))
    }

    /** The flow of a jump, a branch, an instruction without effect or one that is not known. */
    function ComputeNext(i: Instr): (f: Flow)
      requires gpr.Length == 32 && IsFlowOnly(i)
      reads this, gpr, bus
      ensures FlowIs(ExecInstr(State(), i, Zero()), f, State())
    {
      match i
      case Jal(_, _) => ComputeJump(i)
      case Jalr(_, _, _) => ComputeJump(i)
      case Branch(_, _, _, _) => ComputeBranch(i)
      case Wfi => Done(0, Zero(), NextPc(pc))
      case Fence(rd) => Done(rd, Zero(), NextPc(pc))
      case Illegal => Stopped
    }

    method DispatchLoad(i: Instr) returns (f: Flow)
      requires Valid() && i.Load?
      modifies this
      ensures Valid() && FlowIs(ExecLoad(old(State()), i), f, State())
    {
      f := LoadWord(Add(gpr[RegIndex(i.rs1)], i.imm), i.width, i.sext);
      f := if f.Done? then f.(rd := i.rd) else f;
    }

    method DispatchStore(i: Instr) returns (f: Flow)
      requires Valid() && i.Store?
      modifies this, bus`image, bus`contents, bus.Devices()
      ensures Valid() && FlowIs(ExecStore(old(State()), i), f, State())
    {
      f := StoreWord(Add(gpr[RegIndex(i.rs1)], i.imm), gpr[RegIndex(i.rs2)], i.width);
    }

    method DispatchCsr(i: Instr, console: Word) returns (f: Flow)
      requires Valid() && i.Csr?
      modifies this
      ensures Valid() && FlowIs(ExecCsr(old(State()), i, console), f, State())
    {
      var data := if i.immediate then Widened(i.rs1) else gpr[RegIndex(i.rs1)];
      var next := NextPc(pc);
      var ok, value := Access(i.csr, data, i.cop, console);
      f := if ok then Done(i.rd, value, next) else Stopped;
    }

    method DispatchTrap(i: Instr, console: Word) returns (f: Flow)
      requires Valid() && (i.Ecall? || i.Ebreak?)
      modifies this
      ensures Valid() && FlowIs(ExecInstr(old(State()), i, console), f, State())
    {
      TakeException(Exception(if i.Ecall? then 8 + priv else 3), pc, Zero());
      f := TrapTaken;
    }

    method DispatchReturn(i: Instr, console: Word) returns (f: Flow)
      requires Valid() && (i.Mret? || i.Sret?)
      modifies this
      ensures Valid() && FlowIs(ExecInstr(old(State()), i, console), f, State())
    {
      if i.Mret? && priv == 3 {
        f := Done(0, Zero(), mepc);
        MachineReturn();
      } else if i.Sret? && priv == 1 {
        f := Done(0, Zero(), sepc);
        SupervisorReturn();
      } else {
        f := Stopped;
      }
    }

    /** An instruction up to its register write-back. */
    method Dispatch(i: Instr, console: Word) returns (f: Flow)
      requires Valid()
      modifies this, bus`image, bus`contents, bus.Devices()
      ensures Valid() && FlowIs(ExecInstr(old(State()), i, console), f, State())
    {
      if IsComputation(i) {
        f := ComputeValue(i);
        ConsoleUnread(State(), i, console);
      } else if IsFlowOnly(i) {
        f := ComputeNext(i);
        ConsoleUnread(State(), i, console);
      } else if i.Load? {
        f := DispatchLoad(i);
      } else if i.Store? {
        f := DispatchStore(i);
      } else if i.Csr? {
        f := DispatchCsr(i, console);
      } else if i.Ecall? || i.Ebreak? {
        f := DispatchTrap(i, console);
      } else {
        f := DispatchReturn(i, console);
      }
    }

    method WriteBack(rd: bv5, value: Word)
      requires Valid()
      modifies gpr
      ensures Valid() && State() == SetReg(old(State()), rd, value)
    {
      if rd != 0 {
        gpr[RegIndex(rd)] := value;
      }
    }

    /** The enabled interrupts. */
    function Enabled(): (w: Word)
      requires gpr.Length == 32
      reads this, gpr, bus
      ensures w == Interrupts(State())
    {
      var pending := And(mip, mie);
      var m := if priv < 3 || (priv == 3 && MieSet(mstatus)) then Clear(pending, mideleg) else Zero();
      var s := if priv < 1 || (priv == 1 && SieSet(mstatus)) then And(pending, mideleg) else Zero();
      if m != Zero() then m else s
    }

    /** Between instructions: the lowest-numbered enabled interrupt is taken, or the next instruction is up. */
    method PendingInterrupt(next: Word)
      requires Valid()
      modifies this
      ensures Valid() && State() == TakeInterrupts(old(State()), next)
    {
      var interrupts := Enabled();
      var i := 1;
      while i < 12 && !HasBit(interrupts, i)
        invariant 1 <= i <= 12 && FirstIrq(interrupts, 1) == FirstIrq(interrupts, i)
      {
        i := i + 1;
      }
      if i < 12 {
        TakeException(Interrupt(i), next, Zero());
      } else {
        pc := next;
      }
    }

    /** Write-back and interrupts after an instruction that had the effect e. */
    method Complete(f: Flow, ghost e: Effect) returns (ok: bool)
      requires Valid() && FlowIs(e, f, State())
      modifies this, gpr
      ensures Valid()
      ensures match Completion(e) case Halted => !ok case Running(h) => ok && State() == h
    {
      ok := !f.Stopped?;
      if f.Done? {
        WriteBack(f.rd, f.value);
        PendingInterrupt(f.next);
      }
    }

    /** Fetch, execute, write back, and look for interrupts. False when the simulation ends. */
    method ExecuteOne(console: Word) returns (ok: bool)
      requires Valid()
      modifies this, gpr, bus`image, bus`contents, bus.Devices()
      ensures Valid()
      ensures match Execute(old(State()), console) case Halted => !ok case Running(h) => ok && State() == h
    {
      ghost var h := State();
      var t := MmuTranslate(pc, Fetch, pc);
      if !t.Physical? {
        return t.PageFault?;
      }
      var opcode := FetchWord(t.address);
      FetchedExecutes(h, console, t.address, opcode);
      if opcode.LoadHalt? {
        return false;
      }
      var i := Decode(opcode.value.bits);
      var f := Dispatch(i, console);
      ok := Complete(f, ExecInstr(h, i, console));
    }

    /** The word at a physical address, or 0 where there is no memory. */
    method FetchWord(pa: Word) returns (opcode: Loaded)
      requires Valid()
      ensures opcode == Fetched(bus.image, pa)
    {
      var _, value := bus.ReadWord(pa);
      opcode := value;
    }

    /** One step of the simulator. */
    method StepOne(console: Word) returns (ok: bool)
      requires Valid()
      modifies this, gpr, bus`image, bus`contents, bus.Devices()
      ensures Valid()
      ensures match Step(old(State()), console) case Halted => !ok case Running(h) => ok && State() == h
    {
      ok := ExecuteOne(console);
      if ok {
        mtime := Add(mtime, Word(1));
        if mtime == mtimecmp {
          mip := Or(mip, if HasBit(mideleg, 5) then Word(0x20) else Word(0x80));
        }
      }
    }
  }
}
