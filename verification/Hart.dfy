// The state of one hart, trap entry, trap return and the CSR file.
module Hart {
  import opened Words
  import opened Isa


  // Privilege levels: user 0, supervisor 1, machine 3.
  // Status bits: SIE 0x2, MIE 0x8, SPIE 0x20, MPIE 0x80, SPP 0x100, MPP 0x1800, SUM 0x40000.
  // Interrupt bits 1, 3, 5, 7, 9, 11: S/M software, S/M timer, S/M external.

  type Regs = g: seq<Word> | |g| == 32 witness seq(32, _ => Zero())

  /** Physical memory: the mapped words, keyed by word number (byte address >> 2). */
  type Memory = map<Word, Word>

  datatype Hart = Hart(
    gpr: Regs, pc: Word, priv: nat,
    mstatus: Word, mepc: Word, mcause: Word, mtvec: Word, mscratch: Word,
    mie: Word, mip: Word, mideleg: Word, medeleg: Word,
    mtime: Word, mtimecmp: Word,
    sepc: Word, stvec: Word, scause: Word, stval: Word, satp: Word, sscratch: Word,
    mem: Memory)

  /** What a step ends in: a running hart, or the end of the simulation (a failed check or an error). */
  datatype Outcome = Running(hart: Hart) | Halted

  function Reset(start: Word, mem: Memory): Hart {
    var z := Zero();
    Hart(seq(32, _ => z), start, 3, z, z, z, z, z, z, z, z, z, z, z, z, z, z, z, z, z, mem)
  }

  /** Bit i, for the causes and interrupt numbers there are. */
  predicate BitSet(x: bv32, i: nat) {
    match i
    case 0 => x & 0x1 != 0
    case 1 => x & 0x2 != 0
    case 2 => x & 0x4 != 0
    case 3 => x & 0x8 != 0
    case 4 => x & 0x10 != 0
    case 5 => x & 0x20 != 0
    case 6 => x & 0x40 != 0
    case 7 => x & 0x80 != 0
    case 8 => x & 0x100 != 0
    case 9 => x & 0x200 != 0
    case 10 => x & 0x400 != 0
    case 11 => x & 0x800 != 0
    case 12 => x & 0x1000 != 0
    case 13 => x & 0x2000 != 0
    case 14 => x & 0x4000 != 0
    case _ => x & 0x8000 != 0
  }

  predicate HasBit(word: Word, i: nat) { BitSet(word.bits, i) }

  // ---------------------------------------------------------------------------------------------
  // Traps

  function MppField(s: bv32): bv32 { s & 0x1800 }

  function MppLevel(field: bv32): nat {
    if field == 0 then 0 else if field == 0x800 then 1 else if field == 0x1000 then 2 else 3
  }

  function GetMpp(s: Word): nat { MppLevel(MppField(s.bits)) }

  function GetSpp(s: Word): nat { if HasBit(s, 8) then 1 else 0 }

  function IfBits(c: bool, bits: bv32): bv32 { if c then bits else 0 }

  /** priv << 11 */
  function MppBits(priv: nat): bv32 {
    if priv == 0 then 0 else if priv == 1 then 0x800 else if priv == 2 then 0x1000 else 0x1800
  }

  // Trap entry saves the enable bit of its mode and the privilege, and clears the enable bit.

  function PushSupervisor(s: Word, priv: nat): Word {
    Word(PushS(s.bits, IfBits(HasBit(s, 1), 0x20), IfBits(priv == 1, 0x100)))
  }

  function PushS(s: bv32, spie: bv32, spp: bv32): bv32 { ((((s & !0x20) | spie) & !0x2) & !0x100) | spp }

  function PushMachine(s: Word, priv: nat): Word { Word(PushM(s.bits, IfBits(HasBit(s, 3), 0x80), MppBits(priv))) }

  function PushM(s: bv32, mpie: bv32, mpp: bv32): bv32 { ((((s & !0x80) | mpie) & !0x8) & !0x1800) | mpp }

  // Trap return restores the enable bit, sets its save bit, and leaves user mode as the saved privilege.

  function PopSupervisor(s: Word): Word { Word(PopS(s.bits, IfBits(HasBit(s, 5), 0x2))) }

  function PopS(s: bv32, sie: bv32): bv32 { (((s & !0x2) | sie) | 0x20) & !0x100 }

  function PopMachine(s: Word): Word { Word(PopM(s.bits, IfBits(HasBit(s, 7), 0x8))) }

  function PopM(s: bv32, mie: bv32): bv32 { (((s & !0x8) | mie) | 0x80) & !0x1800 }

  /** Exceptions have codes below 16; interrupts have numbers below 12 and the top bit of the cause set. */
  datatype Cause = Exception(code: nat) | Interrupt(irq: nat)

  function CauseWord(c: Cause): Word {
    match c case Exception(code) => CodeWord(code) case Interrupt(irq) => InterruptWord(CodeWord(irq))
  }

  function CodeWord(code: nat): Word { if code < 16 then Word(code as bv32) else Zero() }
  function InterruptWord(irq: Word): Word { Word(0x8000_0000 | irq.bits) }

  predicate Delegated(h: Hart, c: Cause) {
    h.priv <= 1 && match c case Exception(code) => HasBit(h.medeleg, code) case Interrupt(irq) => HasBit(h.mideleg, irq)
  }

  function TakeTrap(h: Hart, c: Cause, pc: Word, badaddr: Word): Hart {
    if Delegated(h, c) then
      h.(priv := 1, mstatus := PushSupervisor(h.mstatus, h.priv),
         sepc := pc, scause := CauseWord(c), stval := badaddr, pc := h.stvec)
    else
      h.(priv := 3, mstatus := PushMachine(h.mstatus, h.priv),
         mepc := pc, mcause := CauseWord(c), pc := h.mtvec)
  }

  /** MRET up to the new pc; the caller checks that the hart is in machine mode. */
  function ReturnMachine(h: Hart): Hart {
    h.(priv := GetMpp(h.mstatus), mstatus := PopMachine(h.mstatus))
  }

  function ReturnSupervisor(h: Hart): Hart {
    h.(priv := GetSpp(h.mstatus), mstatus := PopSupervisor(h.mstatus))
  }

  // ---------------------------------------------------------------------------------------------
  // CSRs

  function Update(cop: CsrOp, old_: Word, data: Word): Word {
    match cop
    case CsrWrite => data
    case CsrSet => Or(old_, data)
    case CsrClear => Clear(old_, data)
  }

  datatype CsrResult = CsrResult(hart: Hart, value: Word) | CsrHalt

  predicate SimExit(data: Word) { data.bits >> 24 == 0 }
  predicate SimGetChar(data: Word) { data.bits >> 24 == 2 }

  /** CSR_SIM_CTRL: console output and trace control change no state; input comes from the console. */
  function SimControl(h: Hart, data: Word, console: Word): CsrResult {
    if SimExit(data) then CsrHalt else CsrResult(h, if SimGetChar(data) then console else Zero())
  }

  /** The timer interrupt is the supervisor's (bit 5) when that one is delegated, else the machine's (bit 7). */
  function TimerPendingBit(h: Hart): Word { if HasBit(h.mideleg, 5) then Word(0x20) else Word(0x80) }

  datatype CsrName =
    | SimCtrl | Misa | ReadZero | NoCsr | Mtime
    | Mepc | Mtvec | Mcause | Mstatus | Mip | Mie | Mideleg | Medeleg | Mscratch
    | Sepc | Stvec | Scause | Sip | Sie | Satp | Stval | Sscratch | Sstatus

  /** MHARTID, MTIMEH and the physical memory protection registers read as zero. */
  function NameOf(csr: bv12): CsrName {
    match csr
    case 0x7b2 => SimCtrl
    case 0x8b2 => SimCtrl
    case 0x341 => Mepc
    case 0x305 => Mtvec
    case 0x342 => Mcause
    case 0x300 => Mstatus
    case 0x344 => Mip
    case 0x304 => Mie
    case 0x301 => Misa
    case 0x303 => Mideleg
    case 0x302 => Medeleg
    case 0x340 => Mscratch
    case 0xF14 => ReadZero
    case 0x141 => Sepc
    case 0x105 => Stvec
    case 0x142 => Scause
    case 0x144 => Sip
    case 0x104 => Sie
    case 0x180 => Satp
    case 0x143 => Stval
    case 0x140 => Sscratch
    case 0x100 => Sstatus
    case 0x3a0 => ReadZero
    case 0x3a1 => ReadZero
    case 0x3a2 => ReadZero
    case 0x3b0 => ReadZero
    case 0xc01 => Mtime
    case 0xc81 => ReadZero
    case _ => NoCsr
  }

  /** The bits of a CSR that exist, as the mask of its name: interrupt bits, cause bits, status bits. */
  function Implemented(name: CsrName, x: Word): Word {
    match name
    case Mip => Masked(x, 0xAAA)
    case Mie => Masked(x, 0xAAA)
    case Sip => Masked(x, 0x222)
    case Sie => Masked(x, 0x222)
    case Mcause => Masked(x, 0x8000_000F)
    case Scause => Masked(x, 0x8000_000F)
    case Sstatus => Masked(x, 0x4_0133)
    case _ => x
  }

  predicate HasRegister(name: CsrName) {
    !name.SimCtrl? && !name.Misa? && !name.ReadZero? && !name.NoCsr? && !name.Mtime?
  }

  /** The register behind a name; SSTATUS, SIE and SIP are windows on the machine registers. */
  function GetCsr(h: Hart, name: CsrName): Word
    requires HasRegister(name)
  {
    match name
    case Mepc => h.mepc
    case Mtvec => h.mtvec
    case Mcause => h.mcause
    case Mstatus => h.mstatus
    case Mip => h.mip
    case Mie => h.mie
    case Mideleg => h.mideleg
    case Medeleg => h.medeleg
    case Mscratch => h.mscratch
    case Sepc => h.sepc
    case Stvec => h.stvec
    case Scause => h.scause
    case Sip => h.mip
    case Sie => h.mie
    case Satp => h.satp
    case Stval => h.stval
    case Sscratch => h.sscratch
    case Sstatus => h.mstatus
  }

  function SetCsr(h: Hart, name: CsrName, x: Word): Hart
    requires HasRegister(name)
  {
    match name
    case Mepc => h.(mepc := x)
    case Mtvec => h.(mtvec := x)
    case Mcause => h.(mcause := x)
    case Mstatus => h.(mstatus := x)
    case Mip => h.(mip := x)
    case Mie => h.(mie := x)
    case Mideleg => h.(mideleg := x)
    case Medeleg => h.(medeleg := x)
    case Mscratch => h.(mscratch := x)
    case Sepc => h.(sepc := x)
    case Stvec => h.(stvec := x)
    case Scause => h.(scause := x)
    case Sip => h.(mip := x)
    case Sie => h.(mie := x)
    case Satp => h.(satp := x)
    case Stval => h.(stval := x)
    case Sscratch => h.(sscratch := x)
    case Sstatus => h.(mstatus := x)
  }

  /** A write to MTIME sets the next timer threshold and withdraws the pending timer interrupt. */
  function AccessTime(h: Hart, data: Word, cop: CsrOp): CsrResult {
    if cop != CsrClear && data != Zero()
    then CsrResult(h.(mtimecmp := data, mip := Clear(h.mip, TimerPendingBit(h))), h.mtime)
    else CsrResult(h, h.mtime)
  }

  /** Reads and updates one CSR. The value returned is the one before the update. */
  function AccessCsr(h: Hart, name: CsrName, data: Word, cop: CsrOp, console: Word): CsrResult {
    match name
    case SimCtrl => SimControl(h, data, console)
    case Misa => CsrResult(h, Word(0x4014_1100))
    case ReadZero => CsrResult(h, Zero())
    case NoCsr => CsrHalt
    case Mtime => AccessTime(h, data, cop)
    case _ =>
      var old_ := GetCsr(h, name);
      CsrResult(SetCsr(h, name, Update(cop, old_, Implemented(name, data))), Implemented(name, old_))
  }
}
