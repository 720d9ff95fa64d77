// The CSR file as a set of registers with windows on them.
module CsrFile {
  import opened Words
  import opened Isa
  import opened Hart
  import opened Exec
  import opened Numbers
  import opened Instructions

  /** The register behind a name: the supervisor's status and interrupt CSRs are windows on the machine's. */
  function Base(name: CsrName): CsrName {
    match name case Sstatus => Mstatus case Sip => Mip case Sie => Mie case _ => name
  }

  lemma SetGet(h: Hart, name: CsrName, x: Word)
    requires HasRegister(name)
    ensures GetCsr(SetCsr(h, name, x), name) == x
  {
  }

  /** Writing a register leaves all others alone. */
  lemma SetOther(h: Hart, name: CsrName, other: CsrName, x: Word)
    requires HasRegister(name) && HasRegister(other) && Base(name) != Base(other)
    ensures GetCsr(SetCsr(h, name, x), other) == GetCsr(h, other)
  {
  }

  lemma MaskTwice(x: bv32, mask: bv32)
    ensures AndBits(AndBits(x, mask), mask) == AndBits(x, mask)
  {
  }

  lemma ImplementedTwice(name: CsrName, x: Word)
    ensures Implemented(name, Implemented(name, x)) == Implemented(name, x)
  {
    MaskTwice(x.bits, 0xAAA);
    MaskTwice(x.bits, 0x222);
    MaskTwice(x.bits, 0x8000_000F);
    MaskTwice(x.bits, 0x4_0133);
  }

  /** What is written to a CSR is read back, as far as its bits exist. */
  lemma WriteReadsBack(h: Hart, name: CsrName, x: Word, console: Word)
    requires HasRegister(name)
    ensures var w := AccessCsr(h, name, x, CsrWrite, console);
      && w.CsrResult? && w.value == Implemented(name, GetCsr(h, name))
      && AccessCsr(w.hart, name, Zero(), CsrSet, console).CsrResult?
      && AccessCsr(w.hart, name, Zero(), CsrSet, console).value == Implemented(name, x)
  {
    SetGet(h, name, Implemented(name, x));
    ImplementedTwice(name, x);
  }

  lemma MaskedInside(x: bv32, mask: bv32)
    ensures AndBits(x, mask) & !mask == 0
  {
  }

  lemma SetInside(a: bv32, y: bv32, mask: bv32)
    requires y & !mask == 0
    ensures AndBits(OrBits(a, y), NotBits(mask)) == AndBits(a, NotBits(mask))
  {
  }

  lemma SetBits(a: bv32, y: bv32, x: bv32, mask: bv32)
    requires y == AndBits(x, mask)
    ensures AndBits(OrBits(a, y), NotBits(mask)) == AndBits(a, NotBits(mask))
  {
    MaskedInside(x, mask);
    SetInside(a, y, mask);
  }

  lemma ClearBits(a: bv32, x: bv32, mask: bv32)
    ensures AndBits(AndBits(a, NotBits(AndBits(x, mask))), NotBits(mask)) == AndBits(a, NotBits(mask))
  {
  }

  lemma OutsideMask(x: bv32, mask: bv32)
    ensures AndBits(AndBits(x, mask), NotBits(mask)) == 0
  {
  }

  function Outside(x: Word, mask: bv32): Word { Word(AndBits(x.bits, NotBits(mask))) }

  /** An update through a mask: setting and clearing stay inside it, writing clears what is outside. */
  lemma WindowUpdate(op: CsrOp, old_: Word, data: Word, mask: bv32, new_: Word)
    requires new_ == Update(op, old_, Masked(data, mask))
    ensures Outside(new_, mask) == Outside(old_, mask) <==> !op.CsrWrite? || Outside(old_, mask) == Zero()
  {
    match op
    case CsrWrite => OutsideMask(data.bits, mask);
    case CsrSet => SetBits(old_.bits, Masked(data, mask).bits, data.bits, mask);
    case CsrClear => ClearBits(old_.bits, data.bits, mask);
  }

  /** The machine register behind a supervisor window, and the mask of the window. */
  predicate IsWindow(name: CsrName) { name.Sstatus? || name.Sie? || name.Sip? }

  function WindowMask(name: CsrName): bv32 { if name.Sstatus? then 0x4_0133 else 0x222 }

  lemma WindowAccess(h: Hart, name: CsrName, op: CsrOp, x: Word, console: Word)
    requires IsWindow(name)
    ensures var r := AccessCsr(h, name, x, op, console);
      r.CsrResult? && GetCsr(r.hart, name) == Update(op, GetCsr(h, name), Masked(x, WindowMask(name)))
  {
  }

  /**
   * Through SSTATUS, SIE and SIP the supervisor sets and clears its own bits without touching the others.
   * Writing one whole, though, clears the machine's bits: they come through exactly when they were zero.
   */
  lemma SupervisorWindow(h: Hart, name: CsrName, op: CsrOp, x: Word, console: Word)
    requires IsWindow(name)
    ensures var r := AccessCsr(h, name, x, op, console);
      && r.CsrResult?
      && (Outside(GetCsr(r.hart, name), WindowMask(name)) == Outside(GetCsr(h, name), WindowMask(name))
          <==> !op.CsrWrite? || Outside(GetCsr(h, name), WindowMask(name)) == Zero())
  {
    WindowAccess(h, name, op, x, console);
    var r := AccessCsr(h, name, x, op, console);
    WindowUpdate(op, GetCsr(h, name), x, WindowMask(name), GetCsr(r.hart, name));
  }

  // ---------------------------------------------------------------------------------------------
  // The CSRs by number, and what the CSR instructions do to their binary digits

  /** A register and the bits of it that a CSR shows. */
  datatype Slot = Slot(value: Word, mask: bv32) | NoSlot

  /** The register behind a number: chapters 3 and 4 of the Privileged Architecture. */
  function SlotOf(h: Hart, csr: bv12): Slot {
    match csr
    case 0x100 => Slot(h.mstatus, 0x4_0133)
    case 0x104 => Slot(h.mie, 0x222)
    case 0x105 => Slot(h.stvec, 0xFFFF_FFFF)
    case 0x140 => Slot(h.sscratch, 0xFFFF_FFFF)
    case 0x141 => Slot(h.sepc, 0xFFFF_FFFF)
    case 0x142 => Slot(h.scause, 0x8000_000F)
    case 0x143 => Slot(h.stval, 0xFFFF_FFFF)
    case 0x144 => Slot(h.mip, 0x222)
    case 0x180 => Slot(h.satp, 0xFFFF_FFFF)
    case 0x300 => Slot(h.mstatus, 0xFFFF_FFFF)
    case 0x302 => Slot(h.medeleg, 0xFFFF_FFFF)
    case 0x303 => Slot(h.mideleg, 0xFFFF_FFFF)
    case 0x304 => Slot(h.mie, 0xAAA)
    case 0x305 => Slot(h.mtvec, 0xFFFF_FFFF)
    case 0x340 => Slot(h.mscratch, 0xFFFF_FFFF)
    case 0x341 => Slot(h.mepc, 0xFFFF_FFFF)
    case 0x342 => Slot(h.mcause, 0x8000_000F)
    case 0x344 => Slot(h.mip, 0xAAA)
    case _ => NoSlot
  }

  function MaskOf(name: CsrName): bv32 {
    match name
    case Mip => 0xAAA
    case Mie => 0xAAA
    case Sip => 0x222
    case Sie => 0x222
    case Mcause => 0x8000_000F
    case Scause => 0x8000_000F
    case Sstatus => 0x4_0133
    case _ => 0xFFFF_FFFF
  }

  lemma SlotIs(h: Hart, csr: bv12)
    ensures SlotOf(h, csr) == var n := NameOf(csr); if HasRegister(n) then Slot(GetCsr(h, n), MaskOf(n)) else NoSlot
  {
  }

  lemma AllBits(x: bv32)
    ensures Meet(x, 0xFFFF_FFFF) == x
  {
  }

  lemma ImplementedIs(name: CsrName, x: Word)
    ensures Implemented(name, x) == Word(Meet(x.bits, MaskOf(name)))
  {
    AllBits(x.bits);
    assert x == Word(x.bits);
    AndIs(x.bits, MaskOf(name));
  }

  /** The digit of the register after an update with a digit of the data. */
  predicate Updated(op: CsrOp, old_: bool, data: bool) {
    match op case CsrWrite => data case CsrSet => old_ || data case CsrClear => old_ && !data
  }

  lemma ClearIs(a: bv32, b: bv32)
    ensures AndBits(a, NotBits(b)) == Without(a, b)
  {
    assert AndBits(a, !b) == Without(a, b);
    assert NotBits(b) == !b;
  }

  lemma UpdateDigits(op: CsrOp, old_: Word, data: Word, i: nat)
    ensures Digit(Update(op, old_, data).bits, i) == Updated(op, Digit(old_.bits, i), Digit(data.bits, i))
  {
    match op
    case CsrWrite =>
    case CsrSet =>
      OrIs(old_.bits, data.bits);
      EitherDigits(old_.bits, data.bits, i);
    case CsrClear =>
      ClearIs(old_.bits, data.bits);
      WithoutDigits(old_.bits, data.bits, i);
  }

  /**
   * An access to a register through its number shows the old digits under the mask of the CSR, and writes, sets
   * or clears digits with those of the data under that mask. All other numbers are not registers.
   */
  lemma AccessesRegister(h: Hart, csr: bv12, data: Word, op: CsrOp, console: Word, s: Slot)
    requires s == SlotOf(h, csr) && s.Slot?
    ensures var r := AccessCsr(h, NameOf(csr), data, op, console);
      && r.CsrResult? && SlotOf(r.hart, csr).Slot? && SlotOf(r.hart, csr).mask == s.mask
      && (forall i: nat :: Digit(r.value.bits, i) == (Digit(s.value.bits, i) && Digit(s.mask, i)))
      && (forall i: nat :: Digit(SlotOf(r.hart, csr).value.bits, i) ==
            Updated(op, Digit(s.value.bits, i), Digit(data.bits, i) && Digit(s.mask, i)))
  {
    var name := NameOf(csr);
    var r := AccessCsr(h, name, data, op, console);
    SlotIs(h, csr);
    SlotIs(r.hart, csr);
    ImplementedIs(name, s.value);
    ImplementedIs(name, data);
    SetGet(h, name, Update(op, s.value, Implemented(name, data)));
    forall i: nat ensures Digit(r.value.bits, i) == (Digit(s.value.bits, i) && Digit(s.mask, i)) {
      MeetDigits(s.value.bits, s.mask, i);
    }
    forall i: nat ensures Digit(SlotOf(r.hart, csr).value.bits, i) ==
      Updated(op, Digit(s.value.bits, i), Digit(data.bits, i) && Digit(s.mask, i))
    {
      UpdateDigits(op, s.value, Implemented(name, data), i);
      MeetDigits(data.bits, s.mask, i);
    }
  }

  /** The numbers that are no registers: constants, the timer and the simulator's control. All others stop it. */
  predicate ReadsZero(csr: bv12) {
    csr == 0xF14 || csr == 0x3a0 || csr == 0x3a1 || csr == 0x3a2 || csr == 0x3b0 || csr == 0xc81
  }

  lemma OtherNames(csr: bv12)
    ensures ReadsZero(csr) <==> NameOf(csr) == ReadZero
    ensures csr == 0x301 <==> NameOf(csr) == Misa
    ensures csr == 0xc01 <==> NameOf(csr) == Mtime
    ensures csr == 0x7b2 || csr == 0x8b2 <==> NameOf(csr) == SimCtrl
  {
  }

  lemma MisaInt()
    ensures AsInt(0x4014_1100) == 0x4014_1100
  {
  }

  lemma AccessesConstant(h: Hart, csr: bv12, data: Word, op: CsrOp, console: Word)
    ensures var r := AccessCsr(h, NameOf(csr), data, op, console);
      && (ReadsZero(csr) ==> r.CsrResult? && r.hart == h && Unsigned(r.value) == 0)
      && (csr == 0x301 ==> r.CsrResult? && r.hart == h && Unsigned(r.value) == 0x4014_1100)
      && (SlotOf(h, csr).NoSlot? && !ReadsZero(csr) && csr != 0x301 && csr != 0xc01 && csr != 0x7b2 && csr != 0x8b2
          ==> r == CsrHalt)
  {
    OtherNames(csr);
    SlotIs(h, csr);
    ZeroNum();
    MisaInt();
    NumIsInt(0x4014_1100);
  }

  lemma TopByteIs(x: bv32)
    ensures x >> 24 == Right(x, 24)
  {
  }

  lemma IsTopByte(x: bv32, k: bv32, n: int)
    requires AsInt(k) == n
    ensures x >> 24 == k <==> Num(x) / 0x100_0000 == n
  {
    TopByteIs(x);
    LiteralNums();
    Powers();
    RightNum(x, 24);
    NumIsInt(k);
    if Num(x) / 0x100_0000 == n { SameNum(Right(x, 24), k); }
  }

  lemma ControlInts()
    ensures AsInt(0) == 0 && AsInt(2) == 2
  {
  }

  /** The simulator's control: a zero top byte ends the simulation, 2 reads a character, others have no effect here. */
  lemma ControlsSimulator(h: Hart, csr: bv12, data: Word, op: CsrOp, console: Word)
    requires csr == 0x7b2 || csr == 0x8b2
    ensures var r, top := AccessCsr(h, NameOf(csr), data, op, console), Unsigned(data) / 0x100_0000;
      if top == 0 then r == CsrHalt
      else r.CsrResult? && r.hart == h && Unsigned(r.value) == if top == 2 then Unsigned(console) else 0
  {
    ControlInts();
    IsTopByte(data.bits, 0, 0);
    IsTopByte(data.bits, 2, 2);
    ZeroNum();
  }

  /** Reading the time; writing or setting a number other than zero sets the threshold and withdraws the interrupt. */
  lemma SetsTimer(h: Hart, data: Word, op: CsrOp, console: Word)
    ensures var r := AccessCsr(h, NameOf(0xc01), data, op, console);
      && r.CsrResult? && r.value == h.mtime
      && (op.CsrClear? || Unsigned(data) == 0 ==> r.hart == h)
      && (!op.CsrClear? && Unsigned(data) != 0 ==>
          && r.hart == h.(mtimecmp := data, mip := r.hart.mip)
          && forall i: nat :: Digit(r.hart.mip.bits, i) == (Digit(h.mip.bits, i) && !Digit(TimerPendingBit(h).bits, i)))
  {
    SameWord(data, Zero());
    ZeroNum();
    forall i: nat ensures Digit(Clear(h.mip, TimerPendingBit(h)).bits, i) ==
      (Digit(h.mip.bits, i) && !Digit(TimerPendingBit(h).bits, i))
    {
      ClearDigits(h.mip, TimerPendingBit(h), i);
    }
  }

  lemma ClearDigits(a: Word, b: Word, i: nat)
    ensures Digit(Clear(a, b).bits, i) == (Digit(a.bits, i) && !Digit(b.bits, i))
  {
    ClearIs(a.bits, b.bits);
    WithoutDigits(a.bits, b.bits, i);
  }

  lemma WidenedInt(r: bv5)
    ensures AsInt(Widened(r).bits) == r as int
  {
  }

  /** The CSR instructions: rd gets the value before, the operand is rs1 or the number of rs1 itself. */
  lemma ComputesCsr(h: Hart, op: CsrOp, immediate: bool, rd: bv5, rs1: bv5, csr: bv12, console: Word, data: Word)
    requires Unsigned(data) == if immediate then rs1 as int else Unsigned(Reg(h, rs1))
    ensures var e := ExecInstr(h, Csr(op, immediate, rd, rs1, csr), console);
      match AccessCsr(h, NameOf(csr), data, op, console)
      case CsrHalt => e == Stop
      case CsrResult(h', value) =>
        e.Retire? && e.h == h' && e.rd == rd && e.value == value && Unsigned(e.next) == Modulo(Unsigned(h.pc) + 4)
  {
    WidenedInt(rs1);
    NumIsInt(Widened(rs1).bits);
    SameWord(data, if immediate then Widened(rs1) else Reg(h, rs1));
    Following(h.pc);
  }

  /** After reset the hart is in machine mode at its start address, and all registers, CSRs and the timer are zero. */
  lemma ResetIsZero(start: Word, mem: Memory, r: bv5, csr: bv12)
    ensures var h := Reset(start, mem);
      && h.priv == 3 && h.pc == start && h.mem == mem && Unsigned(Reg(h, r)) == 0
      && Unsigned(h.mtime) == 0 && Unsigned(h.mtimecmp) == 0
      && (SlotOf(h, csr).Slot? ==> Unsigned(SlotOf(h, csr).value) == 0)
  {
    ZeroNum();
  }
}
