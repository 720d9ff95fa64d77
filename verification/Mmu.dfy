// Address translation in the simulator: the page-table walk and the permission checks.
module Mmu {
  import opened Words
  import opened Hart

  // Fields of entries and addresses. Flag bits: valid 0x1, read 0x2, write 0x4, execute 0x8, user 0x10.

  function Ppn(pte: Word): Word { Word(pte.bits >> 10) }
  predicate Valid(pte: Word) { pte.bits & 0x1 != 0 }
  predicate Pointer(pte: Word) { pte.bits & 0xE == 0 }
  predicate UserPage(pte: Word) { pte.bits & 0x10 != 0 }

  /** Write without read, with or without execute. */
  predicate Reserved(pte: Word) { pte.bits & 0x6 == 0x4 }

  function WordNumber(address: Word): Word { Word(NumberBits(address.bits)) }
  function NumberBits(address: bv32): bv32 { address >> 2 }
  function PageBase(page: Word): Word { Word(page.bits << 12) }
  function PageOffset(addr: Word): Word { Word(Low12(addr.bits)) }
  function Low12(addr: bv32): bv32 { addr & 0xFFF }

  predicate Mapped(mem: Memory, address: Word) { WordNumber(address) in mem }

  /** An entry of 0 stands for "no valid mapping". */
  datatype Walk = Entry(pte: Word) | WalkHalt

  /** The page number with the low part of the virtual page number or-ed in. */
  function FakePage(pte: Word, low: Word): Word { Word(OrPage(pte.bits, low.bits)) }
  function OrPage(pte: bv32, low: bv32): bv32 { (pte >> 10) | low }

  predicate High(page: bv32) { page >> 20 != 0 }
  predicate TooHigh(page: Word) { High(page.bits) }

  function MakeEntry(page: Word, pte: Word): Word { Word(PageWithFlags(page.bits, pte.bits)) }
  function PageWithFlags(page: bv32, pte: bv32): bv32 { (page << 12) | (pte & 0x3FF) }

  /**
   * The leaf case of the walk. `low` is the part of the virtual page number below this level: it is
   * or-ed into the page number so that a large page looks like a small one.
   */
  function WalkLeaf(mem: Memory, pte: Word, low: Word): Walk {
    var page := FakePage(pte, low);
    if TooHigh(page) || !Mapped(mem, PageBase(page)) then WalkHalt else Entry(MakeEntry(page, pte))
  }

  function Index1(addr: Word): Word { Word(addr.bits >> 22) }
  function Index0(addr: Word): Word { Word(Middle(addr.bits)) }
  function Middle(addr: bv32): bv32 { (addr >> 12) & 0x3FF }
  function IndexPastEnd(addr: Word): Word { Word((addr.bits >> 2) & 0x3FF) }

  /** Index into the table at level i; level -1 is where the wrapped level counter leads. */
  function Index(addr: Word, i: int): Word {
    if i == 1 then Index1(addr) else if i == 0 then Index0(addr) else IndexPastEnd(addr)
  }

  function PteAddress(base: Word, index: Word): Word { Word(base.bits + (index.bits << 2)) }

  /**
   * The walk from a table at level i. The level counter of the source is unsigned, so the loop goes
   * on past level 0: after a pointer there, a third entry is read, indexed by address bits 2 to 11,
   * and a valid one leads to a shift by a negative amount, which has no meaning in C++.
   */
  function WalkFrom(mem: Memory, base: Word, addr: Word, i: int): Walk
    requires -1 <= i <= 1
    decreases i + 1
  {
    var a := PteAddress(base, Index(addr, i));
    if !Mapped(mem, a) then Entry(Zero())
    else
      var pte := mem[WordNumber(a)];
      if !Valid(pte) then Entry(Zero())
      else if i < 0 then WalkHalt
      else if Pointer(pte) then WalkFrom(mem, PageBase(Ppn(pte)), addr, i - 1)
      else WalkLeaf(mem, pte, if i == 1 then Index0(addr) else Zero())
  }

  predicate SatpMode(satp: Word) { satp.bits & 0x8000_0000 != 0 }

  function SatpPpn(satp: Word): Word { Word(satp.bits & 0x3F_FFFF) }

  function BareEntry(addr: Word): Word { Word(0xF | ((addr.bits >> 12) << 12)) }

  function MmuWalk(mem: Memory, satp: Word, addr: Word): Walk {
    if !SatpMode(satp) then Entry(BareEntry(addr)) else WalkFrom(mem, PageBase(SatpPpn(satp)), addr, 1)
  }

  datatype Access = Fetch | Read | Write
  datatype Translation = Physical(address: Word) | PageFault | TranslateHalt

  /** The flags that this access needs all of. */
  function Wanted(access: Access, priv: nat): Word {
    Word((match access case Fetch => 0x8 case Read => 0x2 case Write => 0x4) | (if priv == 1 then 0 else 0x10))
  }

  predicate HasAll(pte: Word, wanted: Word) { pte.bits & wanted.bits == wanted.bits }

  function PhysicalAddress(pte: Word, addr: Word): Word { Word(PageAndOffset(pte.bits, addr.bits)) }
  function PageAndOffset(pte: bv32, addr: bv32): bv32 { ((pte >> 12) << 12) + (addr & 0xFFF) }

  /** The checks made on the entry that the walk returned. The simulator stops on one of them. */
  function CheckEntry(pte: Word, priv: nat, access: Access, sum: bool, addr: Word): Translation {
    if Reserved(pte) then PageFault
    else if priv == 1 && UserPage(pte) && (access == Fetch || !sum) then TranslateHalt
    else if HasAll(pte, Wanted(access, priv)) then Physical(PhysicalAddress(pte, addr))
    else PageFault
  }

  predicate SumSet(mstatus: Word) { mstatus.bits & 0x4_0000 != 0 }

  function Translate(h: Hart, addr: Word, access: Access): Translation {
    if h.priv > 1 then Physical(addr)
    else
      match MmuWalk(h.mem, h.satp, addr)
      case WalkHalt => TranslateHalt
      case Entry(pte) => CheckEntry(pte, h.priv, access, SumSet(h.mstatus), addr)
  }
}
