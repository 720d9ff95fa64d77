// Sv32 translation as section 4.3.2 of the RISC-V Privileged Architecture defines it (without the
// accessed and dirty bits and without MXR), and the proof that the simulator implements it.
module Sv32 {
  import opened Words
  import opened Hart
  import opened Mmu
  import Numbers

  const LEVELS := 2

  /** Physical addresses have 34 bits; this machine has memory below 2^32 only. */
  predicate Below4G(pa: bv34) { pa < 0x1_0000_0000 }
  function WordOf(pa: bv34): Word { Word(((pa >> 2) & 0xFFFF_FFFF) as bv32) }

  predicate InMemory(mem: Memory, pa: bv34) { Below4G(pa) && WordOf(pa) in mem }

  function MemWord(mem: Memory, pa: bv34): Word
    requires InMemory(mem, pa)
  {
    mem[WordOf(pa)]
  }

  // va.vpn[i]
  function Vpn1(va: Word): bv10 { (va.bits >> 22) as bv10 }
  function Vpn0(va: Word): bv10 { Field0(va.bits) }
  function Field0(va: bv32): bv10 { ((va >> 12) & 0x3FF) as bv10 }
  function Vpn(va: Word, i: nat): bv10 { if i == 0 then Vpn0(va) else Vpn1(va) }

  predicate V(pte: Word) { pte.bits & 1 == 1 }
  predicate R(pte: Word) { (pte.bits >> 1) & 1 == 1 }
  predicate W(pte: Word) { (pte.bits >> 2) & 1 == 1 }
  predicate X(pte: Word) { (pte.bits >> 3) & 1 == 1 }
  predicate U(pte: Word) { (pte.bits >> 4) & 1 == 1 }

  /** The byte address of the entry for va in the table at page number `table`. */
  function EntryAddress(table: bv22, va: Word, i: nat): bv34 { TableEntry(table, Vpn(va, i)) }

  function TableEntry(table: bv22, index: bv10): bv34 { ((table as bv34) << 12) + ((index as bv34) << 2) }

  function PpnField(pte: Word): bv22 { PpnBits(pte.bits) }
  function PpnBits(pte: bv32): bv22 { (pte >> 10) as bv22 }

  datatype Leaf = NoLeaf | Leaf(pte: Word, level: nat)

  /** Steps 2 to 4, from the table at a page number. */
  function FindLeaf(mem: Memory, table: bv22, va: Word, i: nat): Leaf
    decreases i
  {
    var entry := EntryAddress(table, va, i);
    if !InMemory(mem, entry) then NoLeaf                // step 2: access fault
    else
      var pte := MemWord(mem, entry);
      if !V(pte) || (!R(pte) && W(pte)) then NoLeaf     // step 3
      else if R(pte) || X(pte) then Leaf(pte, i)        // step 4
      else if i == 0 then NoLeaf
      else FindLeaf(mem, PpnField(pte), va, i - 1)
  }

  function RootTable(satp: Word): bv22 { RootNumber(satp.bits) }
  function RootNumber(satp: bv32): bv22 { (satp & 0x3F_FFFF) as bv22 }

  function RootLeaf(mem: Memory, satp: Word, va: Word): Leaf { FindLeaf(mem, RootTable(satp), va, LEVELS - 1) }

  /** Step 5 and the meaning of the U and SUM bits. */
  predicate Allowed(pte: Word, priv: nat, access: Access, sum: bool) {
    && (match access case Fetch => X(pte) case Read => R(pte) case Write => W(pte))
    && (if priv == 0 then U(pte) else !U(pte) || (access != Fetch && sum))
  }

  /** Step 6. */
  predicate Misaligned(leaf: Leaf) { leaf.Leaf? && leaf.level > 0 && LowPpnSet(leaf.pte) }

  predicate LowPpnSet(pte: Word) { LowPpn(pte.bits) != 0 }
  function LowPpn(pte: bv32): bv32 { (pte >> 10) & 0x3FF }

  /** Step 8: the low page-number field comes from the address for a superpage. */
  function LeafAddress(leaf: Leaf, va: Word): bv34
    requires leaf.Leaf?
  {
    if leaf.level > 0 then SuperpageAddress(PpnField(leaf.pte), Vpn0(va), va) else PageAddress(PpnField(leaf.pte), va)
  }

  function SuperpageAddress(ppn: bv22, vpn0: bv10, va: Word): bv34 { Concat3(ppn, vpn0, va.bits) }

  function PageAddress(ppn: bv22, va: Word): bv34 { Concat2(ppn, va.bits) }

  // ppn[1] . vpn[0] . offset, and ppn . offset

  function Concat3(ppn: bv22, vpn0: bv10, va: bv32): bv34 {
    (((ppn >> 10) as bv34) << 22) | ((vpn0 as bv34) << 12) | ((va & 0xFFF) as bv34)
  }

  function Concat2(ppn: bv22, va: bv32): bv34 { ((ppn as bv34) << 12) | ((va & 0xFFF) as bv34) }

  datatype Verdict = Permit(pa: bv34) | Fault

  function VerdictOf(leaf: Leaf, va: Word, priv: nat, access: Access, sum: bool): Verdict {
    if leaf.NoLeaf? || !Allowed(leaf.pte, priv, access, sum) || Misaligned(leaf) then Fault
    else Permit(LeafAddress(leaf, va))
  }

  function Sv32Translate(h: Hart, va: Word, access: Access): Verdict {
    VerdictOf(RootLeaf(h.mem, h.satp, va), va, h.priv, access, SumSet(h.mstatus))
  }

  // ---------------------------------------------------------------------------------------------

  predicate IsPointer(pte: Word) { V(pte) && !R(pte) && !W(pte) && !X(pte) }
  predicate Fits20(table: bv22) { table < 0x10_0000 }

  /** The root table and the one below it lie in 32-bit space. */
  predicate TablesFit(mem: Memory, satp: Word, va: Word) {
    Fits20(RootTable(satp)) && NextFits(mem, EntryAddress(RootTable(satp), va, 1))
  }

  predicate NextFits(mem: Memory, entry: bv34) {
    InMemory(mem, entry) && IsPointer(MemWord(mem, entry)) ==> Fits20(PpnField(MemWord(mem, entry)))
  }

  /** The simulator drops the bits of a table's page number that lie above 32-bit space. */
  function Truncated(table: bv22): bv22 { table & 0xF_FFFF }

  /** The leaf that the architecture's walk would find if it truncated the table numbers as well. */
  function SeenLeaf(mem: Memory, satp: Word, va: Word): Leaf { SeenFrom(mem, Truncated(RootTable(satp)), va) }

  function SeenFrom(mem: Memory, table: bv22, va: Word): Leaf {
    var entry := EntryAddress(table, va, 1);
    if InMemory(mem, entry) && IsPointer(MemWord(mem, entry)) then
      FindLeaf(mem, Truncated(PpnField(MemWord(mem, entry))), va, 0)
    else FindLeaf(mem, table, va, 1)
  }

  /** The page number the simulator builds from a leaf. */
  function WalkPage(leaf: Leaf, va: Word): Word
    requires leaf.Leaf?
  {
    FakePage(leaf.pte, if leaf.level > 0 then Index0(va) else Zero())
  }

  predicate PageInMemory(mem: Memory, page: Word) { !TooHigh(page) && Mapped(mem, PageBase(page)) }

  /** The walk finds the architecture's leaf, or stops because its page is not in memory. */
  predicate WalkMatches(w: Walk, leaf: Leaf, mem: Memory, va: Word) {
    match leaf
    case NoLeaf => w.Entry? ==> w.pte == Zero() || Reserved(w.pte)
    case Leaf(pte, level) =>
      w == if PageInMemory(mem, WalkPage(leaf, va)) then Entry(MakeEntry(WalkPage(leaf, va), pte)) else WalkHalt
  }

  // Facts about bit fields, stated on the fields themselves.

  function Widen(a: Word): bv34 { Zext(a.bits) }
  function Zext(a: bv32): bv34 { a as bv34 }
  function TableNumber(table: bv22): Word { Word(table as bv32) }
  function IndexNumber(index: bv10): Word { Word(index as bv32) }
  lemma JoinTable(table: bv22, index: bv10)
    requires Fits20(table)
    ensures Widen(PteAddress(PageBase(TableNumber(table)), IndexNumber(index))) == TableEntry(table, index)
  {
  }

  lemma WidenAddress(a: Word)
    ensures WordOf(Widen(a)) == WordNumber(a) && Below4G(Widen(a))
  {
  }

  lemma FlagBits(pte: Word)
    ensures Valid(pte) == V(pte)
    ensures Pointer(pte) == (!R(pte) && !W(pte) && !X(pte))
    ensures Reserved(pte) == (!R(pte) && W(pte))
  {
  }

  lemma SameIndex1(va: Word)
    ensures Index1(va) == IndexNumber(Vpn1(va))
  {
  }

  lemma SameIndex0(va: Word)
    ensures Index0(va) == IndexNumber(Vpn0(va))
  {
  }

  lemma ReservedKept(page: Word, pte: Word)
    ensures Reserved(MakeEntry(page, pte)) == Reserved(pte)
  {
  }

  /** Both walks read the same entry. */
  lemma SameRead(mem: Memory, table: bv22, va: Word, i: nat, a: Word, entry: bv34)
    requires Fits20(table) && i < 2
    requires a == PteAddress(PageBase(TableNumber(table)), Index(va, i)) && entry == EntryAddress(table, va, i)
    ensures Mapped(mem, a) == InMemory(mem, entry)
    ensures Mapped(mem, a) ==> mem[WordNumber(a)] == MemWord(mem, entry)
  {
    SameIndex0(va);
    SameIndex1(va);
    JoinTable(table, Vpn(va, i));
    WidenAddress(a);
  }

  lemma LeafMatches(mem: Memory, pte: Word, va: Word, level: nat, w: Walk)
    requires level < 2 && w == WalkLeaf(mem, pte, if level > 0 then Index0(va) else Zero())
    ensures WalkMatches(w, Leaf(pte, level), mem, va)
    ensures w.Entry? && Reserved(pte) ==> Reserved(w.pte)
  {
    ReservedKept(WalkPage(Leaf(pte, level), va), pte);
  }

  lemma Level0Matches(mem: Memory, table: bv22, va: Word, w: Walk, leaf: Leaf)
    requires Fits20(table)
    requires w == WalkFrom(mem, PageBase(TableNumber(table)), va, 0) && leaf == FindLeaf(mem, table, va, 0)
    ensures WalkMatches(w, leaf, mem, va)
  {
    var a, entry := PteAddress(PageBase(TableNumber(table)), Index0(va)), EntryAddress(table, va, 0);
    SameRead(mem, table, va, 0, a, entry);
    if Mapped(mem, a) {
      FlagBits(mem[WordNumber(a)]);
      if !Pointer(mem[WordNumber(a)]) && Valid(mem[WordNumber(a)]) {
        LeafMatches(mem, mem[WordNumber(a)], va, 0, w);
      }
    }
  }

  function TableBase(table: bv22): Word { Word(BaseBits(table)) }
  function BaseBits(table: bv22): bv32 { (table as bv32) << 12 }

  lemma TruncatedFits(table: bv22)
    ensures Fits20(Truncated(table))
  {
  }

  lemma TruncatedSame(table: bv22)
    requires Fits20(table)
    ensures Truncated(table) == table
  {
  }

  function PointedBase(pte: bv32): bv32 { (pte >> 10) << 12 }
  function SatpBase(satp: bv32): bv32 { (satp & 0x3F_FFFF) << 12 }

  lemma TableBaseIs(table: bv22)
    ensures PageBase(TableNumber(table)) == TableBase(table)
  {
  }

  lemma PointedBaseIs(pte: bv32)
    ensures PageBase(Ppn(Word(pte))) == Word(PointedBase(pte))
  {
  }

  lemma SatpBaseIs(satp: bv32)
    ensures PageBase(SatpPpn(Word(satp))) == Word(SatpBase(satp))
  {
  }

  lemma NextTableBits(pte: bv32)
    ensures BaseBits(Truncated(PpnBits(pte))) == PointedBase(pte)
  {
  }

  lemma NextTable(pte: Word)
    ensures PageBase(TableNumber(Truncated(PpnField(pte)))) == PageBase(Ppn(pte))
  {
    NextTableBits(pte.bits);
    PointedBaseIs(pte.bits);
    assert pte == Word(pte.bits);
    TableBaseIs(Truncated(PpnField(pte)));
  }

  lemma RootTableBits(satp: bv32)
    ensures BaseBits(Truncated(RootNumber(satp))) == SatpBase(satp)
  {
  }

  lemma RootTableBase(satp: Word)
    ensures PageBase(TableNumber(Truncated(RootTable(satp)))) == PageBase(SatpPpn(satp))
  {
    RootTableBits(satp.bits);
    SatpBaseIs(satp.bits);
    assert satp == Word(satp.bits);
    TableBaseIs(Truncated(RootTable(satp)));
  }

  lemma PointerFollowed(mem: Memory, table: bv22, va: Word, a: Word, entry: bv34, pte: Word, w: Walk, leaf: Leaf)
    requires a == PteAddress(PageBase(TableNumber(table)), Index1(va)) && entry == EntryAddress(table, va, 1)
    requires Mapped(mem, a) && InMemory(mem, entry) && pte == mem[WordNumber(a)] == MemWord(mem, entry)
    requires Valid(pte) && Pointer(pte)
    requires w == WalkFrom(mem, PageBase(TableNumber(table)), va, 1) && leaf == SeenFrom(mem, table, va)
    ensures WalkMatches(w, leaf, mem, va)
  {
    FlagBits(pte);
    NextTable(pte);
    TruncatedFits(PpnField(pte));
    Level0Matches(mem, Truncated(PpnField(pte)), va, w, leaf);
  }

  lemma LargeLeafMatches(mem: Memory, table: bv22, va: Word, a: Word, entry: bv34, pte: Word, w: Walk, leaf: Leaf)
    requires a == PteAddress(PageBase(TableNumber(table)), Index1(va)) && entry == EntryAddress(table, va, 1)
    requires Mapped(mem, a) && InMemory(mem, entry) && pte == mem[WordNumber(a)] == MemWord(mem, entry)
    requires Valid(pte) && !Pointer(pte)
    requires w == WalkFrom(mem, PageBase(TableNumber(table)), va, 1) && leaf == SeenFrom(mem, table, va)
    ensures WalkMatches(w, leaf, mem, va)
  {
    FlagBits(pte);
    LeafMatches(mem, pte, va, 1, w);
  }

  lemma Level1Matches(mem: Memory, table: bv22, va: Word, w: Walk, leaf: Leaf)
    requires Fits20(table)
    requires w == WalkFrom(mem, PageBase(TableNumber(table)), va, 1) && leaf == SeenFrom(mem, table, va)
    ensures WalkMatches(w, leaf, mem, va)
  {
    var a, entry := PteAddress(PageBase(TableNumber(table)), Index1(va)), EntryAddress(table, va, 1);
    SameRead(mem, table, va, 1, a, entry);
    if Mapped(mem, a) {
      var pte := mem[WordNumber(a)];
      FlagBits(pte);
      if Valid(pte) && Pointer(pte) {
        PointerFollowed(mem, table, va, a, entry, pte, w, leaf);
      } else if Valid(pte) {
        LargeLeafMatches(mem, table, va, a, entry, pte, w, leaf);
      }
    }
  }

  lemma WalkFindsLeaf(mem: Memory, satp: Word, va: Word)
    requires SatpMode(satp)
    ensures WalkMatches(MmuWalk(mem, satp, va), SeenLeaf(mem, satp, va), mem, va)
  {
    RootTableBase(satp);
    TruncatedFits(RootTable(satp));
    Level1Matches(mem, Truncated(RootTable(satp)), va, MmuWalk(mem, satp, va), SeenLeaf(mem, satp, va));
  }

  predicate ProperLeaf(leaf: Leaf) { leaf.Leaf? ==> (R(leaf.pte) || !W(leaf.pte)) && leaf.level <= 1 }

  lemma {:induction false} LeafNotReserved(mem: Memory, table: bv22, va: Word, i: nat)
    requires i <= 1
    ensures ProperLeaf(FindLeaf(mem, table, va, i))
    decreases i
  {
    var entry := EntryAddress(table, va, i);
    if i > 0 && InMemory(mem, entry) {
      LeafNotReserved(mem, PpnField(MemWord(mem, entry)), va, i - 1);
    }
  }

  lemma SeenNotReserved(mem: Memory, table: bv22, va: Word)
    ensures ProperLeaf(SeenFrom(mem, table, va))
  {
    var entry := EntryAddress(table, va, 1);
    LeafNotReserved(mem, table, va, 1);
    if InMemory(mem, entry) {
      LeafNotReserved(mem, Truncated(PpnField(MemWord(mem, entry))), va, 0);
    }
  }

  lemma HighTableBits(table: bv22, index: bv10)
    requires !Fits20(table)
    ensures !Below4G(TableEntry(table, index))
  {
  }

  lemma HighTable(mem: Memory, table: bv22, va: Word, i: nat)
    requires !Fits20(table)
    ensures FindLeaf(mem, table, va, i) == NoLeaf
  {
    HighTableBits(table, Vpn(va, i));
  }

  lemma NextIsLeaf(mem: Memory, table: bv22, va: Word)
    ensures FindLeaf(mem, table, va, 0) == if Fits20(table) then FindLeaf(mem, Truncated(table), va, 0) else NoLeaf
  {
    if Fits20(table) {
      TruncatedSame(table);
    } else {
      HighTable(mem, table, va, 0);
    }
  }

  /** Truncation changes nothing if the tables fit; if they do not, the architecture finds no leaf. */
  lemma SeenIsLeaf(mem: Memory, satp: Word, va: Word)
    ensures RootLeaf(mem, satp, va) == if TablesFit(mem, satp, va) then SeenLeaf(mem, satp, va) else NoLeaf
  {
    var table := RootTable(satp);
    var entry := EntryAddress(table, va, 1);
    if !Fits20(table) {
      HighTable(mem, table, va, 1);
    } else {
      TruncatedSame(table);
      if InMemory(mem, entry) && IsPointer(MemWord(mem, entry)) {
        NextIsLeaf(mem, PpnField(MemWord(mem, entry)), va);
      }
    }
  }

  predicate Agrees(t: Translation, v: Verdict) {
    match t
    case Physical(pa) => v == Permit(Widen(pa))
    case PageFault => v == Fault
    case TranslateHalt => false
  }

  lemma EntryFlags(page: Word, pte: Word)
    ensures var e := MakeEntry(page, pte);
      R(e) == R(pte) && W(e) == W(pte) && X(e) == X(pte) && U(e) == U(pte)
  {
  }

  lemma WantedFlags(pte: Word, access: Access, priv: nat)
    ensures HasAll(pte, Wanted(access, priv)) ==
      ((match access case Fetch => X(pte) case Read => R(pte) case Write => W(pte)) && (priv == 1 || U(pte)))
    ensures UserPage(pte) == U(pte)
  {
  }

  function JoinPage(page: Word, va: Word): Word { Word(Join(page.bits, va.bits)) }
  function Join(page: bv32, va: bv32): bv32 { (page << 12) | (va & 0xFFF) }

  function SuperPage(ppn: bv22, vpn0: bv10): Word { Word(Super(ppn, vpn0)) }
  function Super(ppn: bv22, vpn0: bv10): bv32 { (((ppn >> 10) as bv32) << 10) | (vpn0 as bv32) }

  lemma EntryBits(page: bv32, pte: bv32, va: bv32)
    requires !High(page)
    ensures PageAndOffset(PageWithFlags(page, pte), va) == Join(page, va)
    ensures Low12(Join(page, va)) == Low12(va)
  {
  }

  lemma EntryAddressParts(page: Word, pte: Word, va: Word)
    requires !TooHigh(page)
    ensures PhysicalAddress(MakeEntry(page, pte), va) == JoinPage(page, va)
    ensures PageOffset(JoinPage(page, va)) == PageOffset(va)
  {
    EntryBits(page.bits, pte.bits, va.bits);
  }

  lemma SmallBits(pte: bv32, va: bv32)
    requires !High(OrPage(pte, 0))
    ensures Zext(Join(OrPage(pte, 0), va)) == Concat2(PpnBits(pte), va)
  {
  }

  lemma SmallPage(pte: Word, va: Word)
    requires !TooHigh(FakePage(pte, Zero()))
    ensures Widen(JoinPage(FakePage(pte, Zero()), va)) == PageAddress(PpnField(pte), va)
  {
    SmallBits(pte.bits, va.bits);
  }

  lemma LargeBits(pte: bv32, va: bv32)
    requires LowPpn(pte) == 0
    ensures OrPage(pte, Middle(va)) == Super(PpnBits(pte), Field0(va))
  {
  }

  lemma LargePage(pte: Word, va: Word)
    requires !LowPpnSet(pte)
    ensures FakePage(pte, Index0(va)) == SuperPage(PpnField(pte), Vpn0(va))
  {
    LargeBits(pte.bits, va.bits);
  }

  lemma LargeAddressBits(ppn: bv22, vpn0: bv10, va: bv32)
    requires !High(Super(ppn, vpn0))
    ensures Zext(Join(Super(ppn, vpn0), va)) == Concat3(ppn, vpn0, va)
  {
  }

  lemma LargeAddress(ppn: bv22, vpn0: bv10, va: Word)
    requires !TooHigh(SuperPage(ppn, vpn0))
    ensures Widen(JoinPage(SuperPage(ppn, vpn0), va)) == SuperpageAddress(ppn, vpn0, va)
  {
    LargeAddressBits(ppn, vpn0, va.bits);
  }

  /** The simulator's address for a leaf is the architecture's, if the page number fits in 20 bits. */
  lemma SameAddress(leaf: Leaf, va: Word)
    requires leaf.Leaf? && !Misaligned(leaf) && !TooHigh(WalkPage(leaf, va))
    ensures Widen(JoinPage(WalkPage(leaf, va), va)) == LeafAddress(leaf, va)
  {
    if leaf.level > 0 {
      LargePage(leaf.pte, va);
      LargeAddress(PpnField(leaf.pte), Vpn0(va), va);
    } else {
      SmallPage(leaf.pte, va);
    }
  }

  /** Checking the entry the walk built decides as the architecture does on the leaf. */
  lemma CheckAgrees(leaf: Leaf, e: Word, va: Word, priv: nat, access: Access, sum: bool)
    requires leaf.Leaf? && (R(leaf.pte) || !W(leaf.pte)) && priv <= 1
    requires !TooHigh(WalkPage(leaf, va)) && e == MakeEntry(WalkPage(leaf, va), leaf.pte)
    ensures var t := CheckEntry(e, priv, access, sum, va);
      && (t.Physical? <==> Allowed(leaf.pte, priv, access, sum))
      && (t.Physical? ==> t.address == JoinPage(WalkPage(leaf, va), va))
      && (t.TranslateHalt? <==> priv == 1 && U(leaf.pte) && (access == Fetch || !sum))
  {
    EntryFlags(WalkPage(leaf, va), leaf.pte);
    FlagBits(e);
    WantedFlags(e, access, priv);
    EntryAddressParts(WalkPage(leaf, va), leaf.pte, va);
  }

  lemma NoLeafFaults(pte: Word, priv: nat, access: Access, sum: bool, va: Word)
    requires pte == Zero() || Reserved(pte)
    ensures CheckEntry(pte, priv, access, sum, va) == PageFault
  {
    if pte == Zero() {
      assert !HasAll(Zero(), Wanted(access, priv));
    }
  }

  /** The entry the walk reads from the table at base for level i, 0 where there is no memory. */
  function EntryRead(mem: Memory, base: Word, va: Word, i: int): Word {
    var a := PteAddress(base, Index(va, i));
    if Mapped(mem, a) then mem[WordNumber(a)] else Zero()
  }

  predicate GoesOn(pte: Word) { Valid(pte) && Pointer(pte) }

  /** A pointer at level 1 to a table whose entry is a pointer too, where the architecture's walk ends. */
  predicate PointerAtLevel0(mem: Memory, base: Word, va: Word) {
    var e1 := EntryRead(mem, base, va, 1);
    GoesOn(e1) && GoesOn(EntryRead(mem, PageBase(Ppn(e1)), va, 0))
  }

  lemma ZeroIsInvalid()
    ensures !Valid(Zero())
  {
  }

  /** The walk reads a third entry, and so can go astray, only behind a pointer at level 0. */
  lemma WalkTwoReads(mem: Memory, base: Word, va: Word, e1: Word, e0: Word)
    requires e1 == EntryRead(mem, base, va, 1) && e0 == EntryRead(mem, PageBase(Ppn(e1)), va, 0)
    requires !PointerAtLevel0(mem, base, va)
    ensures WalkFrom(mem, base, va, 1) ==
      if !Valid(e1) then Entry(Zero())
      else if !Pointer(e1) then WalkLeaf(mem, e1, Index0(va))
      else if !Valid(e0) then Entry(Zero())
      else WalkLeaf(mem, e0, Zero())
  {
    ZeroIsInvalid();
  }

  /** At this entry the walk ends, and the page it names is not in memory. */
  predicate EndsOutside(mem: Memory, pte: Word, low: Word) {
    Valid(pte) && !Pointer(pte) && !PageInMemory(mem, FakePage(pte, low))
  }

  /**
   * The walk stops the simulator: the entry it ends at names a page that is not in memory, or a valid
   * entry stands where a pointer at level 0 leads. The three entries read decide it.
   */
  predicate WalkStops(mem: Memory, base: Word, va: Word) {
    var e1 := EntryRead(mem, base, va, 1);
    var e0 := EntryRead(mem, PageBase(Ppn(e1)), va, 0);
    if !GoesOn(e1) then EndsOutside(mem, e1, Index0(va))
    else if !GoesOn(e0) then EndsOutside(mem, e0, Zero())
    else Valid(EntryRead(mem, PageBase(Ppn(e0)), va, -1))
  }

  lemma ThirdReadStops(mem: Memory, base: Word, va: Word)
    ensures WalkFrom(mem, base, va, -1).WalkHalt? <==> Valid(EntryRead(mem, base, va, -1))
  {
    ZeroIsInvalid();
  }

  /** One level of the walk, on the entry it reads there. */
  lemma WalkLevel(mem: Memory, base: Word, va: Word, i: int, e: Word)
    requires 0 <= i <= 1 && e == EntryRead(mem, base, va, i)
    ensures !Valid(e) ==> WalkFrom(mem, base, va, i) == Entry(Zero())
    ensures GoesOn(e) ==> WalkFrom(mem, base, va, i) == WalkFrom(mem, PageBase(Ppn(e)), va, i - 1)
    ensures Valid(e) && !Pointer(e) ==>
      WalkFrom(mem, base, va, i) == WalkLeaf(mem, e, if i == 1 then Index0(va) else Zero())
  {
    ZeroIsInvalid();
  }

  lemma LeafStops(mem: Memory, pte: Word, low: Word)
    ensures WalkLeaf(mem, pte, low).WalkHalt? <==> !PageInMemory(mem, FakePage(pte, low))
  {
  }

  lemma Level0Stops(mem: Memory, base: Word, va: Word, e: Word)
    requires e == EntryRead(mem, base, va, 0)
    ensures WalkFrom(mem, base, va, 0).WalkHalt? <==>
      if GoesOn(e) then Valid(EntryRead(mem, PageBase(Ppn(e)), va, -1)) else EndsOutside(mem, e, Zero())
  {
    WalkLevel(mem, base, va, 0, e);
    LeafStops(mem, e, Zero());
    ThirdReadStops(mem, PageBase(Ppn(e)), va);
  }

  lemma WalkStopsExactly(mem: Memory, base: Word, va: Word, e1: Word)
    requires e1 == EntryRead(mem, base, va, 1)
    ensures WalkFrom(mem, base, va, 1).WalkHalt? <==> WalkStops(mem, base, va)
  {
    WalkLevel(mem, base, va, 1, e1);
    LeafStops(mem, e1, Index0(va));
    Level0Stops(mem, PageBase(Ppn(e1)), va, EntryRead(mem, PageBase(Ppn(e1)), va, 0));
  }

  /** What stops the simulator when there is a leaf: its page is not in memory, or a forbidden user page. */
  predicate HaltCase(h: Hart, va: Word, access: Access, leaf: Leaf)
    requires leaf.Leaf?
  {
    !PageInMemory(h.mem, WalkPage(leaf, va)) || (h.priv == 1 && U(leaf.pte) && (access == Fetch || !SumSet(h.mstatus)))
  }

  /** How the translation of va through this leaf comes out. */
  predicate TranslatedAs(h: Hart, va: Word, access: Access, leaf: Leaf, t: Translation)
    requires leaf.Leaf?
  {
    && (t.TranslateHalt? <==> HaltCase(h, va, access, leaf))
    && (t.Physical? <==>
        PageInMemory(h.mem, WalkPage(leaf, va)) && Allowed(leaf.pte, h.priv, access, SumSet(h.mstatus)))
    && (t.Physical? ==> t.address == JoinPage(WalkPage(leaf, va), va))
  }

  lemma LeafTranslated(h: Hart, va: Word, access: Access, leaf: Leaf, w: Walk, t: Translation)
    requires h.priv <= 1 && leaf.Leaf? && (R(leaf.pte) || !W(leaf.pte)) && WalkMatches(w, leaf, h.mem, va)
    requires t == match w
                  case WalkHalt => TranslateHalt
                  case Entry(e) => CheckEntry(e, h.priv, access, SumSet(h.mstatus), va)
    ensures TranslatedAs(h, va, access, leaf, t)
  {
    if w.Entry? {
      CheckAgrees(leaf, w.pte, va, h.priv, access, SumSet(h.mstatus));
    }
  }

  function RootBase(h: Hart): Word { PageBase(SatpPpn(h.satp)) }

  /** What stops the simulator during a translation, said of memory, address and privilege. */
  predicate Stops(h: Hart, va: Word, access: Access) {
    var leaf := SeenLeaf(h.mem, h.satp, va);
    if leaf.Leaf? then HaltCase(h, va, access, leaf) else WalkStops(h.mem, RootBase(h), va)
  }

  /** Where there is no leaf to be found the simulator takes the page fault or stops. */
  predicate FaultsOrStops(h: Hart, va: Word, t: Translation) {
    t == if WalkStops(h.mem, RootBase(h), va) then TranslateHalt else PageFault
  }

  lemma NoLeafTranslated(h: Hart, va: Word, access: Access, w: Walk, t: Translation)
    requires w.Entry? ==> w.pte == Zero() || Reserved(w.pte)
    requires w.WalkHalt? <==> WalkStops(h.mem, RootBase(h), va)
    requires t == match w
                  case WalkHalt => TranslateHalt
                  case Entry(e) => CheckEntry(e, h.priv, access, SumSet(h.mstatus), va)
    ensures FaultsOrStops(h, va, t)
  {
    if w.Entry? {
      NoLeafFaults(w.pte, h.priv, access, SumSet(h.mstatus), va);
    }
  }

  /** Everything the theorems below need about one translation. */
  lemma TranslatedBy(h: Hart, va: Word, access: Access, leaf: Leaf, t: Translation)
    requires h.priv <= 1 && SatpMode(h.satp)
    requires leaf == SeenLeaf(h.mem, h.satp, va) && t == Translate(h, va, access)
    ensures if leaf.Leaf? then TranslatedAs(h, va, access, leaf, t) else FaultsOrStops(h, va, t)
  {
    WalkFindsLeaf(h.mem, h.satp, va);
    SeenNotReserved(h.mem, Truncated(RootTable(h.satp)), va);
    var w := MmuWalk(h.mem, h.satp, va);
    if leaf.Leaf? {
      LeafTranslated(h, va, access, leaf, w, t);
    } else {
      WalkStopsExactly(h.mem, RootBase(h), va, EntryRead(h.mem, RootBase(h), va, 1));
      NoLeafTranslated(h, va, access, w, t);
    }
  }

  /** The accesses granted although the architecture refuses them, if the translation goes on. */
  predicate WrongGrant(h: Hart, va: Word, access: Access) {
    var leaf := SeenLeaf(h.mem, h.satp, va);
    && leaf.Leaf? && Allowed(leaf.pte, h.priv, access, SumSet(h.mstatus))
    && (Misaligned(leaf) || !TablesFit(h.mem, h.satp, va))
  }

  lemma VerdictAgrees(h: Hart, va: Word, access: Access, leaf: Leaf, t: Translation, fits: bool)
    requires leaf.Leaf? && TranslatedAs(h, va, access, leaf, t) && !t.TranslateHalt?
    ensures Agrees(t, VerdictOf(if fits then leaf else NoLeaf, va, h.priv, access, SumSet(h.mstatus)))
      <==> !(Allowed(leaf.pte, h.priv, access, SumSet(h.mstatus)) && (Misaligned(leaf) || !fits))
  {
    if !Misaligned(leaf) {
      SameAddress(leaf, va);
    }
  }

  /**
   * The translation gives the architecture's verdict and physical address exactly when it does not
   * stop the simulator, and the access is not a permitted one through a misaligned superpage or
   * through tables that lie above 32-bit space.
   */
  lemma TranslationRefinesSv32(h: Hart, va: Word, access: Access)
    requires h.priv <= 1 && SatpMode(h.satp)
    ensures Agrees(Translate(h, va, access), Sv32Translate(h, va, access))
      <==> !Stops(h, va, access) && !WrongGrant(h, va, access)
  {
    var leaf, t := SeenLeaf(h.mem, h.satp, va), Translate(h, va, access);
    TranslatedBy(h, va, access, leaf, t);
    SeenIsLeaf(h.mem, h.satp, va);
    if leaf.Leaf? && !t.TranslateHalt? {
      VerdictAgrees(h, va, access, leaf, t, TablesFit(h.mem, h.satp, va));
    }
  }

  /** The simulator stops during a translation exactly in these cases. */
  lemma HaltCauses(h: Hart, va: Word, access: Access)
    requires h.priv <= 1 && SatpMode(h.satp)
    ensures Translate(h, va, access).TranslateHalt? <==> Stops(h, va, access)
  {
    TranslatedBy(h, va, access, SeenLeaf(h.mem, h.satp, va), Translate(h, va, access));
  }

  predicate ReservedEntry(pte: Word) { Valid(pte) && Reserved(pte) }

  /** A reserved entry is among those the architecture's walk reads. */
  predicate ReservedRead(mem: Memory, base: Word, va: Word) {
    var e1 := EntryRead(mem, base, va, 1);
    ReservedEntry(e1) || (GoesOn(e1) && ReservedEntry(EntryRead(mem, PageBase(Ppn(e1)), va, 0)))
  }

  /** A walk that ends at an entry which is neither invalid, a pointer nor reserved has found a leaf. */
  lemma Level0HasLeaf(mem: Memory, table: bv22, va: Word, e0: Word)
    requires Fits20(table) && e0 == EntryRead(mem, PageBase(TableNumber(table)), va, 0)
    requires Valid(e0) && !Pointer(e0) && !Reserved(e0)
    ensures FindLeaf(mem, table, va, 0).Leaf?
  {
    ZeroIsInvalid();
    SameRead(mem, table, va, 0, PteAddress(PageBase(TableNumber(table)), Index0(va)), EntryAddress(table, va, 0));
    FlagBits(e0);
  }

  lemma Level1HasLeaf(mem: Memory, table: bv22, va: Word, e1: Word, e0: Word)
    requires Fits20(table) && e1 == EntryRead(mem, PageBase(TableNumber(table)), va, 1)
    requires e0 == EntryRead(mem, PageBase(Ppn(e1)), va, 0)
    requires Valid(e1) && !Reserved(e1) && (Pointer(e1) ==> Valid(e0) && !Pointer(e0) && !Reserved(e0))
    ensures SeenFrom(mem, table, va).Leaf?
  {
    ZeroIsInvalid();
    SameRead(mem, table, va, 1, PteAddress(PageBase(TableNumber(table)), Index1(va)), EntryAddress(table, va, 1));
    FlagBits(e1);
    if Pointer(e1) {
      NextTable(e1);
      TruncatedFits(PpnField(e1));
      Level0HasLeaf(mem, Truncated(PpnField(e1)), va, e0);
    }
  }

  /** Where there is no leaf, only a reserved entry or a pointer at level 0 can lead astray: else it is a page fault. */
  lemma NoLeafIsPageFault(h: Hart, va: Word, access: Access)
    requires h.priv <= 1 && SatpMode(h.satp) && SeenLeaf(h.mem, h.satp, va).NoLeaf?
    requires !ReservedRead(h.mem, RootBase(h), va) && !PointerAtLevel0(h.mem, RootBase(h), va)
    ensures Translate(h, va, access) == PageFault
  {
    TranslatedBy(h, va, access, NoLeaf, Translate(h, va, access));
    RootTableBase(h.satp);
    TruncatedFits(RootTable(h.satp));
    if WalkStops(h.mem, RootBase(h), va) {
      var e1 := EntryRead(h.mem, RootBase(h), va, 1);
      Level1HasLeaf(h.mem, Truncated(RootTable(h.satp)), va, e1, EntryRead(h.mem, PageBase(Ppn(e1)), va, 0));
    }
  }

  /** An access the architecture permits is translated to its address whenever the page is in memory. */
  lemma PermittedIsTranslated(h: Hart, va: Word, access: Access)
    requires h.priv <= 1 && SatpMode(h.satp)
    requires Sv32Translate(h, va, access).Permit?
    ensures Agrees(Translate(h, va, access), Sv32Translate(h, va, access))
      <==> PageInMemory(h.mem, WalkPage(RootLeaf(h.mem, h.satp, va), va))
  {
    var leaf := RootLeaf(h.mem, h.satp, va);
    SeenIsLeaf(h.mem, h.satp, va);
    TranslatedBy(h, va, access, leaf, Translate(h, va, access));
    if !TooHigh(WalkPage(leaf, va)) {
      SameAddress(leaf, va);
    }
  }

  lemma BareFlags(va: Word)
    ensures !Reserved(BareEntry(va)) && !UserPage(BareEntry(va))
    ensures PhysicalAddress(BareEntry(va), va) == va
  {
  }

  lemma BareWanted(va: Word, access: Access, priv: nat)
    ensures HasAll(BareEntry(va), Wanted(access, priv)) <==> priv == 1
  {
  }

  /** With translation switched off, supervisor mode has the architecture's identity, user mode a page fault. */
  lemma BareTranslation(h: Hart, va: Word, access: Access)
    requires h.priv <= 1 && !SatpMode(h.satp)
    ensures Translate(h, va, access) == if h.priv == 1 then Physical(va) else PageFault
  {
    BareFlags(va);
    BareWanted(va, access, h.priv);
  }

  predicate SameLow22(a: Word, b: Word) { Low22(a.bits) == Low22(b.bits) }
  function Low22(a: bv32): bv32 { a & 0x3F_FFFF }

  lemma LargeOffsetBits(ppn: bv22, va: bv32)
    ensures Low22(Join(Super(ppn, Field0(va)), va)) == Low22(va)
  {
  }

  lemma LargeOffset(ppn: bv22, va: Word)
    ensures SameLow22(JoinPage(SuperPage(ppn, Vpn0(va)), va), va)
  {
    LargeOffsetBits(ppn, va.bits);
  }

  /** A granted access keeps the page offset: 12 bits, and 22 bits through an aligned superpage. */
  lemma OffsetKept(h: Hart, va: Word, access: Access)
    requires h.priv <= 1 && SatpMode(h.satp)
    requires Translate(h, va, access).Physical?
    ensures var pa, leaf := Translate(h, va, access).address, SeenLeaf(h.mem, h.satp, va);
      && PageOffset(pa) == PageOffset(va)
      && (leaf.Leaf? && leaf.level == 1 && !Misaligned(leaf) ==> SameLow22(pa, va))
  {
    var leaf := SeenLeaf(h.mem, h.satp, va);
    TranslatedBy(h, va, access, leaf, Translate(h, va, access));
    EntryAddressParts(WalkPage(leaf, va), leaf.pte, va);
    if !LowPpnSet(leaf.pte) {
      LargePage(leaf.pte, va);
      LargeOffset(PpnField(leaf.pte), va);
    }
  }

  // The two kinds of wrong grant occur.

  lemma RootEntryIsLeaf(mem: Memory, base: Word, va: Word, a: Word, pte: Word)
    requires a == PteAddress(base, Index1(va)) && Mapped(mem, a) && pte == mem[WordNumber(a)]
    requires Valid(pte) && !Pointer(pte)
    ensures WalkFrom(mem, base, va, 1) == WalkLeaf(mem, pte, Index0(va))
  {
  }

  lemma RootIsLeaf(mem: Memory, table: bv22, va: Word, entry: bv34, pte: Word)
    requires entry == EntryAddress(table, va, 1) && InMemory(mem, entry) && pte == MemWord(mem, entry)
    requires V(pte) && R(pte)
    ensures FindLeaf(mem, table, va, 1) == Leaf(pte, 1)
  {
  }

  /** A root table above 2^32 is looked up at the truncated address. */
  lemma TruncatedRootDiffers(h: Hart, pte: Word)
    requires h.priv == 1 && h.satp == Word(0x8010_0000) && pte == Word(0xF)
    requires Mapped(h.mem, Zero()) && h.mem[WordNumber(Zero())] == pte
    ensures Translate(h, Zero(), Fetch) == Physical(Zero()) && Sv32Translate(h, Zero(), Fetch) == Fault
  {
    var z := Zero();
    assert PteAddress(z, z) == z && PageBase(SatpPpn(h.satp)) == z && PageBase(z) == z;
    assert Index1(z) == z && Index0(z) == z && Valid(pte) && !Pointer(pte);
    assert FakePage(pte, z) == z && MakeEntry(z, pte) == pte && !TooHigh(z);
    assert WalkLeaf(h.mem, pte, z) == Entry(pte);
    RootEntryIsLeaf(h.mem, z, z, z, pte);
    assert !Reserved(pte) && !UserPage(pte) && HasAll(pte, Wanted(Fetch, 1)) && PhysicalAddress(pte, z) == z;
    assert TableEntry(0x10_0000, 0) == 0x1_0000_0000;
    assert FindLeaf(h.mem, 0x10_0000, z, 1) == NoLeaf;
  }

  /** A superpage whose low page-number field is 1 is granted, at an address the architecture never gives. */
  lemma MisalignedSuperpageDiffers(h: Hart, pte: Word)
    requires h.priv == 1 && h.satp == Word(0x8000_0000) && pte == Word(0x40F)
    requires Mapped(h.mem, Zero()) && h.mem[WordNumber(Zero())] == pte && Mapped(h.mem, Word(0x1000))
    ensures Translate(h, Zero(), Fetch) == Physical(Word(0x1000)) && Sv32Translate(h, Zero(), Fetch) == Fault
  {
    var z, e := Zero(), Word(0x100F);
    assert PteAddress(z, z) == z && PageBase(SatpPpn(h.satp)) == z && PageBase(Word(1)) == Word(0x1000);
    assert Index1(z) == z && Index0(z) == z && Valid(pte) && !Pointer(pte) && V(pte) && R(pte);
    assert FakePage(pte, z) == Word(1) && MakeEntry(Word(1), pte) == e && !TooHigh(Word(1));
    assert WalkLeaf(h.mem, pte, z) == Entry(e);
    RootEntryIsLeaf(h.mem, z, z, z, pte);
    assert !Reserved(e) && !UserPage(e) && HasAll(e, Wanted(Fetch, 1)) && PhysicalAddress(e, z) == Word(0x1000);
    assert Vpn1(z) == 0 && TableEntry(0, 0) == 0 && RootTable(h.satp) == 0 && Below4G(0) && WordOf(0) == WordNumber(z);
    RootIsLeaf(h.mem, 0, z, 0, pte);
  }

  lemma SumIsBit(s: bv32)
    ensures (s & 0x4_0000 != 0) == Numbers.Odd(Numbers.Right(s, 18))
  {
  }

  lemma EighteenInt()
    ensures Numbers.AsInt(18) == 18
  {
  }

  /** SUM is bit 18 of the status register. */
  lemma SumIsDigit(w: Word)
    ensures SumSet(w) <==> Numbers.Digit(w.bits, 18)
  {
    SumIsBit(w.bits);
    ShiftedBy18(w.bits);
    Numbers.OddNum(Numbers.Right(w.bits, 18));
  }

  lemma ShiftedBy18(x: bv32)
    ensures Numbers.Num(Numbers.Right(x, 18)) == Numbers.Num(x) / Numbers.Pow2(18)
  {
    Numbers.NumIsInt(18);
    EighteenInt();
    Numbers.RightNum(x, 18);
  }
}
