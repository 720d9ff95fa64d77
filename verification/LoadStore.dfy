// What loads and stores read and write, as numbers made of bytes.
module LoadStore {
  import opened Words
  import opened Isa
  import opened Hart
  import opened Mmu
  import opened Exec
  import opened Numbers
  import opened Instructions
  import B = ByteMemory

  // ---------------------------------------------------------------------------------------------
  // Bytes of words

  lemma ShiftsAre(w: bv32)
    ensures w >> 8 == Right(w, 8) && w >> 16 == Right(w, 16) && w >> 24 == Right(w, 24)
  {
  }

  lemma ByteBitsAre(w: bv32)
    ensures B.ByteBits(w, 0) == w & 0xFF && B.ByteBits(w, 1) == Right(w, 8) & 0xFF
    ensures B.ByteBits(w, 2) == Right(w, 16) & 0xFF && B.ByteBits(w, 3) == Right(w, 24) & 0xFF
  {
  }

  lemma ByteBitsNum(w: bv32, i: nat, n: bv32)
    requires i < 4 && n == (match i case 0 => 0 case 1 => 8 case 2 => 16 case _ => 24) && ShiftAmount(n)
    ensures Num(B.ByteBits(w, i)) == Num(Right(w, n)) % 0x100
  {
    ByteBitsAre(w);
    NoShift(w);
    LowByteNum(w);
    LowByteNum(Right(w, n));
  }

  /** Byte i of a word, least significant first, is the i-th digit of its number in base 256. */
  lemma ByteNum(w: Word, i: nat)
    requires i < 4
    ensures Unsigned(B.ByteOf(w, i)) == Unsigned(w) / Pow2(8 * i) % 0x100
  {
    var n: bv32 := match i case 0 => 0 case 1 => 8 case 2 => 16 case _ => 24;
    LiteralNums();
    ZeroNum();
    ByteBitsNum(w.bits, i, n);
    RightNum(w.bits, n);
  }

  predicate IsByte(b: bv32) { b < 0x100 }

  lemma IsByteNum(b: bv32)
    ensures IsByte(b) <==> Num(b) < 0x100
  {
    NumIsInt(0x100);
    HundredInt();
    LessNum(b, 0x100);
  }

  lemma HundredInt()
    ensures AsInt(0x100) == 0x100
  {
  }

  lemma PairIs(b0: bv32, b1: bv32)
    requires IsByte(b0)
    ensures B.PairBits(b0, b1) == Plus(b0, Left(b1, 8))
  {
  }

  lemma QuadIs(b0: bv32, b1: bv32, b2: bv32, b3: bv32)
    requires IsByte(b0) && IsByte(b1)
    ensures B.QuadBits(b0, b1, b2, b3) == Plus(B.PairBits(b0, b1), Left(B.PairBits(b2, b3), 16))
  {
  }

  lemma LeftBy8(b: bv32, hi: bv32)
    requires hi == Left(b, 8)
    ensures Num(hi) == Modulo(Num(b) * 0x100)
  {
    LiteralNums();
    Powers();
    LeftNum(b, 8);
  }

  lemma LeftBy16(b: bv32, hi: bv32)
    requires hi == Left(b, 16)
    ensures Num(hi) == Modulo(Num(b) * 0x1_0000)
  {
    LiteralNums();
    Powers();
    LeftNum(b, 16);
  }

  lemma SumOf(x: bv32, y: bv32, s: bv32)
    requires s == Plus(x, y)
    ensures Num(s) == Modulo(Num(x) + Num(y))
  {
    PlusNum(x, y);
  }

  lemma PairNum(b0: bv32, b1: bv32)
    requires IsByte(b0) && Num(b0) < 0x100 && Num(b1) < 0x100
    ensures Num(B.PairBits(b0, b1)) == Num(b0) + 0x100 * Num(b1)
  {
    PairIs(b0, b1);
    LeftBy8(b1, Left(b1, 8));
    SumOf(b0, Left(b1, 8), B.PairBits(b0, b1));
    PairNumber(Num(b0), Num(b1));
  }

  lemma PairNumber(x: nat, y: nat)
    requires x < 0x100 && y < 0x100
    ensures Modulo(x + Modulo(y * 0x100)) == x + 0x100 * y < 0x1_0000
  {
  }

  lemma QuadOfPairs(p: bv32, hi: bv32, s: bv32, n: nat)
    requires s == Plus(p, hi) && Num(p) < 0x1_0000 && Num(hi) == 0x1_0000 * n && n < 0x1_0000
    ensures Num(s) == Num(p) + 0x1_0000 * n
  {
    SumOf(p, hi, s);
    NotWrapped(Num(p), n);
  }

  lemma HighHalf(q: bv32, hi: bv32)
    requires hi == Left(q, 16) && Num(q) < 0x1_0000
    ensures Num(hi) == 0x1_0000 * Num(q)
  {
    LeftBy16(q, hi);
    NotWrapped(0, Num(q));
  }

  lemma NotWrapped(x: nat, y: nat)
    requires x < 0x1_0000 && y < 0x1_0000
    ensures Modulo(x + 0x1_0000 * y) == x + 0x1_0000 * y
  {
  }

  lemma QuadNum(b0: bv32, b1: bv32, b2: bv32, b3: bv32)
    requires IsByte(b0) && IsByte(b1) && IsByte(b2)
    requires Num(b0) < 0x100 && Num(b1) < 0x100 && Num(b2) < 0x100 && Num(b3) < 0x100
    ensures Num(B.QuadBits(b0, b1, b2, b3)) ==
      Num(b0) + 0x100 * Num(b1) + 0x1_0000 * Num(b2) + 0x100_0000 * Num(b3)
  {
    PairNum(b0, b1);
    PairNum(b2, b3);
    QuadIs(b0, b1, b2, b3);
    var hi := Left(B.PairBits(b2, b3), 16);
    HighHalf(B.PairBits(b2, b3), hi);
    QuadOfPairs(B.PairBits(b0, b1), hi, B.QuadBits(b0, b1, b2, b3), Num(B.PairBits(b2, b3)));
  }

  // ---------------------------------------------------------------------------------------------
  // Alignment

  lemma LowBitsAre(a: bv32)
    ensures a & 1 == Meet(a, LowMask(1)) && a & 3 == Meet(a, LowMask(2))
  {
  }

  lemma ZeroIff(x: bv32)
    ensures x == 0 <==> Num(x) == 0
  {
    ZeroNum();
    if Num(x) == 0 { SameNum(x, 0); }
  }

  lemma HalfAligned(a: bv32)
    ensures Aligned(Half, Word(a)) <==> Meet(a, LowMask(1)) == 0
  {
    LowBitsAre(a);
  }

  lemma FullAligned(a: bv32)
    ensures Aligned(Full, Word(a)) <==> Meet(a, LowMask(2)) == 0
  {
    LowBitsAre(a);
  }

  lemma AlignedNum(width: Width, a: Word)
    ensures Aligned(width, a) <==> Unsigned(a) % B.Size(width) == 0
  {
    assert a == Word(a.bits);
    HalfAligned(a.bits);
    FullAligned(a.bits);
    MaskedNum(a.bits, 1, Meet(a.bits, LowMask(1)));
    MaskedNum(a.bits, 2, Meet(a.bits, LowMask(2)));
    ZeroIff(Meet(a.bits, LowMask(1)));
    ZeroIff(Meet(a.bits, LowMask(2)));
    assert Pow2(1) == 2 && Pow2(2) == 4;
  }

  // ---------------------------------------------------------------------------------------------
  // Sign extension

  /** The number u of that many bits, extended to a word. */
  function Extended(u: int, bits: nat, sext: bool): int
    requires bits > 0
  {
    if sext && u >= Pow2(bits - 1) then u - Pow2(bits) + WORD else u
  }

  lemma ByteSign(x: bv32)
    requires IsByte(x)
    ensures x & 0x80 != 0 <==> !Less(x, 0x80)
    ensures x | 0xFFFF_FF00 == Plus(x, 0xFFFF_FF00)
  {
  }

  predicate IsHalf(x: bv32) { x < 0x1_0000 }

  lemma IsHalfNum(b: bv32)
    ensures IsHalf(b) <==> Num(b) < 0x1_0000
  {
    NumIsInt(0x1_0000);
    HalfInt();
    LessNum(b, 0x1_0000);
  }

  lemma HalfInt()
    ensures AsInt(0x1_0000) == 0x1_0000
  {
  }

  lemma HalfSign(x: bv32)
    requires IsHalf(x)
    ensures x & 0x8000 != 0 <==> !Less(x, 0x8000)
    ensures x | 0xFFFF_0000 == Plus(x, 0xFFFF_0000)
  {
  }

  lemma SignInts()
    ensures AsInt(0x80) == 0x80 && AsInt(0x8000) == 0x8000
    ensures AsInt(0xFFFF_FF00) == 0xFFFF_FF00 && AsInt(0xFFFF_0000) == 0xFFFF_0000
  {
  }

  lemma SignNums()
    ensures Num(0x80) == 0x80 && Num(0x8000) == 0x8000
    ensures Num(0xFFFF_FF00) == 0xFFFF_FF00 && Num(0xFFFF_0000) == 0xFFFF_0000
  {
    SignInts();
    NumIsInt(0x80);
    NumIsInt(0x8000);
    NumIsInt(0xFFFF_FF00);
    NumIsInt(0xFFFF_0000);
  }

  lemma ByteExtends(x: bv32)
    requires IsByte(x)
    ensures SignExtend(Word(x), Byte) == if Less(x, 0x80) then Word(x) else Word(Plus(x, 0xFFFF_FF00))
  {
    ByteSign(x);
  }

  lemma HalfExtends(x: bv32)
    requires IsHalf(x)
    ensures SignExtend(Word(x), Half) == if Less(x, 0x8000) then Word(x) else Word(Plus(x, 0xFFFF_0000))
  {
    HalfSign(x);
  }

  lemma AddedSign(x: bv32, sign: bv32, n: int)
    requires Num(sign) == WORD - n && 0 < n <= 0x1_0000 && Num(x) < n
    ensures Num(Plus(x, sign)) == Num(x) - n + WORD
  {
    SumOf(x, sign, Plus(x, sign));
  }

  lemma ByteExtended(x: bv32)
    requires IsByte(x) && Num(x) < 0x100
    ensures Unsigned(SignExtend(Word(x), Byte)) == if Num(x) >= 0x80 then Num(x) - 0x100 + WORD else Num(x)
  {
    ByteExtends(x);
    ByteLess(x);
    SignNums();
    AddedSign(x, 0xFFFF_FF00, 0x100);
  }

  lemma ByteLess(x: bv32)
    ensures Less(x, 0x80) <==> Num(x) < 0x80
  {
    SignNums();
    LessNum(x, 0x80);
  }

  lemma HalfLess(x: bv32)
    ensures Less(x, 0x8000) <==> Num(x) < 0x8000
  {
    SignNums();
    LessNum(x, 0x8000);
  }

  lemma HalfExtended(x: bv32)
    requires IsHalf(x) && Num(x) < 0x1_0000
    ensures Unsigned(SignExtend(Word(x), Half)) == if Num(x) >= 0x8000 then Num(x) - 0x1_0000 + WORD else Num(x)
  {
    HalfExtends(x);
    HalfLess(x);
    SignNums();
    AddedSign(x, 0xFFFF_0000, 0x1_0000);
  }

  lemma SmallPowers()
    ensures Pow2(7) == 0x80 && Pow2(15) == 0x8000 && Pow2(31) == 0x8000_0000 && Pow2(32) == WORD
  {
    Powers();
    assert Pow2(28) == 0x1000_0000;
  }

  /** A loaded value of a width that it fits. */
  lemma ExtendsTo(x: Word, width: Width, sext: bool)
    requires Unsigned(x) < Pow2(8 * B.Size(width))
    ensures Unsigned(if sext then SignExtend(x, width) else x) == Extended(Unsigned(x), 8 * B.Size(width), sext)
  {
    Powers();
    SmallPowers();
    assert x == Word(x.bits);
    match width
    case Byte =>
      IsByteNum(x.bits);
      ByteExtended(x.bits);
    case Half =>
      IsHalfNum(x.bits);
      HalfExtended(x.bits);
    case Full =>
  }

  // ---------------------------------------------------------------------------------------------
  // Loads

  /** n bytes of a byte map from a on, as a number: the first byte is the least significant. */
  function Little(m: B.Bytes, a: Word, n: nat): int
    requires forall k: nat :: k < n ==> B.Next(a, k) in m
  {
    if n == 0 then 0 else Little(m, a, n - 1) + Pow2(8 * (n - 1)) * Unsigned(m[B.Next(a, n - 1)])
  }

  ghost predicate AllBytes(m: B.Bytes) { forall a: Word :: a in m ==> 0 <= Unsigned(m[a]) < 0x100 }

  lemma BytesAre(mem: Memory, m: B.Bytes)
    requires B.Represents(mem, m)
    ensures AllBytes(m)
  {
    forall a: Word | a in m ensures 0 <= Unsigned(m[a]) < 0x100 {
      ByteNum(mem[WordNumber(a)], B.Offset(a));
    }
  }

  lemma InMap(m: B.Bytes, a: Word, width: Width)
    requires B.AllIn(m, a, width)
    ensures forall k: nat :: k < B.Size(width) ==> B.Next(a, k) in m
  {
    forall k: nat | k < B.Size(width) ensures B.Next(a, k) in m {
      if k == 0 {} else if k == 1 {} else if k == 2 {} else { assert k == 3; }
    }
  }

  lemma TwoBytes(m: B.Bytes, a: Word)
    requires forall k: nat :: k < 2 ==> B.Next(a, k) in m
    ensures Little(m, a, 2) == Unsigned(m[B.Next(a, 0)]) + 0x100 * Unsigned(m[B.Next(a, 1)])
  {
    Powers();
    assert Little(m, a, 1) == Little(m, a, 0) + Pow2(0) * Unsigned(m[B.Next(a, 0)]);
  }

  lemma FourBytes(m: B.Bytes, a: Word)
    requires forall k: nat :: k < 4 ==> B.Next(a, k) in m
    ensures Little(m, a, 4) == Unsigned(m[B.Next(a, 0)]) + 0x100 * Unsigned(m[B.Next(a, 1)])
      + 0x1_0000 * Unsigned(m[B.Next(a, 2)]) + 0x100_0000 * Unsigned(m[B.Next(a, 3)])
  {
    Powers();
    TwoBytes(m, a);
    assert Little(m, a, 3) == Little(m, a, 2) + Pow2(16) * Unsigned(m[B.Next(a, 2)]);
    assert Little(m, a, 4) == Little(m, a, 3) + Pow2(24) * Unsigned(m[B.Next(a, 3)]);
  }

  lemma LittleNum(m: B.Bytes, a: Word, width: Width)
    requires AllBytes(m) && B.AllIn(m, a, width)
    ensures forall k: nat :: k < B.Size(width) ==> B.Next(a, k) in m
    ensures Unsigned(B.LittleEndian(m, a, width)) == Little(m, a, B.Size(width)) < Pow2(8 * B.Size(width))
  {
    InMap(m, a, width);
    Powers();
    SmallPowers();
    match width
    case Byte => assert Little(m, a, 1) == Little(m, a, 0) + Pow2(0) * Unsigned(m[B.Next(a, 0)]);
    case Half =>
      TwoBytes(m, a);
      IsByteNum(m[B.Next(a, 0)].bits);
      PairNum(m[B.Next(a, 0)].bits, m[B.Next(a, 1)].bits);
    case Full =>
      FourBytes(m, a);
      IsByteNum(m[B.Next(a, 0)].bits);
      IsByteNum(m[B.Next(a, 1)].bits);
      IsByteNum(m[B.Next(a, 2)].bits);
      QuadNum(m[B.Next(a, 0)].bits, m[B.Next(a, 1)].bits, m[B.Next(a, 2)].bits, m[B.Next(a, 3)].bits);
  }

  /** The width of an access divides its address, and all its bytes are in memory. */
  predicate Accessed(m: B.Bytes, pa: Word, width: Width) {
    Unsigned(pa) % B.Size(width) == 0 && B.AllIn(m, pa, width)
  }

  lemma LoadedNum(mem: Memory, m: B.Bytes, pa: Word, width: Width, sext: bool)
    requires B.Represents(mem, m)
    ensures if !Accessed(m, pa, width) then LoadMem(mem, pa, width, sext) == LoadHalt
      else
        && (forall k: nat :: k < B.Size(width) ==> B.Next(pa, k) in m)
        && var r := LoadMem(mem, pa, width, sext);
          r.Loaded? && Unsigned(r.value) == Extended(Little(m, pa, B.Size(width)), 8 * B.Size(width), sext)
  {
    B.LoadRefines(mem, m, pa, width, sext);
    AlignedNum(width, pa);
    BytesAre(mem, m);
    if Accessed(m, pa, width) {
      LittleNum(m, pa, width);
      ExtendsTo(B.LittleEndian(m, pa, width), width, sext);
    }
  }

  lemma AddressIs(h: Hart, rs1: bv5, imm: Word, addr: Word)
    requires Unsigned(addr) == Modulo(Unsigned(Reg(h, rs1)) + Unsigned(imm))
    ensures addr == Add(Reg(h, rs1), imm)
  {
    SumNum(Reg(h, rs1), imm);
    SameWord(addr, Add(Reg(h, rs1), imm));
  }

  /** The load completes with the number of the bytes at pa, sign-extended on demand. */
  ghost predicate Loads(e: Effect, h: Hart, rd: bv5, m: B.Bytes, pa: Word, width: Width, sext: bool) {
    && Completes(e, h, rd) && (forall k: nat :: k < B.Size(width) ==> B.Next(pa, k) in m)
    && Unsigned(e.value) == Extended(Little(m, pa, B.Size(width)), 8 * B.Size(width), sext)
  }

  lemma LoadsAt(h: Hart, i: Instr, m: B.Bytes, pa: Word)
    requires i.Load? && B.Represents(h.mem, m) && Translate(h, Add(Reg(h, i.rs1), i.imm), Read) == Physical(pa)
    ensures if !Accessed(m, pa, i.width) then ExecLoad(h, i) == Stop
      else Loads(ExecLoad(h, i), h, i.rd, m, pa, i.width, i.sext)
  {
    LoadedNum(h.mem, m, pa, i.width, i.sext);
    Following(h.pc);
  }

  /**
   * A load adds its immediate to the register; the register rd gets the number of the bytes at the translated
   * address, sign-extended on demand. It stops on a misaligned or unmapped access, and traps on a page fault.
   */
  lemma ComputesLoad(h: Hart, i: Instr, console: Word, m: B.Bytes, addr: Word)
    requires i.Load? && B.Represents(h.mem, m)
    requires Unsigned(addr) == Modulo(Unsigned(Reg(h, i.rs1)) + Unsigned(i.imm))
    ensures var e := ExecInstr(h, i, console);
      match Translate(h, addr, Read)
      case TranslateHalt => e == Stop
      case PageFault => e == Trapped(TakeTrap(h, Exception(13), h.pc, addr))
      case Physical(pa) =>
        if Accessed(m, pa, i.width) then Loads(e, h, i.rd, m, pa, i.width, i.sext) else e == Stop
  {
    AddressIs(h, i.rs1, i.imm, addr);
    if Translate(h, addr, Read).Physical? { LoadsAt(h, i, m, Translate(h, addr, Read).address); }
  }

  // ---------------------------------------------------------------------------------------------
  // Stores

  /** The byte map after a store: byte k of the data is at pa + k, and all other bytes are as before. */
  ghost predicate HoldsData(m: B.Bytes, pa: Word, data: Word, n: nat, m': B.Bytes) {
    m'.Keys == m.Keys && DataThere(m', pa, data, n) && forall b: Word :: b in m && Beside(b, pa, n) ==> m'[b] == m[b]
  }

  ghost predicate DataThere(m: B.Bytes, pa: Word, data: Word, n: nat) {
    forall k: nat :: k < n ==>
      B.Next(pa, k) in m && Unsigned(m[B.Next(pa, k)]) == Unsigned(data) / Pow2(8 * k) % 0x100
  }

  /** b is none of the n bytes from pa on. */
  ghost predicate Beside(b: Word, pa: Word, n: nat) { forall k: nat :: k < n ==> b != B.Next(pa, k) }

  lemma NextBeside(pa: Word, n: nat)
    requires B.Offset(pa) + n < 4
    ensures Beside(B.Next(pa, n), pa, n)
  {
    B.NextInWord(pa, n);
    forall k: nat | k < n ensures B.Next(pa, k) != B.Next(pa, n) { B.NextInWord(pa, k); }
  }

  lemma WithOneMore(m: B.Bytes, pa: Word, data: Word, n: nat)
    ensures B.WithBytes(m, pa, data, n + 1) == B.WithBytes(m, pa, data, n)[B.Next(pa, n) := B.ByteOf(data, n)]
  {
  }

  lemma {:induction false} WithBytesNum(m: B.Bytes, pa: Word, data: Word, n: nat, m': B.Bytes)
    requires n <= 4 && B.Offset(pa) + n <= 4 && (forall k: nat :: k < n ==> B.Next(pa, k) in m)
    requires m' == B.WithBytes(m, pa, data, n)
    ensures HoldsData(m, pa, data, n, m')
    decreases n
  {
    if n > 0 {
      var before := B.WithBytes(m, pa, data, n - 1);
      WithBytesNum(m, pa, data, n - 1, before);
      WithOneMore(m, pa, data, n - 1);
      ByteNum(data, n - 1);
      NextBeside(pa, n - 1);
      OneMoreHeld(m, pa, data, n - 1, before, B.ByteOf(data, n - 1));
    }
  }

  lemma OneMoreHeld(m: B.Bytes, pa: Word, data: Word, n: nat, m': B.Bytes, x: Word)
    requires HoldsData(m, pa, data, n, m') && B.Next(pa, n) in m
    requires Unsigned(x) == Unsigned(data) / Pow2(8 * n) % 0x100
    requires Beside(B.Next(pa, n), pa, n)
    ensures HoldsData(m, pa, data, n + 1, m'[B.Next(pa, n) := x])
  {
    var after := m'[B.Next(pa, n) := x];
    MoreThere(pa, data, n, m', x);
    forall b: Word | b in m && Beside(b, pa, n + 1) ensures after[b] == m[b] { BesideMore(b, pa, n); }
  }

  lemma BesideMore(b: Word, pa: Word, n: nat)
    requires Beside(b, pa, n + 1)
    ensures Beside(b, pa, n) && b != B.Next(pa, n)
  {
  }

  lemma MoreThere(pa: Word, data: Word, n: nat, m: B.Bytes, x: Word)
    requires DataThere(m, pa, data, n) && Beside(B.Next(pa, n), pa, n)
    requires Unsigned(x) == Unsigned(data) / Pow2(8 * n) % 0x100
    ensures DataThere(m[B.Next(pa, n) := x], pa, data, n + 1)
  {
  }

  lemma StoredNum(mem: Memory, m: B.Bytes, pa: Word, data: Word, width: Width)
    requires B.Represents(mem, m)
    ensures if !Accessed(m, pa, width) then StoreMem(mem, pa, data, width) == StoreHalt
      else
        var r := StoreMem(mem, pa, data, width);
        r.Stored? && B.Represents(r.mem, B.WithBytes(m, pa, data, B.Size(width)))
        && HoldsData(m, pa, data, B.Size(width), B.WithBytes(m, pa, data, B.Size(width)))
  {
    B.StoreRefines(mem, m, pa, data, width);
    AlignedNum(width, pa);
    if Accessed(m, pa, width) {
      DataHeld(m, pa, data, width);
    }
  }

  lemma DataHeld(m: B.Bytes, pa: Word, data: Word, width: Width)
    requires Aligned(width, pa) && B.AllIn(m, pa, width)
    ensures HoldsData(m, pa, data, B.Size(width), B.WithBytes(m, pa, data, B.Size(width)))
  {
    B.AlignedFits(width, pa);
    InMap(m, pa, width);
    WithBytesNum(m, pa, data, B.Size(width), B.WithBytes(m, pa, data, B.Size(width)));
  }

  /** The store completes and leaves the memory of a byte map that holds the data. */
  ghost predicate Stores(e: Effect, h: Hart, m: B.Bytes, pa: Word, data: Word, width: Width, m': B.Bytes) {
    && e.Retire? && e.h == h.(mem := e.h.mem) && e.rd == 0 && Unsigned(e.next) == Modulo(Unsigned(h.pc) + 4)
    && B.Represents(e.h.mem, m') && HoldsData(m, pa, data, B.Size(width), m')
  }

  lemma StoresAt(h: Hart, i: Instr, m: B.Bytes, pa: Word)
    requires i.Store? && B.Represents(h.mem, m) && Translate(h, Add(Reg(h, i.rs1), i.imm), Write) == Physical(pa)
    ensures if !Accessed(m, pa, i.width) then ExecStore(h, i) == Stop
      else Stores(ExecStore(h, i), h, m, pa, Reg(h, i.rs2), i.width, B.WithBytes(m, pa, Reg(h, i.rs2), B.Size(i.width)))
  {
    StoredNum(h.mem, m, pa, Reg(h, i.rs2), i.width);
    Following(h.pc);
  }

  /** A store writes the low bytes of rs2 at the translated address and changes nothing else. */
  lemma ComputesStore(h: Hart, i: Instr, console: Word, m: B.Bytes, addr: Word)
    requires i.Store? && B.Represents(h.mem, m)
    requires Unsigned(addr) == Modulo(Unsigned(Reg(h, i.rs1)) + Unsigned(i.imm))
    ensures var e, data := ExecInstr(h, i, console), Reg(h, i.rs2);
      match Translate(h, addr, Write)
      case TranslateHalt => e == Stop
      case PageFault => e == Trapped(TakeTrap(h, Exception(15), h.pc, addr))
      case Physical(pa) =>
        if Accessed(m, pa, i.width) then
          Stores(e, h, m, pa, data, i.width, B.WithBytes(m, pa, data, B.Size(i.width)))
        else e == Stop
  {
    AddressIs(h, i.rs1, i.imm, addr);
    if Translate(h, addr, Write).Physical? { StoresAt(h, i, m, Translate(h, addr, Write).address); }
  }
}
