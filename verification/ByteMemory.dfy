// Word-organised memory is one little-endian byte map.
module ByteMemory {
  import opened Words
  import opened Isa
  import opened Hart
  import opened Mmu
  import opened Exec

  // ---------------------------------------------------------------------------------------------
  // Bytes of words

  /** Byte i of a word, least significant first. */
  function ByteBits(w: bv32, i: nat): bv32 {
    match i
    case 0 => w & 0xFF
    case 1 => (w >> 8) & 0xFF
    case 2 => (w >> 16) & 0xFF
    case _ => (w >> 24) & 0xFF
  }

  function ByteOf(w: Word, i: nat): Word { Word(ByteBits(w.bits, i)) }

  function OffsetBits(a: bv32): bv32 { a & 3 }

  /** The place of an address in its word. */
  function Offset(a: Word): (i: nat)
    ensures i < 4
  {
    Place(OffsetBits(a.bits))
  }

  function Place(o: bv32): (i: nat)
    ensures i < 4
  {
    if o == 0 then 0 else if o == 1 then 1 else if o == 2 then 2 else 3
  }

  function PairBits(b0: bv32, b1: bv32): bv32 { b0 | (b1 << 8) }
  function QuadBits(b0: bv32, b1: bv32, b2: bv32, b3: bv32): bv32 { b0 | (b1 << 8) | (b2 << 16) | (b3 << 24) }
  function Pair(b0: Word, b1: Word): Word { Word(PairBits(b0.bits, b1.bits)) }
  function Quad(b0: Word, b1: Word, b2: Word, b3: Word): Word { Word(QuadBits(b0.bits, b1.bits, b2.bits, b3.bits)) }

  function Inc(a: Word): Word { Word(IncBits(a.bits)) }
  function IncBits(a: bv32): bv32 { a + 1 }
  function Next(a: Word, k: nat): Word { if k == 0 then a else Inc(Next(a, k - 1)) }

  function Size(width: Width): nat { match width case Byte => 1 case Half => 2 case Full => 4 }

  // ---------------------------------------------------------------------------------------------
  // The byte map

  type Bytes = map<Word, Word>

  predicate AllIn(m: Bytes, a: Word, width: Width) {
    Next(a, 0) in m && (width != Byte ==> Next(a, 1) in m) && (width.Full? ==> Next(a, 2) in m && Next(a, 3) in m)
  }

  /** The value of the bytes from a on, first byte least significant. */
  function LittleEndian(m: Bytes, a: Word, width: Width): Word
    requires AllIn(m, a, width)
  {
    match width
    case Byte => m[Next(a, 0)]
    case Half => Pair(m[Next(a, 0)], m[Next(a, 1)])
    case Full => Quad(m[Next(a, 0)], m[Next(a, 1)], m[Next(a, 2)], m[Next(a, 3)])
  }

  function LoadBytes(m: Bytes, a: Word, width: Width, sext: bool): Loaded {
    if !Aligned(width, a) || !AllIn(m, a, width) then LoadHalt
    else
      var x := LittleEndian(m, a, width);
      Loaded(if sext then SignExtend(x, width) else x)
  }

  datatype StoredBytes = StoredBytes(m: Bytes) | StoreBytesHalt

  function StoreBytes(m: Bytes, a: Word, data: Word, width: Width): StoredBytes {
    if !Aligned(width, a) || !AllIn(m, a, width) then StoreBytesHalt
    else StoredBytes(WithBytes(m, a, data, Size(width)))
  }

  /** The first n bytes of data, from a on. */
  function WithBytes(m: Bytes, a: Word, data: Word, n: nat): Bytes {
    if n == 0 then m else WithBytes(m, a, data, n - 1)[Next(a, n - 1) := ByteOf(data, n - 1)]
  }

  /** The byte map a word memory stands for. */
  ghost predicate Represents(mem: Memory, m: Bytes) {
    forall a: Word ::
      && (a in m <==> Mapped(mem, a))
      && (a in m ==> m[a] == ByteOf(mem[WordNumber(a)], Offset(a)))
  }

  // ---------------------------------------------------------------------------------------------
  // Facts about one word

  predicate Fits(width: Width, o: nat) { o + Size(width) <= 4 && (width.Half? ==> o % 2 == 0) }

  lemma AlignedFits(width: Width, a: Word)
    requires Aligned(width, a)
    ensures Fits(width, Offset(a))
  {
    if width.Half? { HalfOffset(a.bits); }
    if width.Full? { FullOffset(a.bits); }
  }

  lemma HalfOffset(a: bv32)
    requires a & 1 == 0
    ensures OffsetBits(a) == 0 || OffsetBits(a) == 2
  {
  }

  lemma FullOffset(a: bv32)
    requires a & 3 == 0
    ensures OffsetBits(a) == 0
  {
  }

  predicate Small(o: bv32) { o == 0 || o == 1 || o == 2 || o == 3 }

  lemma OffsetIs(a: bv32)
    ensures Small(OffsetBits(a))
  {
  }

  lemma IncSameWord(a: bv32)
    requires OffsetBits(a) != 3
    ensures NumberBits(IncBits(a)) == NumberBits(a)
  {
  }

  lemma IncOffset(a: bv32)
    requires OffsetBits(a) != 3
    ensures OffsetBits(IncBits(a)) == OffsetBits(a) + 1
  {
  }

  lemma PlaceInc(o: bv32)
    requires Small(o) && o != 3
    ensures Place(o + 1) == Place(o) + 1
  {
  }

  lemma IncPlace(a: bv32)
    requires Place(OffsetBits(a)) < 3
    ensures NumberBits(IncBits(a)) == NumberBits(a) && Place(OffsetBits(IncBits(a))) == Place(OffsetBits(a)) + 1
  {
    OffsetIs(a);
    IncSameWord(a);
    IncOffset(a);
    PlaceInc(OffsetBits(a));
  }

  lemma IncInWord(a: Word)
    requires Offset(a) < 3
    ensures WordNumber(Inc(a)) == WordNumber(a) && Offset(Inc(a)) == Offset(a) + 1
  {
    IncPlace(a.bits);
  }

  /** The bytes of an access that fits in its word stay in that word. */
  lemma {:induction false} NextInWord(a: Word, k: nat)
    requires Offset(a) + k < 4
    ensures WordNumber(Next(a, k)) == WordNumber(a) && Offset(Next(a, k)) == Offset(a) + k
    decreases k
  {
    if k > 0 {
      NextInWord(a, k - 1);
      IncInWord(Next(a, k - 1));
    }
  }

  lemma SameAddressBits(a: bv32, b: bv32)
    requires NumberBits(a) == NumberBits(b) && OffsetBits(a) == OffsetBits(b)
    ensures a == b
  {
  }

  lemma PlaceInjective(x: bv32, y: bv32)
    requires Small(x) && Small(y) && Place(x) == Place(y)
    ensures x == y
  {
  }

  lemma SamePlace(a: bv32, b: bv32)
    requires NumberBits(a) == NumberBits(b) && Place(OffsetBits(a)) == Place(OffsetBits(b))
    ensures a == b
  {
    OffsetIs(a);
    OffsetIs(b);
    PlaceInjective(OffsetBits(a), OffsetBits(b));
    SameAddressBits(a, b);
  }

  lemma SameAddress(a: Word, b: Word)
    requires WordNumber(a) == WordNumber(b) && Offset(a) == Offset(b)
    ensures a == b
  {
    SamePlace(a.bits, b.bits);
  }

  lemma LaneIs(a: bv32)
    ensures ((a & 3) << 3) ==
      (if OffsetBits(a) == 0 then 0 else if OffsetBits(a) == 1 then 8 else if OffsetBits(a) == 2 then 16 else 24)
  {
  }

  lemma HalfLaneIs(a: Word)
    requires Aligned(Half, a)
    ensures HalfLane(a) == if Offset(a) == 0 then 0 else 16
  {
    HalfOffset(a.bits);
    SecondHalf(a.bits);
  }

  lemma SecondHalf(a: bv32)
    ensures OffsetBits(a) == 0 ==> a & 2 == 0
    ensures OffsetBits(a) == 2 ==> a & 2 != 0
  {
  }

  function LaneAt(o: nat): bv32 { match o case 0 => 0 case 1 => 8 case 2 => 16 case _ => 24 }

  lemma LaneOf(width: Width, a: Word)
    requires Aligned(width, a)
    ensures Lane(width, a) == LaneAt(Offset(a))
  {
    LaneIs(a.bits);
    OffsetIs(a.bits);
    if width.Half? { HalfLaneIs(a); HalfOffset(a.bits); }
    if width.Full? { FullOffset(a.bits); }
  }

  function ExtractBits(w: bv32, width: Width, o: nat): bv32 { Field(w, WidthMask(width), LaneAt(o)) }

  lemma ByteField0(w: bv32)
    ensures Field(w, 0xFF, 0) == w & 0xFF
  {
  }

  lemma ByteField1(w: bv32)
    ensures Field(w, 0xFF, 8) == (w >> 8) & 0xFF
  {
  }

  lemma ByteField2(w: bv32)
    ensures Field(w, 0xFF, 16) == (w >> 16) & 0xFF
  {
  }

  lemma ByteField3(w: bv32)
    ensures Field(w, 0xFF, 24) == (w >> 24) & 0xFF
  {
  }

  lemma ByteExtract(w: bv32, o: nat)
    requires o < 4
    ensures ExtractBits(w, Byte, o) == ByteBits(w, o)
  {
    ByteField0(w);
    ByteField1(w);
    ByteField2(w);
    ByteField3(w);
  }

  lemma LowHalf(w: bv32)
    ensures Field(w, 0xFFFF, 0) == PairBits(w & 0xFF, (w >> 8) & 0xFF)
  {
  }

  lemma HighHalf(w: bv32)
    ensures Field(w, 0xFFFF, 16) == PairBits((w >> 16) & 0xFF, (w >> 24) & 0xFF)
  {
  }

  lemma HalfExtract(w: bv32, o: nat)
    requires o == 0 || o == 2
    ensures ExtractBits(w, Half, o) == PairBits(ByteBits(w, o), ByteBits(w, o + 1))
  {
    LowHalf(w);
    HighHalf(w);
  }

  lemma QuadOfBytes(w: bv32)
    ensures QuadBits(ByteBits(w, 0), ByteBits(w, 1), ByteBits(w, 2), ByteBits(w, 3)) == w
  {
  }

  lemma FullExtract(w: bv32)
    ensures ExtractBits(w, Full, 0) == QuadBits(ByteBits(w, 0), ByteBits(w, 1), ByteBits(w, 2), ByteBits(w, 3))
  {
    FullField(w);
    QuadOfBytes(w);
  }

  function InsertBits(w: bv32, d: bv32, width: Width, o: nat): bv32 {
    WithField(w, d, WidthMask(width), LaneAt(o))
  }

  lemma ByteInsert(w: bv32, d: bv32, o: nat, j: nat)
    requires o < 4 && j < 4
    ensures ByteBits(InsertBits(w, d, Byte, o), j) == if j == o then ByteBits(d, 0) else ByteBits(w, j)
  {
    match o
    case 0 => match j { case 0 => case 1 => case 2 => case _ => }
    case 1 => match j { case 0 => case 1 => case 2 => case _ => }
    case 2 => match j { case 0 => case 1 => case 2 => case _ => }
    case _ => match j { case 0 => case 1 => case 2 => case _ => }
  }

  lemma HalfInsert(w: bv32, d: bv32, o: nat, j: nat)
    requires (o == 0 || o == 2) && j < 4
    ensures ByteBits(InsertBits(w, d, Half, o), j) == if o <= j < o + 2 then ByteBits(d, j - o) else ByteBits(w, j)
  {
    match o
    case 0 => match j { case 0 => case 1 => case 2 => case _ => }
    case _ => match j { case 0 => case 1 => case 2 => case _ => }
  }

  lemma FullInsert(w: bv32, d: bv32, j: nat)
    requires j < 4
    ensures ByteBits(InsertBits(w, d, Full, 0), j) == ByteBits(d, j)
  {
    match j case 0 => case 1 => case 2 => case _ =>
  }

  lemma InsertAt(w: bv32, d: bv32, width: Width, o: nat, j: nat)
    requires Fits(width, o) && j < 4
    ensures ByteBits(InsertBits(w, d, width, o), j) ==
      if o <= j < o + Size(width) then ByteBits(d, j - o) else ByteBits(w, j)
  {
    match width
    case Byte => ByteInsert(w, d, o, j);
    case Half => HalfInsert(w, d, o, j);
    case Full => FullInsert(w, d, j);
  }

  /** A store changes the bytes it names and no other. */
  lemma InsertBytes(w: Word, d: Word, width: Width, a: Word, j: nat)
    requires Aligned(width, a) && j < 4
    ensures ByteOf(Insert(w, d, width, a), j) ==
      if Offset(a) <= j < Offset(a) + Size(width) then ByteOf(d, j - Offset(a)) else ByteOf(w, j)
  {
    AlignedFits(width, a);
    LaneOf(width, a);
    InsertAt(w.bits, d.bits, width, Offset(a), j);
  }

  // ---------------------------------------------------------------------------------------------
  // Refinement

  lemma MappedTogether(mem: Memory, m: Bytes, a: Word, width: Width)
    requires Represents(mem, m) && Aligned(width, a)
    ensures AllIn(m, a, width) <==> Mapped(mem, a)
  {
    AlignedFits(width, a);
    forall k: nat | k < Size(width) ensures Next(a, k) in m <==> Mapped(mem, a) { NextInWord(a, k); }
  }

  lemma ByteAt(mem: Memory, m: Bytes, a: Word, k: nat)
    requires Represents(mem, m) && Mapped(mem, a) && Offset(a) + k < 4
    ensures Next(a, k) in m && m[Next(a, k)] == ByteOf(mem[WordNumber(a)], Offset(a) + k)
  {
    NextInWord(a, k);
  }

  /** The bytes of a word from place o on, put together. */
  function Together(w: Word, width: Width, o: nat): Word {
    match width
    case Byte => ByteOf(w, o)
    case Half => Pair(ByteOf(w, o), ByteOf(w, o + 1))
    case Full => Quad(ByteOf(w, o), ByteOf(w, o + 1), ByteOf(w, o + 2), ByteOf(w, o + 3))
  }

  /** An aligned part of a word is its bytes put together. */
  lemma ExtractBytes(w: Word, width: Width, a: Word, o: nat)
    requires Aligned(width, a) && o == Offset(a)
    ensures Extract(w, width, a) == Together(w, width, o)
  {
    AlignedFits(width, a);
    LaneOf(width, a);
    match width
    case Byte => ByteExtract(w.bits, o);
    case Half => HalfExtract(w.bits, o);
    case Full => FullExtract(w.bits);
  }

  lemma OneByte(m: Bytes, a: Word, x0: Word)
    requires Next(a, 0) in m && m[Next(a, 0)] == x0
    ensures AllIn(m, a, Byte) && LittleEndian(m, a, Byte) == x0
  {
  }

  lemma TwoBytes(m: Bytes, a: Word, x0: Word, x1: Word)
    requires Next(a, 0) in m && Next(a, 1) in m && m[Next(a, 0)] == x0 && m[Next(a, 1)] == x1
    ensures AllIn(m, a, Half) && LittleEndian(m, a, Half) == Pair(x0, x1)
  {
  }

  lemma FourBytes(m: Bytes, a: Word, x0: Word, x1: Word, x2: Word, x3: Word)
    requires Next(a, 0) in m && Next(a, 1) in m && Next(a, 2) in m && Next(a, 3) in m
    requires m[Next(a, 0)] == x0 && m[Next(a, 1)] == x1 && m[Next(a, 2)] == x2 && m[Next(a, 3)] == x3
    ensures AllIn(m, a, Full) && LittleEndian(m, a, Full) == Quad(x0, x1, x2, x3)
  {
  }

  lemma LittleEndianWord(mem: Memory, m: Bytes, a: Word, width: Width, w: Word, o: nat)
    requires Represents(mem, m) && Mapped(mem, a) && w == mem[WordNumber(a)] && o == Offset(a) && Fits(width, o)
    ensures AllIn(m, a, width) && LittleEndian(m, a, width) == Together(w, width, o)
  {
    ByteAt(mem, m, a, 0);
    match width
    case Byte => OneByte(m, a, ByteOf(w, o));
    case Half =>
      ByteAt(mem, m, a, 1);
      TwoBytes(m, a, ByteOf(w, o), ByteOf(w, o + 1));
    case Full =>
      ByteAt(mem, m, a, 1);
      ByteAt(mem, m, a, 2);
      ByteAt(mem, m, a, 3);
      FourBytes(m, a, ByteOf(w, o), ByteOf(w, o + 1), ByteOf(w, o + 2), ByteOf(w, o + 3));
  }

  lemma ExtractIsLittleEndian(mem: Memory, m: Bytes, a: Word, width: Width)
    requires Represents(mem, m) && Aligned(width, a) && Mapped(mem, a)
    ensures AllIn(m, a, width) && LittleEndian(m, a, width) == Extract(mem[WordNumber(a)], width, a)
  {
    AlignedFits(width, a);
    ExtractBytes(mem[WordNumber(a)], width, a, Offset(a));
    LittleEndianWord(mem, m, a, width, mem[WordNumber(a)], Offset(a));
  }

  lemma LoadRefines(mem: Memory, m: Bytes, a: Word, width: Width, sext: bool)
    requires Represents(mem, m)
    ensures LoadMem(mem, a, width, sext) == LoadBytes(m, a, width, sext)
  {
    if Aligned(width, a) {
      MappedTogether(mem, m, a, width);
      if Mapped(mem, a) { ExtractIsLittleEndian(mem, m, a, width); }
    }
  }

  /** Address b is one of the n bytes from a on, all in one word. */
  predicate Hit(a: Word, n: nat, b: Word) { WordNumber(b) == WordNumber(a) && Offset(a) <= Offset(b) < Offset(a) + n }

  lemma HitLast(a: Word, n: nat, b: Word)
    requires n > 0 && Offset(a) + n <= 4
    ensures b == Next(a, n - 1) <==> Hit(a, n, b) && !Hit(a, n - 1, b)
    ensures b == Next(a, n - 1) ==> Offset(b) == Offset(a) + (n - 1)
    ensures Hit(a, n - 1, b) ==> Hit(a, n, b)
  {
    NextInWord(a, n - 1);
    if Hit(a, n, b) && !Hit(a, n - 1, b) { SameAddress(b, Next(a, n - 1)); }
  }

  function ByteFor(m: Bytes, a: Word, data: Word, n: nat, b: Word): Word
    requires b in m
  {
    if Hit(a, n, b) then ByteOf(data, Offset(b) - Offset(a)) else m[b]
  }

  /** Which byte of the data, if any, an address gets. */
  lemma {:induction false} WithBytesAt(m: Bytes, a: Word, data: Word, n: nat, b: Word)
    requires Offset(a) + n <= 4
    requires forall k: nat :: k < n ==> Next(a, k) in m
    ensures var m' := WithBytes(m, a, data, n);
      m'.Keys == m.Keys && (b in m ==> m'[b] == ByteFor(m, a, data, n, b))
    decreases n
  {
    if n > 0 {
      WithBytesAt(m, a, data, n - 1, b);
      assert Next(a, n - 1) in m;
      HitLast(a, n, b);
    }
  }

  lemma StoreRefines(mem: Memory, m: Bytes, a: Word, data: Word, width: Width)
    requires Represents(mem, m)
    ensures match (StoreMem(mem, a, data, width), StoreBytes(m, a, data, width))
            case (Stored(mem'), StoredBytes(m')) => Represents(mem', m')
            case (StoreHalt, StoreBytesHalt) => true
            case _ => false
  {
    if Aligned(width, a) {
      MappedTogether(mem, m, a, width);
      if Mapped(mem, a) { StoreAligned(mem, m, a, data, width); }
    }
  }

  /** What the byte map says of b after a store is what the changed word says. */
  lemma ByteForIs(mem: Memory, m: Bytes, a: Word, data: Word, width: Width, b: Word, w': Word)
    requires Represents(mem, m) && Aligned(width, a) && Mapped(mem, a) && b in m
    requires w' == Insert(mem[WordNumber(a)], data, width, a)
    ensures ByteFor(m, a, data, Size(width), b) ==
      ByteOf(if WordNumber(b) == WordNumber(a) then w' else mem[WordNumber(b)], Offset(b))
  {
    InsertBytes(mem[WordNumber(a)], data, width, a, Offset(b));
  }

  lemma BytesThere(mem: Memory, m: Bytes, a: Word, width: Width)
    requires Represents(mem, m) && Aligned(width, a) && Mapped(mem, a)
    ensures Offset(a) + Size(width) <= 4 && forall k: nat :: k < Size(width) ==> Next(a, k) in m
  {
    AlignedFits(width, a);
    forall k: nat | k < Size(width) ensures Next(a, k) in m { ByteAt(mem, m, a, k); }
  }

  lemma StoredByte(mem: Memory, m: Bytes, a: Word, data: Word, width: Width, b: Word, w': Word, m': Bytes)
    requires Represents(mem, m) && Aligned(width, a) && Mapped(mem, a)
    requires w' == Insert(mem[WordNumber(a)], data, width, a) && m' == WithBytes(m, a, data, Size(width))
    ensures m'.Keys == m.Keys
    ensures b in m ==> m'[b] == ByteOf(if WordNumber(b) == WordNumber(a) then w' else mem[WordNumber(b)], Offset(b))
  {
    BytesThere(mem, m, a, width);
    WithBytesAt(m, a, data, Size(width), b);
    if b in m { ByteForIs(mem, m, a, data, width, b, w'); }
  }

  lemma StoreAligned(mem: Memory, m: Bytes, a: Word, data: Word, width: Width)
    requires Represents(mem, m) && Aligned(width, a) && Mapped(mem, a)
    ensures Represents(mem[WordNumber(a) := Insert(mem[WordNumber(a)], data, width, a)],
      WithBytes(m, a, data, Size(width)))
  {
    var w' := Insert(mem[WordNumber(a)], data, width, a);
    var m' := WithBytes(m, a, data, Size(width));
    forall b: Word ensures m'.Keys == m.Keys && (b in m ==>
        m'[b] == ByteOf(if WordNumber(b) == WordNumber(a) then w' else mem[WordNumber(b)], Offset(b))) {
      StoredByte(mem, m, a, data, width, b, w', m');
    }
    RepresentsUpdate(mem, m, a, w', m');
  }

  lemma RepresentsUpdate(mem: Memory, m: Bytes, a: Word, w': Word, m': Bytes)
    requires Represents(mem, m) && Mapped(mem, a) && m'.Keys == m.Keys
    requires forall b: Word :: b in m ==>
      m'[b] == ByteOf(if WordNumber(b) == WordNumber(a) then w' else mem[WordNumber(b)], Offset(b))
    ensures Represents(mem[WordNumber(a) := w'], m')
  {
  }

  // ---------------------------------------------------------------------------------------------
  // Any sequence of accesses

  datatype Access = LoadAt(a: Word, width: Width, sext: bool) | StoreAt(a: Word, data: Word, width: Width)

  /** The values loaded by a sequence of accesses, and whether all of them went through. */
  datatype Trace = Trace(values: seq<Word>, ok: bool)

  function OnWords(mem: Memory, ops: seq<Access>): Trace
    decreases |ops|
  {
    if ops == [] then Trace([], true)
    else
      match ops[0]
      case LoadAt(a, width, sext) =>
        (match LoadMem(mem, a, width, sext)
         case LoadHalt => Trace([], false)
         case Loaded(v) => Follow(v, OnWords(mem, ops[1..])))
      case StoreAt(a, data, width) =>
        (match StoreMem(mem, a, data, width)
         case StoreHalt => Trace([], false)
         case Stored(mem') => OnWords(mem', ops[1..]))
  }

  function Follow(v: Word, t: Trace): Trace { Trace([v] + t.values, t.ok) }

  function OnBytes(m: Bytes, ops: seq<Access>): Trace
    decreases |ops|
  {
    if ops == [] then Trace([], true)
    else
      match ops[0]
      case LoadAt(a, width, sext) =>
        (match LoadBytes(m, a, width, sext)
         case LoadHalt => Trace([], false)
         case Loaded(v) => Follow(v, OnBytes(m, ops[1..])))
      case StoreAt(a, data, width) =>
        (match StoreBytes(m, a, data, width)
         case StoreBytesHalt => Trace([], false)
         case StoredBytes(m') => OnBytes(m', ops[1..]))
  }

  /** Any sequence of loads and stores of any width reads the same values from the words as from the bytes. */
  lemma {:induction false} MemoryRefinement(mem: Memory, m: Bytes, ops: seq<Access>)
    requires Represents(mem, m)
    ensures OnWords(mem, ops) == OnBytes(m, ops)
    decreases |ops|
  {
    if ops != [] {
      match ops[0]
      case LoadAt(a, width, sext) =>
        LoadRefines(mem, m, a, width, sext);
        MemoryRefinement(mem, m, ops[1..]);
      case StoreAt(a, data, width) =>
        StoreRefines(mem, m, a, data, width);
        if StoreMem(mem, a, data, width).Stored? {
          MemoryRefinement(StoreMem(mem, a, data, width).mem, StoreBytes(m, a, data, width).m, ops[1..]);
        }
    }
  }
}
