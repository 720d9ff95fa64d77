// Memory devices attached to the simulator in regions, and the one physical memory they make up.
module Regions {
  import opened Words
  import opened Isa
  import opened Hart
  import opened Mmu
  import opened Exec
  import opened ByteMemory

  // ---------------------------------------------------------------------------------------------
  // One device

  function ByteWith(w: bv32, d: bv32, o: nat): bv32 {
    match o case 0 => With0(w, d) case 1 => With1(w, d) case 2 => With2(w, d) case _ => With3(w, d)
  }

  function With3(w: bv32, d: bv32): bv32 { (w & 0x00FF_FFFF) | ((d << 24) & 0xFF00_0000) }
  function With2(w: bv32, d: bv32): bv32 { (w & 0xFF00_FFFF) | ((d << 16) & 0x00FF_0000) }
  function With1(w: bv32, d: bv32): bv32 { (w & 0xFFFF_00FF) | ((d << 8) & 0x0000_FF00) }
  function With0(w: bv32, d: bv32): bv32 { (w & 0xFFFF_FF00) | ((d << 0) & 0x0000_00FF) }

  function HalfWith(w: bv32, d: bv32, upper: bool): bv32 { if upper then UpperWith(w, d) else LowerWith(w, d) }
  function UpperWith(w: bv32, d: bv32): bv32 { (w & 0x0000_FFFF) | ((d << 16) & 0xFFFF_0000) }
  function LowerWith(w: bv32, d: bv32): bv32 { (w & 0xFFFF_0000) | ((d << 0) & 0x0000_FFFF) }

  function HalfBits(w: bv32, upper: bool): bv32 { if upper then (w >> 16) & 0xFFFF else (w >> 0) & 0xFFFF }

  lemma ByteWith0(w: bv32, d: bv32)
    ensures With0(w, d) == WithField(w, d, 0xFF, 0)
  {
  }

  lemma ByteWith1(w: bv32, d: bv32)
    ensures With1(w, d) == WithField(w, d, 0xFF, 8)
  {
  }

  lemma ByteWith2(w: bv32, d: bv32)
    ensures With2(w, d) == WithField(w, d, 0xFF, 16)
  {
  }

  lemma ByteWith3(w: bv32, d: bv32)
    ensures With3(w, d) == WithField(w, d, 0xFF, 24)
  {
  }

  lemma ByteWithIs(w: bv32, d: bv32, o: nat)
    requires o < 4
    ensures ByteWith(w, d, o) == WithField(w, d, 0xFF, LaneAt(o))
  {
    match o case 0 => ByteWith0(w, d); case 1 => ByteWith1(w, d); case 2 => ByteWith2(w, d); case _ => ByteWith3(w, d);
  }

  lemma UpperWithIs(w: bv32, d: bv32)
    ensures UpperWith(w, d) == WithField(w, d, 0xFFFF, 16)
  {
  }

  lemma LowerWithIs(w: bv32, d: bv32)
    ensures LowerWith(w, d) == WithField(w, d, 0xFFFF, 0)
  {
  }

  lemma HalfWithIs(w: bv32, d: bv32, upper: bool)
    ensures HalfWith(w, d, upper) == WithField(w, d, 0xFFFF, if upper then 16 else 0)
  {
    UpperWithIs(w, d);
    LowerWithIs(w, d);
  }

  lemma HalfBitsIs(w: bv32, upper: bool)
    ensures HalfBits(w, upper) == Field(w, 0xFFFF, if upper then 16 else 0)
  {
  }

  predicate Upper(a: Word) { a.bits & 2 != 0 }

  lemma InsertByte(w: Word, d: Word, a: Word, lane: bv32)
    requires lane == Lane(Byte, a)
    ensures Insert(w, d, Byte, a) == Word(WithField(w.bits, d.bits, 0xFF, lane))
  {
  }

  lemma ByteStore(w: Word, d: Word, a: Word)
    ensures Insert(w, d, Byte, a) == Word(ByteWith(w.bits, d.bits, Offset(a)))
  {
    LaneOf(Byte, a);
    InsertByte(w, d, a, LaneAt(Offset(a)));
    ByteWithIs(w.bits, d.bits, Offset(a));
  }

  lemma ByteLoad(w: Word, a: Word)
    ensures Extract(w, Byte, a) == ByteOf(w, Offset(a))
  {
    ExtractBytes(w, Byte, a, Offset(a));
  }

  lemma HalfStore(w: Word, d: Word, a: Word)
    ensures Insert(w, d, Half, a) == Word(HalfWith(w.bits, d.bits, Upper(a)))
  {
    HalfWithIs(w.bits, d.bits, Upper(a));
  }

  lemma HalfLoad(w: Word, a: Word)
    ensures Extract(w, Half, a) == Word(HalfBits(w.bits, Upper(a)))
  {
    HalfBitsIs(w.bits, Upper(a));
  }

  lemma FullLoadStore(w: Word, d: Word, a: Word)
    ensures Extract(w, Full, a) == w && Insert(w, d, Full, a) == d
  {
    FullField(w.bits);
    FullMerge(w.bits, d.bits);
  }

  class SimpleMemory {
    /** The words of the buffer, by index. */
    var words: Memory

    constructor (contents: Memory)
      ensures words == contents
    {
      words := contents;
    }

    method Reset()
      modifies this
      ensures words.Keys == old(words.Keys) && forall k :: k in words ==> words[k] == Zero()
    {
      words := map k | k in words :: Zero();
    }

    /** An aligned access reads the value the hart's memory holds there; a misaligned one fails an assertion. */
    method Load(address: Word, width: Width, sext: bool) returns (r: Loaded)
      requires Mapped(words, address)
      ensures r == LoadMem(words, address, width, sext)
    {
      var w := words[WordNumber(address)];
      match width
      case Full =>
        FullLoadStore(w, w, address);
        r := if Aligned(Full, address) then Loaded(w) else LoadHalt;
      case Half =>
        HalfLoad(w, address);
        var data := Word(HalfBits(w.bits, Upper(address)));
        r := if !Aligned(Half, address) then LoadHalt else Loaded(if sext then SignExtend(data, Half) else data);
      case Byte =>
        ByteLoad(w, address);
        var data := ByteOf(w, Offset(address));
        r := Loaded(if sext then SignExtend(data, Byte) else data);
    }

    method Store(address: Word, data: Word, width: Width) returns (ok: bool)
      requires Mapped(words, address)
      modifies this
      ensures ok <==> Aligned(width, address)
      ensures words == if !ok then old(words) else
        old(words)[WordNumber(address) := Insert(old(words)[WordNumber(address)], data, width, address)]
    {
      var w := words[WordNumber(address)];
      ok := Aligned(width, address);
      if ok {
        match width
        case Full =>
          FullLoadStore(w, data, address);
          words := words[WordNumber(address) := data];
        case Half =>
          HalfStore(w, data, address);
          words := words[WordNumber(address) := Word(HalfWith(w.bits, data.bits, Upper(address)))];
        case Byte =>
          ByteStore(w, data, address);
          words := words[WordNumber(address) := Word(ByteWith(w.bits, data.bits, Offset(address)))];
      }
    }
  }

  // ---------------------------------------------------------------------------------------------
  // Regions

  function Minus(a: Word, b: Word): Word { Word(MinusBits(a.bits, b.bits)) }
  function MinusBits(a: bv32, b: bv32): bv32 { a - b }
  function PlusBits(a: bv32, b: bv32): bv32 { a + b }
  predicate AtLeast(a: bv32, b: bv32) { a >= b }
  predicate NotBelow(a: Word, b: Word) { AtLeast(a.bits, b.bits) }

  datatype Region = Region(base: Word, size: Word, device: SimpleMemory)

  predicate Contains(base: Word, size: Word, a: Word) { NotBelow(a, base) && !NotBelow(a, Add(base, size)) }

  /** Base and size are whole words, and the region does not wrap around. */
  predicate WellPlaced(base: Word, size: Word) {
    Aligned(Full, base) && Aligned(Full, size) && NotBelow(Add(base, size), base)
  }

  lemma SubtractOffset(a: bv32, base: bv32)
    requires base & 3 == 0
    ensures OffsetBits(MinusBits(a, base)) == OffsetBits(a)
  {
  }

  // An address is four times its word number plus its place in the word.

  function Parts(x: bv32, o: bv32): bv32 { x * 4 + o }
  function Low30(x: bv32): bv32 { x & 0x3FFF_FFFF }

  lemma PartsOf(a: bv32)
    ensures a == Parts(NumberBits(a), OffsetBits(a))
  {
  }

  lemma PartsOfWhole(base: bv32)
    requires base & 3 == 0
    ensures base == Parts(NumberBits(base), 0)
  {
  }

  lemma PartsIs(x: bv32, o: bv32)
    ensures Parts(x, o) == x * 4 + o
  {
  }

  lemma PartsWhole(x: bv32)
    ensures Parts(x, 0) == x * 4
  {
  }

  lemma MinusInline(x: bv32, y: bv32, o: bv32)
    ensures MinusBits(x * 4 + o, y * 4) == Parts(x - y, o)
  {
  }

  lemma MinusOfParts(x: bv32, y: bv32, o: bv32)
    ensures MinusBits(Parts(x, o), Parts(y, 0)) == Parts(x - y, o)
  {
    MinusInline(x, y, o);
    PartsIs(x, o);
    PartsWhole(y);
  }

  lemma PartsMinus(x: bv32, y: bv32, o: bv32)
    ensures MinusBits(Parts(x, o), Parts(y, 0)) == Parts(MinusBits(x, y), o)
  {
    assert MinusBits(x, y) == x - y;
    MinusOfParts(x, y, o);
  }

  lemma PlusInline(x: bv32, y: bv32, o: bv32)
    ensures PlusBits(x * 4 + o, y * 4) == Parts(x + y, o)
  {
  }

  lemma PlusOfParts(x: bv32, y: bv32, o: bv32)
    ensures PlusBits(Parts(x, o), Parts(y, 0)) == Parts(x + y, o)
  {
    PlusInline(x, y, o);
    PartsIs(x, o);
    PartsWhole(y);
  }

  lemma PartsPlus(x: bv32, y: bv32, o: bv32)
    ensures PlusBits(Parts(x, o), Parts(y, 0)) == Parts(PlusBits(x, y), o)
  {
    assert PlusBits(x, y) == x + y;
    PlusOfParts(x, y, o);
  }

  lemma NumberOfParts(x: bv32, a: bv32)
    ensures NumberBits(Parts(x, OffsetBits(a))) == Low30(x)
  {
  }

  lemma NumberOfDifference(a: bv32, base: bv32)
    requires base & 3 == 0
    ensures NumberBits(MinusBits(a, base)) == Low30(MinusBits(NumberBits(a), NumberBits(base)))
  {
    PartsOf(a);
    PartsOfWhole(base);
    PartsMinus(NumberBits(a), NumberBits(base), OffsetBits(a));
    NumberOfParts(MinusBits(NumberBits(a), NumberBits(base)), a);
  }

  lemma NumberOfSum(a: bv32, base: bv32)
    requires base & 3 == 0
    ensures NumberBits(PlusBits(a, base)) == Low30(PlusBits(NumberBits(a), NumberBits(base)))
  {
    PartsOf(a);
    PartsOfWhole(base);
    PartsPlus(NumberBits(a), NumberBits(base), OffsetBits(a));
    NumberOfParts(PlusBits(NumberBits(a), NumberBits(base)), a);
  }

  lemma SubtractSameWord(a: bv32, b: bv32, base: bv32)
    requires base & 3 == 0 && NumberBits(a) == NumberBits(b)
    ensures NumberBits(MinusBits(a, base)) == NumberBits(MinusBits(b, base))
  {
    NumberOfDifference(a, base);
    NumberOfDifference(b, base);
  }

  lemma AddSameWord(a: bv32, b: bv32, base: bv32)
    requires base & 3 == 0 && NumberBits(a) == NumberBits(b)
    ensures NumberBits(PlusBits(a, base)) == NumberBits(PlusBits(b, base))
  {
    NumberOfSum(a, base);
    NumberOfSum(b, base);
  }

  lemma MinusPlus(a: bv32, base: bv32)
    ensures PlusBits(MinusBits(a, base), base) == a
  {
    assert PlusBits(a - base, base) == a;
    assert MinusBits(a, base) == a - base;
  }

  lemma SubtractOtherWord(a: bv32, b: bv32, base: bv32, x: bv32, y: bv32)
    requires base & 3 == 0 && x == MinusBits(a, base) && y == MinusBits(b, base) && NumberBits(x) == NumberBits(y)
    ensures NumberBits(a) == NumberBits(b)
  {
    AddSameWord(x, y, base);
    MinusPlus(a, base);
    MinusPlus(b, base);
  }

  lemma SumAligned(a: bv32, b: bv32)
    requires a & 3 == 0 && b & 3 == 0
    ensures (a + b) & 3 == 0
  {
  }

  // Word-aligned regions see whole words.

  lemma SameWordAtLeast(a: bv32, b: bv32, base: bv32)
    requires base & 3 == 0 && a >> 2 == b >> 2 && a >= base
    ensures b >= base
  {
  }

  predicate WholeWord(edge: bv32) { edge & 3 == 0 }

  lemma SameSide(a: bv32, b: bv32, edge: bv32)
    requires WholeWord(edge) && NumberBits(a) == NumberBits(b)
    ensures AtLeast(a, edge) == AtLeast(b, edge)
  {
    if AtLeast(a, edge) { SameWordAtLeast(a, b, edge); }
    if AtLeast(b, edge) { SameWordAtLeast(b, a, edge); }
  }

  lemma SameSideBits(a: Word, b: Word, edge: Word)
    requires WholeWord(edge.bits) && NumberBits(a.bits) == NumberBits(b.bits)
    ensures AtLeast(a.bits, edge.bits) == AtLeast(b.bits, edge.bits)
  {
    SameSide(a.bits, b.bits, edge.bits);
  }

  lemma EndAligned(base: Word, size: Word)
    requires WellPlaced(base, size)
    ensures Aligned(Full, base) && Aligned(Full, Add(base, size))
  {
    SumAligned(base.bits, size.bits);
  }

  lemma AlignedIsWhole(edge: Word)
    requires Aligned(Full, edge)
    ensures WholeWord(edge.bits)
  {
  }

  lemma SameNumbers(a: Word, b: Word)
    requires WordNumber(a) == WordNumber(b)
    ensures NumberBits(a.bits) == NumberBits(b.bits)
  {
  }

  lemma SameSideOfWhole(a: Word, b: Word, edge: Word)
    requires WholeWord(edge.bits) && NumberBits(a.bits) == NumberBits(b.bits)
    ensures NotBelow(a, edge) == NotBelow(b, edge)
  {
    SameSideBits(a, b, edge);
  }

  lemma SameSideWords(a: Word, b: Word, edge: Word)
    requires Aligned(Full, edge) && WordNumber(a) == WordNumber(b)
    ensures NotBelow(a, edge) == NotBelow(b, edge)
  {
    AlignedIsWhole(edge);
    SameNumbers(a, b);
    SameSideOfWhole(a, b, edge);
  }

  lemma SameBetween(base: Word, end: Word, a: Word, b: Word)
    requires Aligned(Full, base) && Aligned(Full, end) && WordNumber(a) == WordNumber(b)
    ensures (NotBelow(a, base) && !NotBelow(a, end)) == (NotBelow(b, base) && !NotBelow(b, end))
  {
    SameSideWords(a, b, base);
    SameSideWords(a, b, end);
  }

  lemma SameWordContains(base: Word, size: Word, a: Word, b: Word)
    requires WellPlaced(base, size) && WordNumber(a) == WordNumber(b)
    ensures Contains(base, size, a) == Contains(base, size, b)
  {
    EndAligned(base, size);
    SameBetween(base, Add(base, size), a, b);
  }

  lemma SameNumber(a: bv32, b: bv32, base: bv32)
    requires base & 3 == 0
    ensures NumberBits(MinusBits(a, base)) == NumberBits(MinusBits(b, base)) <==> NumberBits(a) == NumberBits(b)
  {
    if NumberBits(a) == NumberBits(b) {
      SubtractSameWord(a, b, base);
    } else if NumberBits(MinusBits(a, base)) == NumberBits(MinusBits(b, base)) {
      SubtractOtherWord(a, b, base, MinusBits(a, base), MinusBits(b, base));
    }
  }

  lemma SameWordOffset(base: Word, a: Word, b: Word)
    requires Aligned(Full, base)
    ensures WordNumber(Minus(a, base)) == WordNumber(Minus(b, base)) <==> WordNumber(a) == WordNumber(b)
  {
    SameNumber(a.bits, b.bits, base.bits);
  }

  lemma LowBits(a: bv32, b: bv32)
    requires OffsetBits(a) == OffsetBits(b)
    ensures (a & 1 == 0) == (b & 1 == 0) && (a & 2 != 0) == (b & 2 != 0)
  {
  }

  lemma SameLane(base: Word, a: Word, width: Width)
    requires Aligned(Full, base)
    ensures Aligned(width, Minus(a, base)) == Aligned(width, a) && Lane(width, Minus(a, base)) == Lane(width, a)
  {
    SubtractOffset(a.bits, base.bits);
    LowBits(a.bits, Minus(a, base).bits);
  }

  // ---------------------------------------------------------------------------------------------
  // The regions together

  /** The first region that contains a, or the number of regions. */
  function First(regions: seq<Region>, a: Word, j: nat): (i: nat)
    requires j <= |regions|
    ensures j <= i <= |regions|
    decreases |regions| - j
  {
    if j == |regions| || Contains(regions[j].base, regions[j].size, a) then j else First(regions, a, j + 1)
  }

  lemma {:induction false} FirstIsFirst(regions: seq<Region>, a: Word, j: nat, i: nat)
    requires j <= i <= |regions|
    requires forall k :: j <= k < i ==> !Contains(regions[k].base, regions[k].size, a)
    requires i < |regions| ==> Contains(regions[i].base, regions[i].size, a)
    ensures First(regions, a, j) == i
    decreases i - j
  {
    if j < i { FirstIsFirst(regions, a, j + 1, i); }
  }

  predicate AllPlaced(regions: seq<Region>) {
    forall j :: 0 <= j < |regions| ==> WellPlaced(regions[j].base, regions[j].size)
  }

  lemma {:induction false} SameWordFirst(regions: seq<Region>, a: Word, b: Word, j: nat)
    requires j <= |regions| && AllPlaced(regions) && WordNumber(a) == WordNumber(b)
    ensures First(regions, a, j) == First(regions, b, j)
    decreases |regions| - j
  {
    if j < |regions| {
      SameWordContains(regions[j].base, regions[j].size, a, b);
      SameWordFirst(regions, a, b, j + 1);
    }
  }

  lemma {:induction false} FirstAttached(regions: seq<Region>, r: Region, a: Word, j: nat)
    requires j <= |regions|
    ensures var i := First(regions, a, j);
      First(regions + [r], a, j) == if i < |regions| || Contains(r.base, r.size, a) then i else |regions| + 1
    decreases |regions| - j
  {
    if j < |regions| && !Contains(regions[j].base, regions[j].size, a) { FirstAttached(regions, r, a, j + 1); }
  }

  /** The word of the image at address a is the one in the first region that contains a. */
  predicate ShowsAt(regions: seq<Region>, contents: seq<Memory>, image: Memory, a: Word)
    requires |contents| == |regions|
  {
    var j := First(regions, a, 0);
    if j == |regions| then !Mapped(image, a)
    else
      var offset := Minus(a, regions[j].base);
      Mapped(contents[j], offset) && Mapped(image, a) && image[WordNumber(a)] == contents[j][WordNumber(offset)]
  }

  /** The image is what the regions make up: an address belongs to the first region that contains it. */
  ghost predicate Shows(regions: seq<Region>, contents: seq<Memory>, image: Memory) {
    |contents| == |regions| && AllPlaced(regions) && forall a: Word :: ShowsAt(regions, contents, image, a)
  }

  lemma StoreShowsAt(regions: seq<Region>, contents: seq<Memory>, image: Memory, a: Word, x: Word, j: nat,
      contents': seq<Memory>, b: Word)
    requires Shows(regions, contents, image) && j == First(regions, a, 0) && j < |regions|
    requires contents' == contents[j := contents[j][WordNumber(Minus(a, regions[j].base)) := x]]
    ensures ShowsAt(regions, contents', image[WordNumber(a) := x], b)
  {
    assert ShowsAt(regions, contents, image, a) && ShowsAt(regions, contents, image, b);
    if WordNumber(a) == WordNumber(b) { SameWordFirst(regions, a, b, 0); }
    SameWordOffset(regions[j].base, a, b);
  }

  lemma StoreShows(regions: seq<Region>, contents: seq<Memory>, image: Memory, a: Word, x: Word, j: nat,
                   contents': seq<Memory>, image': Memory)
    requires Shows(regions, contents, image) && j == First(regions, a, 0) && j < |regions|
    requires contents' == contents[j := contents[j][WordNumber(Minus(a, regions[j].base)) := x]]
    requires image' == image[WordNumber(a) := x]
    ensures Shows(regions, contents', image')
  {
    forall b: Word ensures ShowsAt(regions, contents', image', b) {
      StoreShowsAt(regions, contents, image, a, x, j, contents', b);
    }
  }

  // Attaching a region

  function AddressOf(base: Word, k: Word): Word { Word(PlusBits(WordStart(k.bits), base.bits)) }
  function WordStart(k: bv32): bv32 { k << 2 }

  lemma StartOfWord(x: bv32)
    ensures NumberBits(WordStart(NumberBits(x))) == NumberBits(x)
  {
  }

  lemma DifferencePlus(a: bv32, base: bv32, x: bv32)
    requires x == MinusBits(a, base)
    ensures PlusBits(x, base) == a
  {
    MinusPlus(a, base);
  }

  lemma AddressFound(base: bv32, a: bv32, x: bv32)
    requires base & 3 == 0 && x == MinusBits(a, base)
    ensures NumberBits(PlusBits(WordStart(NumberBits(x)), base)) == NumberBits(a)
  {
    StartOfWord(x);
    AddSameWord(WordStart(NumberBits(x)), x, base);
    DifferencePlus(a, base, x);
  }

  lemma AddressOfOffset(base: Word, a: Word)
    requires Aligned(Full, base)
    ensures WordNumber(AddressOf(base, WordNumber(Minus(a, base)))) == WordNumber(a)
  {
    AddressFound(base.bits, a.bits, Minus(a, base).bits);
  }

  /** The word number of word k of a region, and whether it is in the region. */
  function NumberOf(base: Word, k: Word): Word { WordNumber(AddressOf(base, k)) }
  predicate InRegion(base: Word, size: Word, k: Word) { Contains(base, size, AddressOf(base, k)) }

  function Numbers(base: Word, size: Word, words: Memory): set<Word> {
    set k | k in words && InRegion(base, size, k) :: NumberOf(base, k)
  }

  /** The words of a new region that no earlier region has, all zero. */
  function NewWords(image: Memory, base: Word, size: Word, words: Memory): Memory {
    Cleared(Numbers(base, size, words), image)
  }

  function Cleared(numbers: set<Word>, image: Memory): Memory { map w | w in numbers && w !in image :: Zero() }

  predicate Covers(words: Memory, base: Word, a: Word) { Mapped(words, Minus(a, base)) }

  lemma InNumbers(base: Word, size: Word, words: Memory, k: Word)
    requires k in words && InRegion(base, size, k)
    ensures NumberOf(base, k) in Numbers(base, size, words)
  {
  }

  lemma OwnNumber(base: Word, size: Word, a: Word, k: Word)
    requires WellPlaced(base, size) && Contains(base, size, a) && k == WordNumber(Minus(a, base))
    ensures InRegion(base, size, k) && NumberOf(base, k) == WordNumber(a)
  {
    AddressOfOffset(base, a);
    SameWordContains(base, size, a, AddressOf(base, k));
  }

  lemma NumberThere(base: Word, size: Word, words: Memory, a: Word)
    requires WellPlaced(base, size) && Contains(base, size, a) && Covers(words, base, a)
    ensures WordNumber(a) in Numbers(base, size, words)
  {
    OwnNumber(base, size, a, WordNumber(Minus(a, base)));
    InNumbers(base, size, words, WordNumber(Minus(a, base)));
  }

  lemma NumberInside(base: Word, size: Word, words: Memory, a: Word)
    requires WellPlaced(base, size) && WordNumber(a) in Numbers(base, size, words)
    ensures Contains(base, size, a)
  {
    var k :| k in words && InRegion(base, size, k) && NumberOf(base, k) == WordNumber(a);
    SameWordContains(base, size, a, AddressOf(base, k));
  }

  lemma ClearedAt(numbers: set<Word>, image: Memory, w: Word)
    ensures w in Cleared(numbers, image) <==> w in numbers && w !in image
  {
  }

  lemma NewWordsAt(image: Memory, base: Word, size: Word, words: Memory, a: Word)
    requires WellPlaced(base, size) && forall b: Word :: Contains(base, size, b) ==> Covers(words, base, b)
    ensures Mapped(NewWords(image, base, size, words), a) <==> Contains(base, size, a) && !Mapped(image, a)
  {
    NumbersAt(base, size, words, a);
    ClearedAt(Numbers(base, size, words), image, WordNumber(a));
  }

  lemma NumbersAt(base: Word, size: Word, words: Memory, a: Word)
    requires WellPlaced(base, size) && (Contains(base, size, a) ==> Covers(words, base, a))
    ensures WordNumber(a) in Numbers(base, size, words) <==> Contains(base, size, a)
  {
    if Contains(base, size, a) {
      NumberThere(base, size, words, a);
    } else if WordNumber(a) in Numbers(base, size, words) {
      NumberInside(base, size, words, a);
    }
  }

  /**
   * The image after attaching: the words of the region that were not there are there and zero, the others as
   * before.
   */
  ghost predicate Grown(image: Memory, base: Word, size: Word, image': Memory) {
    && (forall a: Word :: Mapped(image', a) <==> Mapped(image, a) || Contains(base, size, a))
    && forall a: Word :: Mapped(image', a) ==>
        image'[WordNumber(a)] == if Mapped(image, a) then image[WordNumber(a)] else Zero()
  }

  lemma ImageGrows(image: Memory, base: Word, size: Word, words: Memory, image': Memory)
    requires WellPlaced(base, size) && forall b: Word :: Contains(base, size, b) ==> Covers(words, base, b)
    requires image' == image + NewWords(image, base, size, words)
    ensures Grown(image, base, size, image')
  {
    forall a: Word
      ensures Mapped(image', a) <==> Mapped(image, a) || Contains(base, size, a)
    {
      NewWordsAt(image, base, size, words, a);
    }
  }

  lemma AttachShows(regions: seq<Region>, contents: seq<Memory>, image: Memory, r: Region, words: Memory,
      image': Memory)
    requires Shows(regions, contents, image) && WellPlaced(r.base, r.size)
    requires forall a: Word :: Contains(r.base, r.size, a) ==> Covers(words, r.base, a)
    requires forall k :: k in words ==> words[k] == Zero()
    requires image' == image + NewWords(image, r.base, r.size, words)
    ensures Shows(regions + [r], contents + [words], image')
  {
    forall a: Word ensures ShowsAt(regions + [r], contents + [words], image', a) {
      assert ShowsAt(regions, contents, image, a);
      FirstAttached(regions, r, a, 0);
      NewWordsAt(image, r.base, r.size, words, a);
      if Contains(r.base, r.size, a) { assert Covers(words, r.base, a); }
    }
  }

  class Bus {
    var regions: seq<Region>
    /** The physical memory the regions make up. */
    ghost var image: Memory
    ghost var contents: seq<Memory>

    ghost function Devices(): set<SimpleMemory>
      reads this
    {
      set j | 0 <= j < |regions| :: regions[j].device
    }

    ghost predicate Distinct()
      reads this
    {
      forall i, j :: 0 <= i < j < |regions| ==> regions[i].device != regions[j].device
    }

    ghost predicate Valid()
      reads this, Devices()
    {
      && Distinct() && Shows(regions, contents, image)
      && forall j :: 0 <= j < |regions| ==> regions[j].device.words == contents[j]
    }

    constructor ()
      ensures Valid() && regions == [] && image == map[]
    {
      regions := [];
      contents := [];
      image := map[];
    }

    /** At most 16 regions; a new one is cleared, and earlier ones keep what they contain. */
    method Attach(device: SimpleMemory, base: Word, size: Word) returns (ok: bool)
      requires Valid() && WellPlaced(base, size) && device !in Devices()
      requires forall a: Word :: Contains(base, size, a) ==> Covers(device.words, base, a)
      modifies this, device
      ensures Valid() && (ok <==> |old(regions)| < 16)
      ensures regions == if ok then old(regions) + [Region(base, size, device)] else old(regions)
      ensures if ok then Grown(old(image), base, size, image) else image == old(image)
    {
      ok := |regions| < 16;
      if ok {
        device.Reset();
        var r := Region(base, size, device);
        ghost var image' := image + NewWords(image, base, size, device.words);
        AttachShows(regions, contents, image, r, device.words, image');
        ImageGrows(image, base, size, device.words, image');
        regions := regions + [r];
        contents := contents + [device.words];
        image := image';
      }
    }

    /** The loop that every accessor runs: the index of the region for a, or the number of regions. */
    method Find(a: Word) returns (j: nat)
      ensures j == First(regions, a, 0)
    {
      j := 0;
      while j < |regions| && !Contains(regions[j].base, regions[j].size, a)
        invariant j <= |regions|
        invariant forall k :: 0 <= k < j ==> !Contains(regions[k].base, regions[k].size, a)
      {
        j := j + 1;
      }
      FirstIsFirst(regions, a, 0, j);
    }

    method Load(a: Word, width: Width, sext: bool) returns (r: Loaded)
      requires Valid()
      ensures r == LoadMem(image, a, width, sext)
    {
      var j := Find(a);
      assert ShowsAt(regions, contents, image, a);
      if j == |regions| {
        r := LoadHalt;
      } else {
        SameLane(regions[j].base, a, width);
        r := regions[j].device.Load(Minus(a, regions[j].base), width, sext);
      }
    }

    /** A page-table entry or an instruction: 0 where there is no memory. */
    method ReadWord(a: Word) returns (found: bool, value: Loaded)
      requires Valid()
      ensures found <==> Mapped(image, a)
      ensures value == if found then LoadMem(image, a, Full, false) else Loaded(Zero())
    {
      var j := Find(a);
      assert ShowsAt(regions, contents, image, a);
      found := j < |regions|;
      value := Loaded(Zero());
      if found {
        SameLane(regions[j].base, a, Full);
        value := regions[j].device.Load(Minus(a, regions[j].base), Full, false);
      }
    }

    method Store(a: Word, data: Word, width: Width) returns (ok: bool)
      requires Valid()
      modifies this`image, this`contents, Devices()
      ensures Valid() && regions == old(regions)
      ensures match StoreMem(old(image), a, data, width)
              case Stored(mem) => ok && image == mem
              case StoreHalt => !ok && image == old(image)
    {
      var j := Find(a);
      assert ShowsAt(regions, contents, image, a);
      ok := false;
      if j < |regions| {
        var base, device := regions[j].base, regions[j].device;
        SameLane(base, a, width);
        ghost var x := Insert(device.words[WordNumber(Minus(a, base))], data, width, Minus(a, base));
        assert device in Devices();
        ok := device.Store(Minus(a, base), data, width);
        if ok {
          ghost var contents' := contents[j := contents[j][WordNumber(Minus(a, base)) := x]];
          StoreShows(regions, contents, image, a, x, j, contents', image[WordNumber(a) := x]);
          contents, image := contents', image[WordNumber(a) := x];
        }
      }
    }
  }
}
