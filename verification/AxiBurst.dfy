// Burst addresses of the AXI4 to AXI4-Lite converter, and of the C++ memory model used to test it.
module AxiBurst {
  import opened Words

  /** Two-bit burst type: fixed 0, incrementing 1, wrapping 2, and 3, which is reserved. */
  type Kind = k: nat | k < 4
  /** Burst length less one. */
  type Len = n: nat | n < 256

  function WrapMask(len: Len): bv32 {
    match len case 0 => 0x03 case 1 => 0x07 case 3 => 0x0F case 7 => 0x1F case 15 => 0x3F case _ => 0x3F
  }

  function WrapNext(addr: bv32, mask: bv32): bv32 { (addr & !mask) | ((addr + 4) & mask) }
  function Plus4(addr: bv32): bv32 { addr + 4 }

  /** The address of the next beat, as the converter computes it: type 3 counts as incrementing. */
  function NextAddr(addr: Word, kind: Kind, len: Len): Word {
    match kind
    case 0 => addr
    case 2 => Word(WrapNext(addr.bits, WrapMask(len)))
    case _ => Word(Plus4(addr.bits))
  }

  /** The same in the memory model: type 3 counts as fixed. */
  function ModelNextAddr(addr: Word, kind: Kind, len: Len): Word {
    match kind
    case 2 => Word(WrapNext(addr.bits, WrapMask(len)))
    case 1 => Word(Plus4(addr.bits))
    case _ => addr
  }

  /** The address of beat n. */
  function Beat(addr: Word, kind: Kind, len: Len, n: nat): Word {
    if n == 0 then addr else NextAddr(Beat(addr, kind, len, n - 1), kind, len)
  }

  // ---------------------------------------------------------------------------------------------
  // Closed forms

  /** 4n modulo 2^32. */
  function Offset(n: nat): bv32 { if n == 0 then 0 else Plus4(Offset(n - 1)) }

  function IncrAt(addr: bv32, o: bv32): bv32 { addr + o }
  function WrapAt(addr: bv32, mask: bv32, o: bv32): bv32 { (addr & !mask) | ((addr + o) & mask) }

  lemma IncrStart(addr: bv32)
    ensures IncrAt(addr, 0) == addr
  {
  }

  lemma IncrStep(addr: bv32, o: bv32)
    ensures Plus4(IncrAt(addr, o)) == IncrAt(addr, Plus4(o))
  {
    assert Plus4(addr + o) == addr + (o + 4);
    assert IncrAt(addr, o + 4) == addr + (o + 4);
  }

  /** Incrementing: beat n is at addr + 4n modulo 2^32. */
  lemma {:induction false} IncrBeat(addr: Word, kind: Kind, len: Len, n: nat)
    requires kind == 1 || kind == 3
    ensures Beat(addr, kind, len, n) == Word(IncrAt(addr.bits, Offset(n)))
  {
    if n == 0 {
      IncrStart(addr.bits);
    } else {
      IncrBeat(addr, kind, len, n - 1);
      IncrStep(addr.bits, Offset(n - 1));
    }
  }

  predicate IsMask(m: bv32) { m == 0x03 || m == 0x07 || m == 0x0F || m == 0x1F || m == 0x3F }

  lemma MaskIs(len: Len)
    ensures IsMask(WrapMask(len))
  {
  }

  lemma WrapStart(addr: bv32, mask: bv32)
    ensures WrapAt(addr, mask, 0) == addr
  {
  }

  lemma WrapStep03(addr: bv32, o: bv32)
    ensures WrapNext(WrapAt(addr, 0x03, o), 0x03) == WrapAt(addr, 0x03, Plus4(o))
  {
  }

  lemma WrapStep07(addr: bv32, o: bv32)
    ensures WrapNext(WrapAt(addr, 0x07, o), 0x07) == WrapAt(addr, 0x07, Plus4(o))
  {
  }

  lemma WrapStep0F(addr: bv32, o: bv32)
    ensures WrapNext(WrapAt(addr, 0x0F, o), 0x0F) == WrapAt(addr, 0x0F, Plus4(o))
  {
  }

  lemma WrapStep1F(addr: bv32, o: bv32)
    ensures WrapNext(WrapAt(addr, 0x1F, o), 0x1F) == WrapAt(addr, 0x1F, Plus4(o))
  {
  }

  lemma WrapStep3F(addr: bv32, o: bv32)
    ensures WrapNext(WrapAt(addr, 0x3F, o), 0x3F) == WrapAt(addr, 0x3F, Plus4(o))
  {
  }

  lemma WrapStep(addr: bv32, mask: bv32, o: bv32)
    requires IsMask(mask)
    ensures WrapNext(WrapAt(addr, mask, o), mask) == WrapAt(addr, mask, Plus4(o))
  {
    if mask == 0x03 { WrapStep03(addr, o); } else if mask == 0x07 { WrapStep07(addr, o); }
    else if mask == 0x0F { WrapStep0F(addr, o); } else if mask == 0x1F { WrapStep1F(addr, o); }
    else { WrapStep3F(addr, o); }
  }

  /** Wrapping: beat n keeps the window of addr and advances by 4n inside it. */
  lemma {:induction false} WrapBeat(addr: Word, len: Len, n: nat)
    ensures Beat(addr, 2, len, n) == Word(WrapAt(addr.bits, WrapMask(len), Offset(n)))
  {
    if n == 0 {
      WrapStart(addr.bits, WrapMask(len));
    } else {
      WrapBeat(addr, len, n - 1);
      MaskIs(len);
      WrapStep(addr.bits, WrapMask(len), Offset(n - 1));
    }
  }

  // ---------------------------------------------------------------------------------------------
  // A wrapping burst of 2, 4, 8 or 16 beats goes round its window

  /** The lengths AXI4 allows for wrapping bursts. */
  predicate WrapLength(len: Len) { len == 1 || len == 3 || len == 7 || len == 15 }

  /** Address w is a beat address of the aligned window of addr: same window, same place in its word. */
  predicate InWindow(addr: Word, len: Len, w: Word) { SameWindow(addr.bits, w.bits, WrapMask(len)) }
  predicate SameWindow(addr: bv32, w: bv32, mask: bv32) { addr & !mask == w & !mask && addr & 3 == w & 3 }

  /** How far round the window w is from addr. */
  function Distance(addr: bv32, w: bv32, mask: bv32): bv32 { (w - addr) & mask }

  predicate Within(o: bv32, mask: bv32) { o & !mask == 0 }

  lemma DistanceOfWrapAt03(addr: bv32, mask: bv32, o: bv32)
    requires mask == 0x03 && Within(o, mask)
    ensures Distance(addr, WrapAt(addr, mask, o), mask) == o
  {
  }

  lemma DistanceOfWrapAt07(addr: bv32, mask: bv32, o: bv32)
    requires mask == 0x07 && Within(o, mask)
    ensures Distance(addr, WrapAt(addr, mask, o), mask) == o
  {
  }

  lemma DistanceOfWrapAt0F(addr: bv32, mask: bv32, o: bv32)
    requires mask == 0x0F && Within(o, mask)
    ensures Distance(addr, WrapAt(addr, mask, o), mask) == o
  {
  }

  lemma DistanceOfWrapAt1F(addr: bv32, mask: bv32, o: bv32)
    requires mask == 0x1F && Within(o, mask)
    ensures Distance(addr, WrapAt(addr, mask, o), mask) == o
  {
  }

  lemma DistanceOfWrapAt3F(addr: bv32, mask: bv32, o: bv32)
    requires mask == 0x3F && Within(o, mask)
    ensures Distance(addr, WrapAt(addr, mask, o), mask) == o
  {
  }

  lemma DistanceOfWrapAt(addr: bv32, mask: bv32, o: bv32)
    requires IsMask(mask) && Within(o, mask)
    ensures Distance(addr, WrapAt(addr, mask, o), mask) == o
  {
    if mask == 0x03 { DistanceOfWrapAt03(addr, mask, o); } else if mask == 0x07 { DistanceOfWrapAt07(addr, mask, o); }
    else if mask == 0x0F { DistanceOfWrapAt0F(addr, mask, o); }
    else if mask == 0x1F { DistanceOfWrapAt1F(addr, mask, o); }
    else { DistanceOfWrapAt3F(addr, mask, o); }
  }

  lemma WrapAtDistance03(addr: bv32, mask: bv32, w: bv32)
    requires mask == 0x03 && SameWindow(addr, w, mask)
    ensures WrapAt(addr, mask, Distance(addr, w, mask)) == w
  {
  }

  lemma WrapAtDistance07(addr: bv32, mask: bv32, w: bv32)
    requires mask == 0x07 && SameWindow(addr, w, mask)
    ensures WrapAt(addr, mask, Distance(addr, w, mask)) == w
  {
  }

  lemma WrapAtDistance0F(addr: bv32, mask: bv32, w: bv32)
    requires mask == 0x0F && SameWindow(addr, w, mask)
    ensures WrapAt(addr, mask, Distance(addr, w, mask)) == w
  {
  }

  lemma WrapAtDistance1F(addr: bv32, mask: bv32, w: bv32)
    requires mask == 0x1F && SameWindow(addr, w, mask)
    ensures WrapAt(addr, mask, Distance(addr, w, mask)) == w
  {
  }

  lemma WrapAtDistance3F(addr: bv32, mask: bv32, w: bv32)
    requires mask == 0x3F && SameWindow(addr, w, mask)
    ensures WrapAt(addr, mask, Distance(addr, w, mask)) == w
  {
  }

  lemma WrapAtDistance(addr: bv32, mask: bv32, w: bv32)
    requires IsMask(mask) && SameWindow(addr, w, mask)
    ensures WrapAt(addr, mask, Distance(addr, w, mask)) == w
  {
    if mask == 0x03 { WrapAtDistance03(addr, mask, w); } else if mask == 0x07 { WrapAtDistance07(addr, mask, w); }
    else if mask == 0x0F { WrapAtDistance0F(addr, mask, w); } else if mask == 0x1F { WrapAtDistance1F(addr, mask, w); }
    else { WrapAtDistance3F(addr, mask, w); }
  }

  lemma DistanceWithin(addr: bv32, mask: bv32, w: bv32)
    ensures Within(Distance(addr, w, mask), mask)
  {
  }

  lemma DistanceAligned(addr: bv32, mask: bv32, w: bv32)
    requires addr & 3 == w & 3
    ensures Distance(addr, w, mask) & 3 == 0
  {
  }

  lemma DistanceIs(addr: bv32, mask: bv32, w: bv32)
    requires IsMask(mask) && SameWindow(addr, w, mask)
    ensures Within(Distance(addr, w, mask), mask) && Distance(addr, w, mask) & 3 == 0
  {
    DistanceWithin(addr, mask, w);
    DistanceAligned(addr, mask, w);
  }

  /** The number of the beat at a distance below 64. */
  function Number(o: bv32): nat {
    match o
    case 0 => 0 case 4 => 1 case 8 => 2 case 12 => 3 case 16 => 4 case 20 => 5 case 24 => 6 case 28 => 7
    case 32 => 8 case 36 => 9 case 40 => 10 case 44 => 11 case 48 => 12 case 52 => 13 case 56 => 14 case _ => 15
  }

  /** The distance of a beat below 16. */
  function Distances(n: nat): bv32 {
    match n
    case 0 => 0 case 1 => 4 case 2 => 8 case 3 => 12 case 4 => 16 case 5 => 20 case 6 => 24 case 7 => 28
    case 8 => 32 case 9 => 36 case 10 => 40 case 11 => 44 case 12 => 48 case 13 => 52 case 14 => 56 case _ => 60
  }

  lemma DistancesStep(n: nat)
    requires 0 < n < 16
    ensures Plus4(Distances(n - 1)) == Distances(n)
  {
  }

  lemma {:induction false} OffsetIsDistance(n: nat)
    requires n < 16
    ensures Offset(n) == Distances(n)
    decreases n
  {
    if n > 0 {
      OffsetIsDistance(n - 1);
      DistancesStep(n);
    }
  }

  lemma NumberOfDistances(n: nat)
    requires n < 16
    ensures Number(Distances(n)) == n
  {
  }

  lemma DistancesOfNumber(o: bv32)
    requires o & !0x3F == 0 && o & 3 == 0
    ensures Number(o) < 16 && Distances(Number(o)) == o
  {
  }

  lemma DistancesWithin(n: nat, len: Len)
    requires WrapLength(len) && n <= len
    ensures Within(Distances(n), WrapMask(len))
  {
  }

  lemma NumberWithin(o: bv32, len: Len)
    requires WrapLength(len) && Within(o, WrapMask(len)) && o & 3 == 0
    ensures Number(o) <= len && o & !0x3F == 0
  {
  }

  /** The beat at which a wrapping burst is at w. */
  function BeatOf(addr: Word, len: Len, w: Word): nat { Number(Distance(addr.bits, w.bits, WrapMask(len))) }

  lemma BeatIs(addr: Word, len: Len, n: nat)
    requires WrapLength(len) && n <= len
    ensures Beat(addr, 2, len, n) == Word(WrapAt(addr.bits, WrapMask(len), Distances(n)))
    ensures BeatOf(addr, len, Beat(addr, 2, len, n)) == n
  {
    WrapBeat(addr, len, n);
    OffsetIsDistance(n);
    MaskIs(len);
    DistancesWithin(n, len);
    DistanceOfWrapAt(addr.bits, WrapMask(len), Distances(n));
    NumberOfDistances(n);
  }

  /** A wrapping burst visits every word of its window, each at exactly one beat. */
  lemma WrapVisits(addr: Word, len: Len, w: Word)
    requires WrapLength(len) && InWindow(addr, len, w)
    ensures BeatOf(addr, len, w) <= len
    ensures forall n: nat :: n <= len ==> (Beat(addr, 2, len, n) == w <==> n == BeatOf(addr, len, w))
  {
    var d := Distance(addr.bits, w.bits, WrapMask(len));
    MaskIs(len);
    DistanceIs(addr.bits, WrapMask(len), w.bits);
    NumberWithin(d, len);
    DistancesOfNumber(d);
    WrapAtDistance(addr.bits, WrapMask(len), w.bits);
    forall n: nat | n <= len ensures Beat(addr, 2, len, n) == w <==> n == BeatOf(addr, len, w) {
      BeatIs(addr, len, n);
    }
  }

  lemma WrapAtInWindow(addr: bv32, mask: bv32, o: bv32)
    requires IsMask(mask) && o & 3 == 0
    ensures SameWindow(addr, WrapAt(addr, mask, o), mask)
  {
  }

  lemma {:induction false} OffsetAligned(n: nat)
    ensures Offset(n) & 3 == 0
  {
    if n > 0 {
      OffsetAligned(n - 1);
      Plus4Aligned(Offset(n - 1));
    }
  }

  lemma Plus4Aligned(o: bv32)
    requires o & 3 == 0
    ensures Plus4(o) & 3 == 0
  {
  }

  lemma RoundTheWindow(addr: bv32, len: Len)
    requires WrapLength(len)
    ensures WrapNext(WrapAt(addr, WrapMask(len), Distances(len)), WrapMask(len)) == addr
  {
    match len case 1 => Round07(addr); case 3 => Round0F(addr); case 7 => Round1F(addr); case 15 => Round3F(addr);
  }

  lemma Round07(addr: bv32)
    ensures WrapNext(WrapAt(addr, 0x07, 4), 0x07) == addr
  {
  }

  lemma Round0F(addr: bv32)
    ensures WrapNext(WrapAt(addr, 0x0F, 12), 0x0F) == addr
  {
  }

  lemma Round1F(addr: bv32)
    ensures WrapNext(WrapAt(addr, 0x1F, 28), 0x1F) == addr
  {
  }

  lemma Round3F(addr: bv32)
    ensures WrapNext(WrapAt(addr, 0x3F, 60), 0x3F) == addr
  {
  }

  /** A wrapping burst never leaves its window, and the beat after the last would be the first again. */
  lemma WrapStays(addr: Word, len: Len, n: nat)
    ensures InWindow(addr, len, Beat(addr, 2, len, n))
    ensures WrapLength(len) ==> Beat(addr, 2, len, len + 1) == addr
  {
    WrapBeat(addr, len, n);
    MaskIs(len);
    OffsetAligned(n);
    WrapAtInWindow(addr.bits, WrapMask(len), Offset(n));
    if WrapLength(len) {
      BeatIs(addr, len, len);
      RoundTheWindow(addr.bits, len);
    }
  }

  // ---------------------------------------------------------------------------------------------
  // The memory model's unrolling

  /** The address of beat n in the memory model. */
  function ModelBeat(addr: Word, kind: Kind, len: Len, n: nat): Word {
    if n == 0 then addr else ModelNextAddr(ModelBeat(addr, kind, len, n - 1), kind, len)
  }

  function WordAligned(addr: Word): Word { Masked(addr, 0xFFFF_FFFC) }

  /** The memory model's unrolling of a read burst: it starts at the word that the address is in. */
  method UnrollRead(addr: Word, kind: Kind, len: Len) returns (items: seq<Word>, last: seq<bool>)
    ensures |items| == |last| == len + 1
    ensures forall i :: 0 <= i <= len ==>
      items[i] == ModelBeat(WordAligned(addr), kind, len, i) && (last[i] <==> i == len)
  {
    var next := WordAligned(addr);
    items, last := [], [];
    for i := 0 to len + 1
      invariant |items| == |last| == i && next == ModelBeat(WordAligned(addr), kind, len, i)
      invariant forall j :: 0 <= j < i ==>
        items[j] == ModelBeat(WordAligned(addr), kind, len, j) && (last[j] <==> j == len)
    {
      items := items + [next];
      last := last + [i == len];
      next := ModelNextAddr(next, kind, len);
    }
  }

  lemma {:induction false} ModelBeatAgrees(addr: Word, kind: Kind, len: Len, n: nat)
    requires kind != 3
    ensures ModelBeat(addr, kind, len, n) == Beat(addr, kind, len, n)
  {
    if n > 0 { ModelBeatAgrees(addr, kind, len, n - 1); }
  }

  lemma Plus4Differs(x: bv32)
    ensures Plus4(x) != x
  {
  }

  /** Beat by beat, from a start the model may have rounded. */
  ghost predicate Agree(start: Word, addr: Word, kind: Kind, len: Len) {
    forall n: nat :: n <= len ==> ModelBeat(start, kind, len, n) == Beat(addr, kind, len, n)
  }

  lemma AgreeStart(start: Word, addr: Word, kind: Kind, len: Len)
    requires Agree(start, addr, kind, len)
    ensures start == addr
  {
    assert ModelBeat(start, kind, len, 0) == Beat(addr, kind, len, 0);
  }

  /** The two agree on all beats of a burst exactly when the type is not the reserved one or there is one beat. */
  lemma ModelAgreesExactly(addr: Word, kind: Kind, len: Len)
    ensures Agree(addr, addr, kind, len) <==> kind != 3 || len == 0
  {
    if kind != 3 {
      forall n: nat | n <= len ensures ModelBeat(addr, kind, len, n) == Beat(addr, kind, len, n) {
        ModelBeatAgrees(addr, kind, len, n);
      }
    } else if len > 0 {
      Plus4Differs(addr.bits);
      assert ModelBeat(addr, kind, len, 0) == addr && Beat(addr, kind, len, 0) == addr;
      assert ModelBeat(addr, kind, len, 1) == addr && Beat(addr, kind, len, 1) == Word(Plus4(addr.bits));
    }
  }

  /**
   * For reads the model also rounds the start down, so there they agree when the start is a word address, and
   * only then.
   */
  lemma ModelReadAgreesExactly(addr: Word, kind: Kind, len: Len)
    ensures Agree(WordAligned(addr), addr, kind, len) <==> WordAligned(addr) == addr && (kind != 3 || len == 0)
  {
    ModelAgreesExactly(addr, kind, len);
    if Agree(WordAligned(addr), addr, kind, len) {
      AgreeStart(WordAligned(addr), addr, kind, len);
    }
  }
}
