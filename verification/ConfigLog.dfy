// The configuration block: an append-only log of tagged entries in the last sector of the flash.
module ConfigLog {
  import opened Nor
  import opened SpiFlash

  /** Bytes of the block that are looked at, and the tag that ends the log. */
  const BLOCK := 1024
  const NO_TAG := 0xFFFF_FFFF
  const TFTP_SERVER := 449222

  type Word32 = n: nat | n < WORD32

  // ---------------------------------------------------------------------------------------------
  // Words in the block

  function Read32(buf: seq<Byte>, o: nat): Word32
    requires o + 4 <= |buf|
  {
    var b0: nat, b1: nat, b2: nat, b3: nat := buf[o], buf[o + 1], buf[o + 2], buf[o + 3];
    b0 + 0x100 * b1 + 0x1_0000 * b2 + 0x100_0000 * b3
  }

  /** Words are stored least significant byte first. */
  lemma ReadIsLittleEndian(buf: seq<Byte>, o: nat)
    requires o + 4 <= |buf|
    ensures var n := Read32(buf, o);
      && n % 0x100 == buf[o] && n / 0x100 % 0x100 == buf[o + 1]
      && n / 0x100 / 0x100 % 0x100 == buf[o + 2] && n / 0x100 / 0x100 / 0x100 == buf[o + 3]
  {
    var b0: nat, b1: nat, b2: nat, b3: nat := buf[o], buf[o + 1], buf[o + 2], buf[o + 3];
    LowByte(Read32(buf, o), b0, b1 + 0x100 * b2 + 0x1_0000 * b3);
    LowByte(b1 + 0x100 * b2 + 0x1_0000 * b3, b1, b2 + 0x100 * b3);
    LowByte(b2 + 0x100 * b3, b2, b3);
  }

  lemma LowByte(n: nat, low: nat, rest: nat)
    requires low < 0x100 && n == low + 0x100 * rest
    ensures n % 0x100 == low && n / 0x100 == rest
  {
  }

  function Bytes32(n: Word32): (b: seq<Byte>)
    ensures |b| == 4
  {
    [n % 0x100, n / 0x100 % 0x100, n / 0x1_0000 % 0x100, n / 0x100_0000]
  }

  lemma Digits(n: Word32)
    ensures n % 0x100 + 0x100 * (n / 0x100 % 0x100) + 0x1_0000 * (n / 0x1_0000 % 0x100)
      + 0x100_0000 * (n / 0x100_0000) == n
  {
    assert n / 0x1_0000 == n / 0x100 / 0x100 && n / 0x100_0000 == n / 0x1_0000 / 0x100;
  }

  lemma ReadBytes(n: Word32)
    ensures Read32(Bytes32(n), 0) == n
  {
    Digits(n);
  }

  lemma BlankTag(buf: seq<Byte>, o: nat)
    requires o + 4 <= |buf|
    ensures Read32(buf, o) == NO_TAG <==> forall i :: o <= i < o + 4 ==> buf[i] == 255
  {
  }

  function Round4(n: nat): nat { if n % 4 == 0 then n else n + (4 - n % 4) }

  // ---------------------------------------------------------------------------------------------
  // Scanning, as the code does it

  /** Where the next tag is: 32-bit arithmetic, wrap-around included. */
  function NextTag(buf: seq<Byte>, o: nat): nat
    requires o + 8 <= |buf|
  {
    (o + 8 + Round4(Read32(buf, o + 4)) % WORD32) % WORD32
  }

  /**
   * The end of the log; or a length that leaves the block; or, with lengths that wrap around or a tag in
   * the last word, a scan that goes back or reads behind the block.
   */
  datatype Scan = EndsAt(end: nat) | Broken | Astray

  function ScanFrom(buf: seq<Byte>, o: nat): Scan
    requires |buf| == BLOCK && o + 4 <= BLOCK
    decreases BLOCK - o
  {
    if Read32(buf, o) == NO_TAG then EndsAt(o)
    else if o + 8 > BLOCK then Astray
    else
      var next := NextTag(buf, o);
      if next > BLOCK - 4 then Broken
      else if next <= o || o + 12 > BLOCK then Astray
      else ScanFrom(buf, next)
  }

  /** The server address after the entries from o on have been applied: the last one wins. */
  function ServerFrom(buf: seq<Byte>, o: nat, server: Word32): Word32
    requires |buf| == BLOCK && o + 4 <= BLOCK && !ScanFrom(buf, o).Astray?
    decreases BLOCK - o
  {
    if Read32(buf, o) == NO_TAG || NextTag(buf, o) > BLOCK - 4 then server
    else ServerFrom(buf, NextTag(buf, o), if Read32(buf, o) == TFTP_SERVER then Read32(buf, o + 8) else server)
  }

  /** Whether the stored value of a tag differs from data, given the answer for the entries before o. */
  function DirtyFrom(buf: seq<Byte>, o: nat, tag: Word32, data: seq<Byte>, dirty: bool): bool
    requires |buf| == BLOCK && o + 4 <= BLOCK && !ScanFrom(buf, o).Astray?
    decreases BLOCK - o
  {
    if Read32(buf, o) == NO_TAG || NextTag(buf, o) > BLOCK - 4 then dirty
    else DirtyFrom(buf, NextTag(buf, o), tag, data, if Read32(buf, o) == tag then !Stored(buf, o, data) else dirty)
  }

  predicate Stored(buf: seq<Byte>, o: nat, data: seq<Byte>)
    requires |buf| == BLOCK && o + 8 <= BLOCK
  {
    Read32(buf, o + 4) == |data| && o + 8 + |data| <= BLOCK && buf[o + 8..o + 8 + |data|] == data
  }

  // ---------------------------------------------------------------------------------------------
  // The log as a list of entries

  datatype Entry = Entry(tag: Word32, value: seq<Byte>)

  function Length(e: Entry): nat { 8 + |e.value| }

  /** The entry at o, as the scan sees it. */
  predicate EntryAt(buf: seq<Byte>, o: nat, e: Entry) {
    && |buf| == BLOCK && e.tag != NO_TAG && (e.tag == TFTP_SERVER ==> |e.value| == 4)
    && o + 8 + Round4(|e.value|) + 4 <= BLOCK
    && Read32(buf, o) == e.tag && Read32(buf, o + 4) == |e.value| && buf[o + 8..o + 8 + |e.value|] == e.value
  }

  /** From o to end, buf holds these entries, one after the other, and then the end mark. */
  predicate LogAt(buf: seq<Byte>, o: nat, entries: seq<Entry>, end: nat)
    requires |buf| == BLOCK && o + 4 <= BLOCK
    decreases |entries|
  {
    if entries == [] then o == end && Read32(buf, o) == NO_TAG
    else
      var e := entries[0];
      && EntryAt(buf, o, e)
      && LogAt(buf, o + 8 + Round4(|e.value|), entries[1..], end)
  }

  datatype Option<T> = None | Some(value: T)

  /** The value of the last entry with a tag. */
  function Lookup(entries: seq<Entry>, tag: Word32): Option<seq<Byte>>
    decreases |entries|
  {
    if entries == [] then None
    else
      var later := Lookup(entries[1..], tag);
      if later.Some? then later else if entries[0].tag == tag then Some(entries[0].value) else None
  }

  lemma {:induction false} LookupAppended(entries: seq<Entry>, e: Entry, tag: Word32)
    ensures Lookup(entries + [e], tag) == if tag == e.tag then Some(e.value) else Lookup(entries, tag)
    decreases |entries|
  {
    if entries == [] {
      assert (entries + [e])[1..] == [];
    } else {
      assert (entries + [e])[1..] == entries[1..] + [e];
      LookupAppended(entries[1..], e, tag);
    }
  }

  lemma NextOfShort(buf: seq<Byte>, o: nat, n: nat)
    requires |buf| == BLOCK && o + 8 + Round4(n) + 4 <= BLOCK && Read32(buf, o + 4) == n
    ensures NextTag(buf, o) == o + 8 + Round4(n)
  {
  }

  lemma NextOfEntry(buf: seq<Byte>, o: nat, entries: seq<Entry>, end: nat)
    requires |buf| == BLOCK && o + 4 <= BLOCK && LogAt(buf, o, entries, end) && entries != []
    ensures NextTag(buf, o) == o + 8 + Round4(|entries[0].value|) && Read32(buf, o) == entries[0].tag
  {
    NextOfShort(buf, o, |entries[0].value|);
  }

  /** On a well-formed log the scan finds the end. */
  lemma {:induction false} ScanFindsEnd(buf: seq<Byte>, o: nat, entries: seq<Entry>, end: nat)
    requires |buf| == BLOCK && o + 4 <= BLOCK && LogAt(buf, o, entries, end)
    ensures ScanFrom(buf, o) == EndsAt(end) && o <= end && end + 4 <= BLOCK
    decreases |entries|
  {
    if entries != [] {
      NextOfEntry(buf, o, entries, end);
      ScanFindsEnd(buf, o + 8 + Round4(|entries[0].value|), entries[1..], end);
    }
  }

  lemma {:induction false} EndAligned(buf: seq<Byte>, o: nat, entries: seq<Entry>, end: nat)
    requires |buf| == BLOCK && o + 4 <= BLOCK && LogAt(buf, o, entries, end) && o % 4 == 0
    ensures end % 4 == 0
    decreases |entries|
  {
    if entries != [] {
      NextAligned(o, |entries[0].value|);
      EndAligned(buf, o + 8 + Round4(|entries[0].value|), entries[1..], end);
    }
  }

  /** Applying the log sets the server to the last value logged for it. */
  lemma {:induction false} ServerIsLast(buf: seq<Byte>, o: nat, entries: seq<Entry>, end: nat, server: Word32)
    requires |buf| == BLOCK && o + 4 <= BLOCK && LogAt(buf, o, entries, end)
    ensures !ScanFrom(buf, o).Astray?
    ensures match Lookup(entries, TFTP_SERVER)
            case None => ServerFrom(buf, o, server) == server
            case Some(v) => |v| == 4 && ServerFrom(buf, o, server) == Read32(v, 0)
    decreases |entries|
  {
    ScanFindsEnd(buf, o, entries, end);
    if entries != [] {
      NextOfEntry(buf, o, entries, end);
      var next := o + 8 + Round4(|entries[0].value|);
      ServerIsLast(buf, next, entries[1..], end, if entries[0].tag == TFTP_SERVER then Read32(buf, o + 8) else server);
    }
  }

  /** A tag is dirty when its last value differs from the data, or, without one, as the default says. */
  lemma {:induction false} DirtyIsLast(buf: seq<Byte>, o: nat, entries: seq<Entry>, end: nat, tag: Word32,
      data: seq<Byte>, dirty: bool)
    requires |buf| == BLOCK && o + 4 <= BLOCK && LogAt(buf, o, entries, end)
    ensures !ScanFrom(buf, o).Astray?
    ensures match Lookup(entries, tag)
            case None => DirtyFrom(buf, o, tag, data, dirty) == dirty
            case Some(v) => DirtyFrom(buf, o, tag, data, dirty) == (v != data)
    decreases |entries|
  {
    ScanFindsEnd(buf, o, entries, end);
    if entries != [] {
      NextOfEntry(buf, o, entries, end);
      var next := o + 8 + Round4(|entries[0].value|);
      DirtyIsLast(buf, next, entries[1..], end, tag, data,
                  if entries[0].tag == tag then !Stored(buf, o, data) else dirty);
    }
  }

  // ---------------------------------------------------------------------------------------------
  // Appending

  function Encoded(e: Entry): (b: seq<Byte>)
    requires |e.value| < WORD32
    ensures |b| == Length(e)
  {
    Bytes32(e.tag) + Bytes32(|e.value|) + e.value
  }

  /** An entry the code may add at `end`: with its padding and an end mark it fits the block. */
  predicate Fits(e: Entry, end: nat) {
    e.tag != NO_TAG && (e.tag == TFTP_SERVER ==> |e.value| == 4) && end + Length(e) + 4 <= BLOCK
  }

  /** buf' is buf with the entry written at the end of the log. */
  ghost predicate Appended(buf: seq<Byte>, buf': seq<Byte>, end: nat, e: Entry) {
    && |buf| == |buf'| == BLOCK && Fits(e, end) && buf'[..end] == buf[..end]
    && buf'[end..end + Length(e)] == Encoded(e) && Blank(buf', end + Length(e), BLOCK)
  }

  function EndAfter(end: nat, e: Entry): nat { end + 8 + Round4(|e.value|) }

  lemma ReadSame(buf: seq<Byte>, buf': seq<Byte>, o: nat, end: nat)
    requires |buf| == |buf'| && o + 4 <= end <= |buf| && buf'[..end] == buf[..end]
    ensures Read32(buf', o) == Read32(buf, o)
  {
    forall i | o <= i < o + 4 ensures buf'[i] == buf[i] { assert buf'[..end][i] == buf[..end][i]; }
  }

  lemma EncodedParts(e: Entry)
    requires |e.value| < WORD32
    ensures Encoded(e)[0..4] == Bytes32(e.tag) && Encoded(e)[4..8] == Bytes32(|e.value|)
    ensures Encoded(e)[8..Length(e)] == e.value
  {
  }

  lemma ReadSlice(buf: seq<Byte>, o: nat, b: seq<Byte>)
    requires |b| == 4 && o + 4 <= |buf| && buf[o..o + 4] == b
    ensures Read32(buf, o) == Read32(b, 0)
  {
    assert buf[o..o + 4][0] == buf[o] && buf[o..o + 4][1] == buf[o + 1];
    assert buf[o..o + 4][2] == buf[o + 2] && buf[o..o + 4][3] == buf[o + 3];
  }

  lemma SliceOfSlice(buf: seq<Byte>, o: nat, n: nat, i: nat, j: nat)
    requires i <= j <= n && o + n <= |buf|
    ensures buf[o..o + n][i..j] == buf[o + i..o + j]
  {
    var whole := buf[o..o + n];
    forall k | 0 <= k < j - i ensures whole[i..j][k] == buf[o + i..o + j][k] {
      assert whole[i..j][k] == whole[i + k] == buf[o + i + k];
    }
  }

  lemma ReadEncoded(buf: seq<Byte>, end: nat, e: Entry)
    requires end + Length(e) <= |buf| && |e.value| < WORD32 && buf[end..end + Length(e)] == Encoded(e)
    ensures Read32(buf, end) == e.tag && Read32(buf, end + 4) == |e.value|
    ensures buf[end + 8..end + 8 + |e.value|] == e.value
  {
    EncodedParts(e);
    SliceOfSlice(buf, end, Length(e), 0, 4);
    SliceOfSlice(buf, end, Length(e), 4, 8);
    SliceOfSlice(buf, end, Length(e), 8, Length(e));
    ReadSlice(buf, end, Bytes32(e.tag));
    ReadSlice(buf, end + 4, Bytes32(|e.value|));
    ReadBytes(e.tag);
    ReadBytes(|e.value|);
  }

  lemma NewEntry(buf: seq<Byte>, buf': seq<Byte>, end: nat, e: Entry)
    requires Appended(buf, buf', end, e) && end % 4 == 0
    ensures EndAfter(end, e) + 4 <= BLOCK && LogAt(buf', end, [e], EndAfter(end, e))
  {
    ReadEncoded(buf', end, e);
    BlankTag(buf', EndAfter(end, e));
    assert [e][1..] == [];
  }

  lemma EntryKept(buf: seq<Byte>, buf': seq<Byte>, o: nat, f: Entry, end: nat)
    requires |buf'| == BLOCK && EntryAt(buf, o, f) && o + 8 + Round4(|f.value|) <= end <= BLOCK
      && buf'[..end] == buf[..end]
    ensures EntryAt(buf', o, f)
  {
    ReadSame(buf, buf', o, end);
    ReadSame(buf, buf', o + 4, end);
    assert buf'[..end][o + 8..o + 8 + |f.value|] == buf[..end][o + 8..o + 8 + |f.value|];
  }

  lemma NextAligned(o: nat, n: nat)
    requires o % 4 == 0
    ensures (o + 8 + Round4(n)) % 4 == 0
  {
  }

  lemma FirstOfLog(buf: seq<Byte>, o: nat, entries: seq<Entry>, end: nat)
    requires |buf| == BLOCK && o + 4 <= BLOCK && LogAt(buf, o, entries, end) && entries != []
    ensures var next := o + 8 + Round4(|entries[0].value|);
      EntryAt(buf, o, entries[0]) && next + 4 <= BLOCK && LogAt(buf, next, entries[1..], end)
  {
  }

  lemma RestOfLog(buf: seq<Byte>, o: nat, entries: seq<Entry>, end: nat)
    requires |buf| == BLOCK && o + 4 <= BLOCK && LogAt(buf, o, entries, end) && o % 4 == 0 && entries != []
    ensures var next := o + 8 + Round4(|entries[0].value|);
      EntryAt(buf, o, entries[0]) && next <= end <= BLOCK && next % 4 == 0 && next + 4 <= BLOCK
      && LogAt(buf, next, entries[1..], end)
  {
    FirstOfLog(buf, o, entries, end);
    NextAligned(o, |entries[0].value|);
    ScanFindsEnd(buf, o + 8 + Round4(|entries[0].value|), entries[1..], end);
  }

  lemma FirstKept(buf: seq<Byte>, buf': seq<Byte>, o: nat, f: Entry, end: nat, e: Entry)
    requires Appended(buf, buf', end, e) && EntryAt(buf, o, f) && o + 8 + Round4(|f.value|) <= end <= BLOCK
    ensures EntryAt(buf', o, f)
  {
    EntryKept(buf, buf', o, f, end);
  }

  /** The log with one more entry is again a log, with one more entry. */
  lemma {:induction false} AppendKeeps(buf: seq<Byte>, buf': seq<Byte>, o: nat, entries: seq<Entry>, end: nat, e: Entry)
    requires Appended(buf, buf', end, e) && o + 4 <= BLOCK && LogAt(buf, o, entries, end) && o % 4 == 0
    ensures LogAt(buf', o, entries + [e], EndAfter(end, e))
    decreases |entries|
  {
    if entries == [] {
      assert entries + [e] == [e];
      NewEntry(buf, buf', end, e);
    } else {
      var next := o + 8 + Round4(|entries[0].value|);
      RestOfLog(buf, o, entries, end);
      FirstKept(buf, buf', o, entries[0], end, e);
      AppendKeeps(buf, buf', next, entries[1..], end, e);
      Tail(entries, e);
      FirstEntry(buf', o, entries + [e], EndAfter(end, e));
    }
  }

  lemma Tail(entries: seq<Entry>, e: Entry)
    requires entries != []
    ensures (entries + [e])[0] == entries[0] && (entries + [e])[1..] == entries[1..] + [e]
  {
  }

  lemma FirstEntry(buf: seq<Byte>, o: nat, entries: seq<Entry>, end: nat)
    requires entries != [] && o + 4 <= BLOCK && EntryAt(buf, o, entries[0])
    requires LogAt(buf, o + 8 + Round4(|entries[0].value|), entries[1..], end)
    ensures LogAt(buf, o, entries, end)
  {
  }
}
