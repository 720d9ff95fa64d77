// The functions that read and extend the configuration log, over the shared block buffer.
module Config {
  import opened Nor
  import opened SpiFlash
  import opened ConfigLog

  /** Every page of the sector is like this one. */
  ghost predicate AllPages(cells: seq<Byte>, base: nat, pages: nat, page: seq<Byte>) {
    base + PAGE * pages <= |cells| && forall i :: 0 <= i < pages ==> PageOf(cells, base, i) == page
  }

  function PageOf(cells: seq<Byte>, base: nat, i: nat): seq<Byte>
    requires base + PAGE * (i + 1) <= |cells|
  {
    cells[base + PAGE * i..base + PAGE * (i + 1)]
  }

  /** The flash holds this log, and the block is blank behind it. */
  ghost predicate LogInFlash(cells: seq<Byte>, base: nat, entries: seq<Entry>, end: nat) {
    base + BLOCK <= |cells| && LogAt(cells[base..base + BLOCK], 0, entries, end)
      && Blank(cells, base + end, base + BLOCK)
  }

  /** The check made before adding an entry, in 32-bit arithmetic. */
  predicate Guard(available: nat, length: nat) { (available - length) % WORD32 >= 4 }

  /**
   * The check is exact for entries that fit the rest of the block; a longer one passes because the difference
   * wraps.
   */
  lemma GuardExactly(available: nat, length: nat)
    requires available <= BLOCK && length < WORD32 - BLOCK
    ensures Guard(available, length) <==> length + 4 <= available || length > available
  {
  }

  predicate ElsewhereKept(before: seq<Byte>, after: seq<Byte>, a: nat, n: nat) {
    |before| == |after| && forall i :: 0 <= i < |before| && !(a <= i < a + n) ==> after[i] == before[i]
  }

  class ConfigStore {
    const dev: Device
    /** The block buffer shared with the rest of the program. */
    const temp: array<Byte>
    /** The address of the TFTP server. */
    var server: Word32

    ghost predicate Valid()
      reads this, dev
    {
      dev.Valid() && temp.Length == BLOCK
    }

    function Base(): nat
      reads dev
      requires dev.Valid()
    {
      dev.chip.size - dev.chip.erase
    }

    ghost function InFlash(): (b: seq<Byte>)
      reads this, dev
      requires Valid()
      ensures |b| == BLOCK
    {
      dev.cells[Base()..Base() + BLOCK]
    }

    constructor (dev: Device)
      requires dev.Valid()
      ensures Valid() && this.dev == dev && fresh(temp)
    {
      this.dev := dev;
      temp := new Byte[BLOCK](_ => 0);
      server := 0;
    }

    method ReadBlock()
      requires Valid()
      modifies temp
      ensures temp[..] == InFlash()
    {
      var read := SpiFlash.Read(dev, Base(), BLOCK);
      forall i | 0 <= i < BLOCK { temp[i] := read[i]; }
      assert temp[..] == read;
    }

    /** CheckEmpty: compares every page of the sector with the second page of the buffer. */
    method CheckEmpty() returns (empty: bool)
      requires Valid()
      modifies temp
      ensures empty <==> AllPages(dev.cells, Base(), dev.chip.erase / PAGE, old(temp[PAGE..2 * PAGE]))
    {
      ghost var pattern := temp[PAGE..2 * PAGE];
      var pages := dev.chip.erase / PAGE;
      var i := 0;
      empty := true;
      while i < pages && empty
        invariant i <= pages && temp[PAGE..2 * PAGE] == pattern
        invariant empty ==> AllPages(dev.cells, Base(), i, pattern)
        invariant !empty ==> i > 0 && PageOf(dev.cells, Base(), i - 1) != pattern
      {
        var read := SpiFlash.Read(dev, Base() + PAGE * i, PAGE);
        assert read == PageOf(dev.cells, Base(), i);
        forall k | 0 <= k < PAGE { temp[k] := read[k]; }
        empty := read == temp[PAGE..2 * PAGE];
        i := i + 1;
      }
    }

    /** ParseDataBlock: the flash address of the end of the log, and on demand the logged server address. */
    method Parse(apply: bool) returns (adr: nat)
      requires Valid() && !ScanFrom(InFlash(), 0).Astray?
      modifies this`server, temp
      ensures server == if apply then ServerFrom(InFlash(), 0, old(server)) else old(server)
      ensures match ScanFrom(InFlash(), 0)
              case EndsAt(end) => adr == Base() + end && temp[..] == InFlash()
              case _ =>
                adr ==
                if AllPages(dev.cells, Base(), dev.chip.erase / PAGE, InFlash()[PAGE..2 * PAGE]) then Base() else 0
    {
      ReadBlock();
      ghost var block := temp[..];
      var o := 0;
      var broken := false;
      while !broken && Read32(temp[..], o) != NO_TAG
        invariant temp[..] == block && o + 4 <= BLOCK && !ScanFrom(block, o).Astray?
        invariant if broken then ScanFrom(block, 0).Broken? else ScanFrom(block, 0) == ScanFrom(block, o)
        invariant if apply then
            ServerFrom(block, 0, old(server)) == if broken then server else ServerFrom(block, o, server)
          else server == old(server)
        decreases BLOCK - o, !broken
      {
        var next := NextTag(temp[..], o);
        if next > BLOCK - 4 {
          broken := true;
        } else {
          if Read32(temp[..], o) == TFTP_SERVER && apply {
            server := Read32(temp[..], o + 8);
          }
          o := next;
        }
      }
      if !broken {
        adr := Base() + o;
      } else {
        assert temp[PAGE..2 * PAGE] == block[PAGE..2 * PAGE];
        var empty := CheckEmpty();
        adr := if empty then Base() else 0;
      }
    }

    /** CheckDataTag: whether the last logged value of the tag differs from the data. */
    method Check(tag: Word32, data: seq<Byte>, initial: Option<seq<Byte>>) returns (dirty: bool)
      requires Valid() && !ScanFrom(InFlash(), 0).Astray?
      modifies temp
      ensures temp[..] == InFlash()
      ensures dirty == DirtyFrom(InFlash(), 0, tag, data, initial.None? || data != initial.value)
    {
      dirty := initial.None? || data != initial.value;
      ReadBlock();
      ghost var block, dirty0 := temp[..], dirty;
      var o := 0;
      while Read32(temp[..], o) != NO_TAG
        invariant temp[..] == block && o + 4 <= BLOCK && !ScanFrom(block, o).Astray?
        invariant DirtyFrom(block, 0, tag, data, dirty0) == DirtyFrom(block, o, tag, data, dirty)
        decreases BLOCK - o
      {
        var next := NextTag(temp[..], o);
        if next > BLOCK - 4 {
          return;
        }
        if Read32(temp[..], o) == tag {
          dirty := !Stored(temp[..], o, data);
        }
        o := next;
      }
    }

    /** The entry put into the buffer at the end of the log; what is written starts there. */
    method PutEntry(end: nat, e: Entry) returns (buffer: seq<Byte>)
      requires temp.Length == BLOCK && end + Length(e) <= BLOCK && |e.value| < WORD32
      modifies temp
      ensures |buffer| == BLOCK - end && buffer[..Length(e)] == Encoded(e)
      ensures buffer[Length(e)..] == old(temp[end + Length(e)..])
    {
      var b := Encoded(e);
      forall i | 0 <= i < Length(e) { temp[end + i] := b[i]; }
      buffer := temp[end..];
    }

    method ProgramBuffer(e: Entry, end: nat, buffer: seq<Byte>)
      requires Valid() && end + Length(e) + 4 <= BLOCK && |buffer| == BLOCK - end
      modifies dev
      ensures Valid() && Base() + end + Written(Base() + end, Length(e)) <= Base() + BLOCK
        && Written(Base() + end, Length(e)) <= |buffer|
      ensures Base() + BLOCK <= |dev.cells| && Base() % PAGE == 0
      ensures dev.cells == Programmed(old(dev.cells), Base() + end, buffer[..Written(Base() + end, Length(e))])
    {
      BaseBounds(dev.chip);
      AppendRoom(dev.chip, end, Length(e));
      var _ := SpiFlash.Write(dev, Base() + end, buffer, Length(e));
    }

    /** The write of an entry from memory that goes on as the flash does. */
    method WriteBuffer(e: Entry, ghost entries: seq<Entry>, end: nat, buffer: seq<Byte>)
      requires Valid() && LogInFlash(dev.cells, Base(), entries, end) && Fits(e, end) && |e.value| < WORD32
      requires Mirrors(buffer, e, dev.cells, Base(), end)
      modifies dev
      ensures Valid() && EndAfter(end, e) + 4 <= BLOCK && LogInFlash(dev.cells, Base(), entries + [e], EndAfter(end, e))
      ensures ElsewhereKept(old(dev.cells), dev.cells, Base() + end, Length(e))
    {
      ghost var cells := dev.cells;
      AppendRoom(dev.chip, end, Length(e));
      ProgramBuffer(e, end, buffer);
      AppendWrites(cells, Base(), entries, end, e, buffer, dev.cells);
    }

    /** The entry put into the buffer, which mirrors the flash, and written from there. */
    method WriteEntry(e: Entry, ghost entries: seq<Entry>, end: nat)
      requires Valid() && LogInFlash(dev.cells, Base(), entries, end) && Fits(e, end) && temp[..] == InFlash()
      modifies temp, dev
      ensures Valid() && EndAfter(end, e) + 4 <= BLOCK && LogInFlash(dev.cells, Base(), entries + [e], EndAfter(end, e))
      ensures ElsewhereKept(old(dev.cells), dev.cells, Base() + end, Length(e))
    {
      ghost var tail := temp[end + Length(e)..];
      assert tail == temp[..][end + Length(e)..];
      var buffer := PutEntry(end, e);
      MirrorTail(dev.cells, Base(), end, e, buffer);
      WriteBuffer(e, entries, end, buffer);
    }

    /**
     * AddBoardInfo on a well-formed log that the entry at least fits: the entry is appended when there is
     * room for an end mark behind it, and then applied; else nothing happens.
     */
    method Add(e: Entry, ghost entries: seq<Entry>, ghost end: nat)
      requires Valid() && LogInFlash(dev.cells, Base(), entries, end)
      requires e.tag != NO_TAG && (e.tag == TFTP_SERVER ==> |e.value| == 4) && end + Length(e) <= BLOCK
      modifies this`server, temp, dev
      ensures Valid()
      ensures if Fits(e, end) then
          && EndAfter(end, e) + 4 <= BLOCK && LogInFlash(dev.cells, Base(), entries + [e], EndAfter(end, e))
          && ElsewhereKept(old(dev.cells), dev.cells, Base() + end, Length(e))
          && !ScanFrom(InFlash(), 0).Astray? && server == ServerFrom(InFlash(), 0, old(server))
        else dev.cells == old(dev.cells) && server == old(server)
    {
      LogScans(dev.cells, Base(), entries, end);
      var adr := Parse(false);
      BaseBounds(dev.chip);
      if adr != 0 {
        var o := adr - Base();
        GuardExactly(BLOCK - o, Length(e));
        if Guard(BLOCK - o, Length(e)) {
          WriteEntry(e, entries, o);
          Reload(entries + [e], EndAfter(end, e));
        }
      }
    }

    method Reload(ghost entries: seq<Entry>, ghost end: nat)
      requires Valid() && LogInFlash(dev.cells, Base(), entries, end)
      modifies this`server, temp
      ensures !ScanFrom(InFlash(), 0).Astray? && server == ServerFrom(InFlash(), 0, old(server))
    {
      LogScans(dev.cells, Base(), entries, end);
      var _ := Parse(true);
    }

    /**
     * UpdateDataTag: an entry is added when the tag's value is not the one wanted. Room is needed only then;
     * an address that is logged is also applied.
     */
    method Update(e: Entry, initial: Option<seq<Byte>>, ghost entries: seq<Entry>, ghost end: nat)
      requires Valid() && LogInFlash(dev.cells, Base(), entries, end)
      requires e.tag != NO_TAG && (e.tag == TFTP_SERVER ==> |e.value| == 4)
      requires Current(entries, e.tag, initial) != Some(e.value) ==> end + Length(e) <= BLOCK
      modifies this`server, temp, dev
      ensures Valid()
      ensures if Current(entries, e.tag, initial) == Some(e.value) || !Fits(e, end) then
          dev.cells == old(dev.cells) && server == old(server)
        else
          && EndAfter(end, e) + 4 <= BLOCK && LogInFlash(dev.cells, Base(), entries + [e], EndAfter(end, e))
          && ElsewhereKept(old(dev.cells), dev.cells, Base() + end, Length(e))
          && server == Logged(entries + [e], old(server))
          && (e.tag == TFTP_SERVER ==> server == Read32(e.value, 0))
    {
      ScanFindsEnd(InFlash(), 0, entries, end);
      DirtyIsLast(InFlash(), 0, entries, end, e.tag, e.value, initial.None? || e.value != initial.value);
      var dirty := Check(e.tag, e.value, initial);
      if dirty {
        Add(e, entries, end);
        if Fits(e, end) {
          AppliedServer(InFlash(), entries, e, EndAfter(end, e), old(server));
        }
      }
    }

    /**
     * CommitCmd: the server address in use is logged. From then on applying the log gives it, whatever address
     * there was; only without room for an end mark behind the entry does nothing happen.
     */
    method Commit(ghost entries: seq<Entry>, ghost end: nat)
      requires Valid() && LogInFlash(dev.cells, Base(), entries, end)
      requires Lookup(entries, TFTP_SERVER) != Some(Bytes32(server)) ==> end + 12 <= BLOCK
      modifies this`server, temp, dev
      ensures Valid() && server == old(server) && !ScanFrom(InFlash(), 0).Astray?
      ensures if Lookup(entries, TFTP_SERVER) == Some(Bytes32(server)) || end + 16 <= BLOCK then
          forall s: Word32 :: ServerFrom(InFlash(), 0, s) == server
        else dev.cells == old(dev.cells)
    {
      var e := Entry(TFTP_SERVER, Bytes32(server));
      ReadBytes(server);
      LogScans(dev.cells, Base(), entries, end);
      Update(e, None, entries, end);
      if Lookup(entries, TFTP_SERVER) == Some(e.value) {
        LoggedIsRead(InFlash(), entries, end, server);
      } else if Fits(e, end) {
        LookupAppended(entries, e, TFTP_SERVER);
        LoggedIsRead(InFlash(), entries + [e], EndAfter(end, e), server);
      }
    }
  }

  /** The value a tag has, with a log and a default. */
  function Current(entries: seq<Entry>, tag: Word32, initial: Option<seq<Byte>>): Option<seq<Byte>> {
    if Lookup(entries, tag).Some? then Lookup(entries, tag) else initial
  }

  /** The server address after a log has been applied. */
  function Logged(entries: seq<Entry>, server: Word32): Word32 {
    match Lookup(entries, TFTP_SERVER)
    case None => server
    case Some(v) => if |v| == 4 then Read32(v, 0) else server
  }

  lemma AppliedServer(buf: seq<Byte>, entries: seq<Entry>, e: Entry, end: nat, server: Word32)
    requires |buf| == BLOCK && LogAt(buf, 0, entries + [e], end) && (e.tag == TFTP_SERVER ==> |e.value| == 4)
    ensures !ScanFrom(buf, 0).Astray? && ServerFrom(buf, 0, server) == Logged(entries + [e], server)
    ensures e.tag == TFTP_SERVER ==> Logged(entries + [e], server) == Read32(e.value, 0)
  {
    ServerIsLast(buf, 0, entries + [e], end, server);
    LookupAppended(entries, e, TFTP_SERVER);
  }

  lemma LoggedOnce(buf: seq<Byte>, entries: seq<Entry>, end: nat, server: Word32, s: Word32)
    requires |buf| == BLOCK && LogAt(buf, 0, entries, end) && Lookup(entries, TFTP_SERVER) == Some(Bytes32(server))
    ensures !ScanFrom(buf, 0).Astray? && ServerFrom(buf, 0, s) == server
  {
    ReadBytes(server);
    ServerIsLast(buf, 0, entries, end, s);
  }

  lemma LoggedIsRead(buf: seq<Byte>, entries: seq<Entry>, end: nat, server: Word32)
    requires |buf| == BLOCK && LogAt(buf, 0, entries, end) && Lookup(entries, TFTP_SERVER) == Some(Bytes32(server))
    ensures !ScanFrom(buf, 0).Astray? && forall s: Word32 :: ServerFrom(buf, 0, s) == server
  {
    LoggedOnce(buf, entries, end, server, server);
    forall s: Word32 ensures ServerFrom(buf, 0, s) == server {
      LoggedOnce(buf, entries, end, server, s);
    }
  }

  /**
   * An update made twice: the second one writes nothing, so that together they add at most one entry.
   * The flash after the first is returned.
   */
  method UpdateTwice(store: ConfigStore, e: Entry, initial: Option<seq<Byte>>, ghost entries: seq<Entry>,
      ghost end: nat)
    returns (ghost once: seq<Byte>)
    requires store.Valid() && LogInFlash(store.dev.cells, store.Base(), entries, end)
    requires e.tag != NO_TAG && (e.tag == TFTP_SERVER ==> |e.value| == 4)
    requires Current(entries, e.tag, initial) != Some(e.value) ==> end + Length(e) <= BLOCK
    modifies store`server, store.temp, store.dev
    ensures store.Valid() && store.dev.cells == once
    ensures if Current(entries, e.tag, initial) == Some(e.value) || !Fits(e, end) then once == old(store.dev.cells)
      else
        && EndAfter(end, e) + 4 <= BLOCK && LogInFlash(once, store.Base(), entries + [e], EndAfter(end, e))
        && ElsewhereKept(old(store.dev.cells), once, store.Base() + end, Length(e))
        && Lookup(entries + [e], e.tag) == Some(e.value)
        && forall tag: Word32 :: tag != e.tag ==> Lookup(entries + [e], tag) == Lookup(entries, tag)
  {
    UpdatedIsClean(entries, e);
    store.Update(e, initial, entries, end);
    once := store.dev.cells;
    ghost var same := Current(entries, e.tag, initial) == Some(e.value) || !Fits(e, end);
    store.Update(e, initial, if same then entries else entries + [e], if same then end else EndAfter(end, e));
  }

  lemma LogScans(cells: seq<Byte>, base: nat, entries: seq<Entry>, end: nat)
    requires LogInFlash(cells, base, entries, end)
    ensures ScanFrom(cells[base..base + BLOCK], 0) == EndsAt(end)
  {
    ScanFindsEnd(cells[base..base + BLOCK], 0, entries, end);
  }

  lemma BaseBounds(chip: Chip)
    requires Known(chip)
    ensures 0 < chip.size - chip.erase && chip.size - chip.erase + BLOCK <= chip.size
      && (chip.size - chip.erase) % PAGE == 0
  {
  }

  /** What is programmed for an entry with room behind it stays inside the block. */
  lemma AppendRoom(chip: Chip, o: nat, length: nat)
    requires Known(chip) && o + length + 4 <= BLOCK
    ensures var a := chip.size - chip.erase + o;
      a + length <= chip.size && a + Written(a, length) <= chip.size - chip.erase + BLOCK
  {
    var a := chip.size - chip.erase + o;
    BaseBounds(chip);
    WrittenBounds(a, length, 0);
  }

  /** The write of an entry from the block buffer: the bytes behind it in the buffer are those in the flash. */
  lemma WriteIsEntry(cells: seq<Byte>, a: nat, e: Entry, buffer: seq<Byte>, cells': seq<Byte>)
    requires |e.value| < WORD32 && Length(e) <= |buffer| && buffer[..Length(e)] == Encoded(e) && a + |buffer| <= |cells|
    requires forall i :: Length(e) <= i < |buffer| ==> buffer[i] == cells[a + i]
    requires PageEnd(a + Length(e)) <= |cells| && Written(a, Length(e)) <= |buffer|
    requires cells' == Programmed(cells, a, buffer[..Written(a, Length(e))])
    ensures cells' == Programmed(cells, a, Encoded(e))
  {
    ExcessHarmless(cells, a, buffer, Length(e));
  }

  lemma AppendedBlock(cells: seq<Byte>, base: nat, end: nat, e: Entry, cells': seq<Byte>)
    requires base + BLOCK <= |cells| && Blank(cells, base + end, base + BLOCK) && Fits(e, end)
    requires cells' == Programmed(cells, base + end, Encoded(e))
    ensures Appended(cells[base..base + BLOCK], cells'[base..base + BLOCK], end, e)
    ensures ElsewhereKept(cells, cells', base + end, Length(e))
  {
    var a, n := base + end, Length(e);
    ProgrammedBlank(cells, a, Encoded(e));
    var buf, buf' := cells[base..base + BLOCK], cells'[base..base + BLOCK];
    assert buf'[..end] == buf[..end];
    assert buf'[end..end + n] == cells'[a..a + n];
  }

  /** The buffer holds the entry and then what the flash holds behind it. */
  predicate Mirrors(buffer: seq<Byte>, e: Entry, cells: seq<Byte>, base: nat, end: nat)
    requires |e.value| < WORD32
  {
    && |buffer| == BLOCK - end && Length(e) <= |buffer| && base + BLOCK <= |cells| && buffer[..Length(e)] == Encoded(e)
    && forall i :: Length(e) <= i < |buffer| ==> buffer[i] == cells[base + end + i]
  }

  lemma AppendWrites(cells: seq<Byte>, base: nat, entries: seq<Entry>, end: nat, e: Entry, buffer: seq<Byte>,
      cells': seq<Byte>)
    requires LogInFlash(cells, base, entries, end) && Fits(e, end) && |e.value| < WORD32
    requires Mirrors(buffer, e, cells, base, end)
    requires base % PAGE == 0 && base + end + Written(base + end, Length(e)) <= base + BLOCK
    requires cells' == Programmed(cells, base + end, buffer[..Written(base + end, Length(e))])
    ensures EndAfter(end, e) + 4 <= BLOCK && LogInFlash(cells', base, entries + [e], EndAfter(end, e))
    ensures ElsewhereKept(cells, cells', base + end, Length(e))
  {
    BlockEnd(base, end, Length(e));
    WriteIsEntry(cells, base + end, e, buffer, cells');
    AppendedBlock(cells, base, end, e, cells');
    AppendedLog(cells, base, entries, end, e, cells');
  }

  lemma AppendedLog(cells: seq<Byte>, base: nat, entries: seq<Entry>, end: nat, e: Entry, cells': seq<Byte>)
    requires LogInFlash(cells, base, entries, end) && base + BLOCK <= |cells'|
    requires Appended(cells[base..base + BLOCK], cells'[base..base + BLOCK], end, e)
    ensures EndAfter(end, e) + 4 <= BLOCK && LogInFlash(cells', base, entries + [e], EndAfter(end, e))
  {
    var buf, buf' := cells[base..base + BLOCK], cells'[base..base + BLOCK];
    EndAligned(buf, 0, entries, end);
    NewEntry(buf, buf', end, e);
    AppendKeeps(buf, buf', 0, entries, end, e);
    forall i | base + EndAfter(end, e) <= i < base + BLOCK ensures cells'[i] == 255 {
      assert buf'[i - base] == cells'[i];
    }
  }

  lemma MirrorTail(cells: seq<Byte>, base: nat, end: nat, e: Entry, buffer: seq<Byte>)
    requires end + Length(e) <= BLOCK && base + BLOCK <= |cells| && |buffer| == BLOCK - end && |e.value| < WORD32
    requires buffer[..Length(e)] == Encoded(e) && buffer[Length(e)..] == cells[base..base + BLOCK][end + Length(e)..]
    ensures Mirrors(buffer, e, cells, base, end)
  {
    var n := Length(e);
    forall i | n <= i < |buffer| ensures buffer[i] == cells[base + end + i] {
      assert buffer[n..][i - n] == cells[base..base + BLOCK][end + n..][i - n];
    }
  }

  lemma BlockEnd(base: nat, end: nat, n: nat)
    requires base % PAGE == 0 && end + n + 4 <= BLOCK
    ensures PageEnd(base + end + n) <= base + BLOCK
  {
  }

  /** An entry gives its tag the new value and leaves every other tag its old one. */
  lemma UpdatedIsClean(entries: seq<Entry>, e: Entry)
    ensures Lookup(entries + [e], e.tag) == Some(e.value)
    ensures forall tag: Word32 :: tag != e.tag ==> Lookup(entries + [e], tag) == Lookup(entries, tag)
  {
    LookupAppended(entries, e, e.tag);
    forall tag: Word32 | tag != e.tag ensures Lookup(entries + [e], tag) == Lookup(entries, tag) {
      LookupAppended(entries, e, tag);
    }
  }

  lemma ZerosNext(buf: seq<Byte>, o: nat)
    requires |buf| == BLOCK && (forall i :: 0 <= i < BLOCK ==> buf[i] == 0) && o + 8 <= BLOCK
    ensures Read32(buf, o) == 0 && NextTag(buf, o) == o + 8
  {
  }

  lemma {:induction false} ZerosBroken(buf: seq<Byte>, o: nat)
    requires |buf| == BLOCK && (forall i :: 0 <= i < BLOCK ==> buf[i] == 0) && o % 8 == 0 && o < BLOCK
    ensures ScanFrom(buf, o) == Broken
    decreases BLOCK - o
  {
    ZerosNext(buf, o);
    if o + 8 < BLOCK { ZerosBroken(buf, o + 8); }
  }

  /**
   * The check for an unused sector compares pages with each other and not with the erased pattern: a sector
   * of zeros is no log, and is taken for an empty one all the same. An erased sector never gets to the check.
   */
  lemma ZeroSectorTakenForEmpty(cells: seq<Byte>, base: nat, pages: nat)
    requires base + PAGE * pages <= |cells| && pages >= 4
    requires forall i :: base <= i < base + PAGE * pages ==> cells[i] == 0
    ensures ScanFrom(cells[base..base + BLOCK], 0) == Broken
    ensures AllPages(cells, base, pages, cells[base..base + BLOCK][PAGE..2 * PAGE])
  {
    var block := cells[base..base + BLOCK];
    ZerosBroken(block, 0);
    forall i | 0 <= i < pages ensures PageOf(cells, base, i) == block[PAGE..2 * PAGE] {
      forall k | 0 <= k < PAGE ensures PageOf(cells, base, i)[k] == block[PAGE..2 * PAGE][k] {
        assert PageOf(cells, base, i)[k] == cells[base + PAGE * i + k];
      }
    }
  }

  lemma ErasedSectorIsEmptyLog(cells: seq<Byte>, base: nat)
    requires Blank(cells, base, base + BLOCK)
    ensures ScanFrom(cells[base..base + BLOCK], 0) == EndsAt(0) && LogInFlash(cells, base, [], 0)
  {
    BlankTag(cells[base..base + BLOCK], 0);
  }
}
