// The SPI flash driver: reading, page programming and erasing.
module SpiFlash {
  import opened Nor

  const WORD32 := 0x1_0000_0000

  function Min(a: nat, b: nat): nat { if a <= b then a else b }

  /** The bytes from a to the end of its page. */
  function Left(a: nat): (n: nat)
    ensures 0 < n <= PAGE
  {
    PAGE - a % PAGE
  }

  /**
   * The bytes spi_write programs for a request of len bytes at a, from the point where `wrote` are done:
   * each chunk is as long as the whole request or as the page allows, not as long as what is left.
   */
  function WrittenFrom(a: nat, len: nat, wrote: nat): nat
    decreases len - wrote
  {
    if wrote >= len then wrote else
      var n := Min(len, Left(a + wrote));
      WrittenFrom(a, len, wrote + n)
  }

  function Written(a: nat, len: nat): nat { WrittenFrom(a, len, 0) }

  /** The end of the page that a - 1 is in. */
  function PageEnd(a: nat): nat { if a % PAGE == 0 then a else a + Left(a) }

  lemma LastChunk(a: nat, len: nat, wrote: nat, n: nat)
    requires wrote == 0 || (a + wrote) % PAGE == 0
    requires wrote < len && n == Min(len, Left(a + wrote))
    ensures if wrote + n >= len then a + wrote + n <= PageEnd(a + len) else (a + wrote + n) % PAGE == 0
  {
  }

  lemma {:induction false} WrittenBounds(a: nat, len: nat, wrote: nat)
    requires wrote == 0 || (a + wrote) % PAGE == 0
    requires wrote <= len
    ensures len <= WrittenFrom(a, len, wrote) && a + WrittenFrom(a, len, wrote) <= PageEnd(a + len)
    decreases len - wrote
  {
    if wrote < len {
      var n := Min(len, Left(a + wrote));
      LastChunk(a, len, wrote, n);
      if wrote + n < len { WrittenBounds(a, len, wrote + n); }
    }
  }

  /** The request is exceeded unless it lies in one page or ends at the end of a page; never past its last page. */
  lemma WrittenExact(a: nat, len: nat)
    requires len > 0
    ensures len <= Written(a, len) && a + Written(a, len) <= PageEnd(a + len)
    ensures Written(a, len) == len <==> len <= Left(a) || (a + len) % PAGE == 0
  {
    WrittenBounds(a, len, 0);
    if len <= Left(a) {
    } else if len <= PAGE {
      assert WrittenFrom(a, len, Left(a)) == Left(a) + len;
    } else {
      WrittenLong(a, len, Left(a));
    }
  }

  /** A request longer than a page is filled up to the end of its last page. */
  lemma {:induction false} WrittenLong(a: nat, len: nat, wrote: nat)
    requires len > PAGE && (a + wrote) % PAGE == 0
    ensures (a + WrittenFrom(a, len, wrote)) % PAGE == 0
    decreases len - wrote
  {
    if wrote < len { WrittenLong(a, len, wrote + PAGE); }
  }

  /** The page programs of a request, from the point where `wrote` bytes are done. */
  function ProgramsFrom(a: nat, buffer: seq<Byte>, len: nat, wrote: nat): seq<Command>
    requires |buffer| >= WrittenFrom(a, len, wrote)
    decreases len - wrote
  {
    if wrote >= len then [] else
      var n := Min(len, Left(a + wrote));
      WrittenGrows(a, len, wrote + n);
      [Program(a + wrote, buffer[wrote..wrote + n])] + ProgramsFrom(a, buffer, len, wrote + n)
  }

  lemma {:induction false} WrittenGrows(a: nat, len: nat, wrote: nat)
    ensures wrote <= WrittenFrom(a, len, wrote)
    decreases len - wrote
  {
    if wrote < len { WrittenGrows(a, len, wrote + Min(len, Left(a + wrote))); }
  }

  predicate InOnePage(c: Command) { c.Program? ==> c.adr % PAGE + |c.data| <= PAGE }

  lemma {:induction false} ProgramsInPages(a: nat, buffer: seq<Byte>, len: nat, wrote: nat)
    requires |buffer| >= WrittenFrom(a, len, wrote)
    ensures forall i :: 0 <= i < |ProgramsFrom(a, buffer, len, wrote)| ==>
      InOnePage(ProgramsFrom(a, buffer, len, wrote)[i])
    decreases len - wrote
  {
    if wrote < len {
      var n := Min(len, Left(a + wrote));
      WrittenGrows(a, len, wrote + n);
      ProgramsInPages(a, buffer, len, wrote + n);
    }
  }

  lemma WithinChip(chip: Chip, a: nat)
    requires Known(chip) && a <= chip.size
    ensures PageEnd(a) <= chip.size
  {
  }

  /** A write with `wrote` bytes done: what the flash and its log are, and what is still to come. */
  ghost predicate Underway(cells0: seq<Byte>, log0: seq<Command>, cells: seq<Byte>, log: seq<Command>,
                           a: nat, buffer: seq<Byte>, len: nat, wrote: nat) {
    && wrote <= Written(a, len) <= |buffer| && a + Written(a, len) <= |cells0|
    && (wrote == 0 || (a + wrote) % PAGE == 0 || wrote >= len)
    && Written(a, len) == WrittenFrom(a, len, wrote)
    && cells == Programmed(cells0, a, buffer[..wrote])
    && log0 + ProgramsFrom(a, buffer, len, 0) == log + ProgramsFrom(a, buffer, len, wrote)
  }

  lemma ChunkProgrammed(cells0: seq<Byte>, a: nat, buffer: seq<Byte>, wrote: nat, n: nat)
    requires wrote + n <= |buffer| && a + wrote + n <= |cells0|
    ensures Programmed(Programmed(cells0, a, buffer[..wrote]), a + wrote, buffer[wrote..wrote + n])
      == Programmed(cells0, a, buffer[..wrote + n])
  {
    assert buffer[..wrote] + buffer[wrote..wrote + n] == buffer[..wrote + n];
    ProgrammedTwice(cells0, a, buffer[..wrote], buffer[wrote..wrote + n]);
  }

  lemma LogShift(log: seq<Command>, c: Command, rest: seq<Command>)
    ensures log + ([c] + rest) == (log + [c]) + rest
  {
  }

  lemma ChunkAligned(a: nat, len: nat, wrote: nat, n: nat)
    requires wrote < len && n == Min(len, Left(a + wrote)) && (wrote == 0 || (a + wrote) % PAGE == 0)
    ensures (a + wrote + n) % PAGE == 0 || wrote + n >= len
    ensures WrittenFrom(a, len, wrote) == WrittenFrom(a, len, wrote + n) && wrote + n <= WrittenFrom(a, len, wrote)
  {
    WrittenGrows(a, len, wrote + n);
  }

  lemma NextChunk(cells0: seq<Byte>, log0: seq<Command>, cells: seq<Byte>, log: seq<Command>,
                  a: nat, buffer: seq<Byte>, len: nat, wrote: nat, n: nat)
    requires Underway(cells0, log0, cells, log, a, buffer, len, wrote) && wrote < len && n == Min(len, Left(a + wrote))
    ensures wrote + n <= Written(a, len)
    ensures a + wrote + n <= |cells| &&
      Underway(cells0, log0, Programmed(cells, a + wrote, buffer[wrote..wrote + n]),
               log + [Program(a + wrote, buffer[wrote..wrote + n])], a, buffer, len, wrote + n)
  {
    ChunkAligned(a, len, wrote, n);
    ChunkProgrammed(cells0, a, buffer, wrote, n);
    LogShift(log, Program(a + wrote, buffer[wrote..wrote + n]), ProgramsFrom(a, buffer, len, wrote + n));
  }

  /** One page program: as much as the request is long, or as the page allows. */
  method WriteChunk(dev: Device, a: nat, buffer: seq<Byte>, len: nat, wrote: nat, ghost cells0: seq<Byte>,
      ghost log0: seq<Command>)
    returns (n: nat)
    requires dev.Valid() && wrote < len && |cells0| == dev.chip.size
    requires Underway(cells0, log0, dev.cells, dev.log, a, buffer, len, wrote)
    modifies dev
    ensures dev.Valid() && n > 0 && Underway(cells0, log0, dev.cells, dev.log, a, buffer, len, wrote + n)
  {
    var adr := a + wrote;
    n := Min(len, PAGE - adr % PAGE);
    NextChunk(cells0, log0, dev.cells, dev.log, a, buffer, len, wrote, n);
    dev.PageProgram(adr, buffer[wrote..wrote + n]);
  }

  lemma NotStarted(cells: seq<Byte>, log: seq<Command>, a: nat, buffer: seq<Byte>, len: nat)
    requires Written(a, len) <= |buffer| && a + Written(a, len) <= |cells|
    ensures Underway(cells, log, cells, log, a, buffer, len, 0)
  {
    assert Programmed(cells, a, buffer[..0]) == cells;
  }

  /** When the request is covered, all is written. */
  lemma AllWritten(cells0: seq<Byte>, log0: seq<Command>, cells: seq<Byte>, log: seq<Command>,
                   a: nat, buffer: seq<Byte>, len: nat, wrote: nat)
    requires Underway(cells0, log0, cells, log, a, buffer, len, wrote) && wrote >= len
    ensures wrote == Written(a, len) && cells == Programmed(cells0, a, buffer[..wrote])
      && log == log0 + ProgramsFrom(a, buffer, len, 0)
  {
  }

  /**
   * spi_write. A request that does not fit the chip is refused. Otherwise the bytes programmed are those of
   * the buffer from its start, at a, no command crossing a page; they may be more than were asked for.
   */
  method Write(dev: Device, a: nat, buffer: seq<Byte>, len: nat) returns (wrote: nat)
    requires dev.Valid() && a + len < WORD32 && |buffer| >= Written(a, len)
    modifies dev
    ensures dev.Valid()
    ensures a + len > dev.chip.size ==> wrote == 0 && dev.cells == old(dev.cells) && dev.log == old(dev.log)
    ensures a + len <= dev.chip.size ==>
      && wrote == Written(a, len) && a + wrote <= PageEnd(a + len) <= dev.chip.size
      && dev.cells == Programmed(old(dev.cells), a, buffer[..wrote])
      && dev.log == old(dev.log) + ProgramsFrom(a, buffer, len, 0)
  {
    wrote := 0;
    if a + len > dev.chip.size {
      return;
    }
    WrittenBounds(a, len, 0);
    WithinChip(dev.chip, a + len);
    ghost var cells0, log0 := dev.cells, dev.log;
    NotStarted(cells0, log0, a, buffer, len);
    while wrote < len
      invariant dev.Valid() && Underway(cells0, log0, dev.cells, dev.log, a, buffer, len, wrote)
      decreases len - wrote
    {
      var n := WriteChunk(dev, a, buffer, len, wrote, cells0, log0);
      wrote := wrote + n;
    }
    AllWritten(cells0, log0, dev.cells, dev.log, a, buffer, len, wrote);
  }

  /** spi_read: the cells from a on, in pieces of at most a page. */
  method Read(dev: Device, a: nat, len: nat) returns (buffer: seq<Byte>)
    requires dev.Valid() && a + len <= dev.chip.size
    ensures buffer == dev.cells[a..a + len]
  {
    buffer := [];
    while |buffer| < len
      invariant |buffer| <= len && buffer == dev.cells[a..a + |buffer|]
    {
      var n := Min(len - |buffer|, PAGE);
      buffer := buffer + dev.cells[a + |buffer|..a + |buffer| + n];
    }
  }

  /** The erase commands for n sectors from a on. */
  function Erases(a: nat, erase: nat, n: nat): seq<Command> {
    if n == 0 then [] else Erases(a, erase, n - 1) + [Erase(a + erase * (n - 1))]
  }

  lemma MoreErased(cells: seq<Byte>, a: nat, erase: nat, n: nat)
    requires a + erase * (n + 1) <= |cells| && a + erase * n <= |cells|
    ensures Erased(Erased(cells, a, erase * n), a + erase * n, erase) == Erased(cells, a, erase * (n + 1))
  {
  }

  lemma SectorAligned(chip: Chip, a: nat, n: nat)
    requires Known(chip) && a % chip.erase == 0
    ensures (a + chip.erase * n) % chip.erase == 0
  {
  }

  lemma SectorsFit(chip: Chip, a: nat, len: nat, i: nat)
    requires Known(chip) && a + len <= chip.size && i < len / chip.erase
    ensures a + chip.erase * i <= a + chip.erase * (i + 1) <= chip.size
  {
  }

  /** spi_erase: all whole sectors of the range. It reports failure even when it has erased. */
  method EraseRange(dev: Device, a: nat, len: nat) returns (ret: int)
    requires dev.Valid()
    modifies dev
    ensures dev.Valid() && ret == -1
    ensures a % dev.chip.erase != 0 || a + len > dev.chip.size ==>
      dev.cells == old(dev.cells) && dev.log == old(dev.log)
    ensures a % dev.chip.erase == 0 && a + len <= dev.chip.size ==>
      var n := len / dev.chip.erase;
      && a + dev.chip.erase * n <= dev.chip.size
      && dev.cells == Erased(old(dev.cells), a, dev.chip.erase * n)
      && dev.log == old(dev.log) + Erases(a, dev.chip.erase, n)
  {
    ret := -1;
    if a % dev.chip.erase != 0 || a + len > dev.chip.size {
      return;
    }
    var i, at := 0, a;
    var n := len / dev.chip.erase;
    ghost var cells := dev.cells;
    while i < n
      invariant i <= n && at == a + dev.chip.erase * i && dev.Valid() && at <= dev.chip.size
      invariant dev.cells == Erased(cells, a, dev.chip.erase * i)
      invariant dev.log == old(dev.log) + Erases(a, dev.chip.erase, i)
    {
      SectorAligned(dev.chip, a, i);
      SectorsFit(dev.chip, a, len, i);
      MoreErased(cells, a, dev.chip.erase, i);
      dev.SectorErase(at);
      i, at := i + 1, at + dev.chip.erase;
    }
  }

  lemma OneErase(chip: Chip, a: nat)
    requires Known(chip)
    ensures chip.erase / chip.erase == 1 && Erases(a, chip.erase, 1) == [Erase(a)]
  {
    assert Erases(a, chip.erase, 0) == [];
  }

  /** One sector, which is all that the callers ask for. */
  method EraseSector(dev: Device, a: nat) returns (ret: int)
    requires dev.Valid()
    modifies dev
    ensures dev.Valid() && ret == -1
    ensures a % dev.chip.erase != 0 || a + dev.chip.erase > dev.chip.size ==>
      dev.cells == old(dev.cells) && dev.log == old(dev.log)
    ensures a % dev.chip.erase == 0 && a + dev.chip.erase <= dev.chip.size ==>
      dev.cells == Erased(old(dev.cells), a, dev.chip.erase) && dev.log == old(dev.log) + [Erase(a)]
  {
    OneErase(dev.chip, a);
    ret := EraseRange(dev, a, dev.chip.erase);
  }

  // ---------------------------------------------------------------------------------------------
  // What a write leaves in the flash

  /** The range asked for holds old and data, byte by byte, and nothing before it or past its last page changes. */
  lemma WriteMeaning(cells: seq<Byte>, a: nat, buffer: seq<Byte>, len: nat, i: nat)
    requires len > 0 && |buffer| >= Written(a, len) && PageEnd(a + len) <= |cells| && i < |cells|
    ensures len <= Written(a, len) && a + Written(a, len) <= |cells|
    ensures var after := Programmed(cells, a, buffer[..Written(a, len)]);
      && (a <= i < a + len ==> after[i] == And(cells[i], buffer[i - a]))
      && (i < a || PageEnd(a + len) <= i ==> after[i] == cells[i])
  {
    WrittenExact(a, len);
  }

  /** Where the buffer goes on with what the flash already holds, the excess does no harm. */
  lemma ExcessHarmless(cells: seq<Byte>, a: nat, buffer: seq<Byte>, len: nat)
    requires len > 0 && |buffer| >= Written(a, len) && PageEnd(a + len) <= |cells|
    requires forall i :: len <= i < Written(a, len) ==> a + i < |cells| && buffer[i] == cells[a + i]
    ensures len <= Written(a, len) && a + Written(a, len) <= |cells|
    ensures Programmed(cells, a, buffer[..Written(a, len)]) == Programmed(cells, a, buffer[..len])
  {
    WrittenExact(a, len);
    var w := Written(a, len);
    forall i | 0 <= i < |cells| ensures Programmed(cells, a, buffer[..w])[i] == Programmed(cells, a, buffer[..len])[i] {
      AndByte(cells[i]);
    }
  }
}
