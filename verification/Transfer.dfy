// Network transfers to and from the flash: writing a file block by block with automatic erasing,
// comparing it with what is there, and saving a range.
module Transfer {
  import opened Nor
  import opened SpiFlash

  const INVALID := 0xFFFF_FFFF

  /** A packet buffer: len bytes of payload, and whatever memory follows them. */
  datatype Block = Block(memory: seq<Byte>, len: nat)

  function Payload(b: Block): seq<Byte>
    requires b.len <= |b.memory|
  {
    b.memory[..b.len]
  }

  // ---------------------------------------------------------------------------------------------
  // Sectors

  function Sector(a: nat, erase: nat): nat
    requires erase > 0
  {
    a - a % erase
  }

  predicate EraseSize(e: nat) { e == 64 * 1024 || e == 256 * 1024 }

  lemma SectorBounds(a: nat, e: nat)
    requires EraseSize(e)
    ensures Sector(a, e) <= a < Sector(a, e) + e && Sector(a, e) % e == 0 && Sector(a, e) % PAGE == 0
  {
  }

  lemma SectorIs(a: nat, s: nat, e: nat)
    requires EraseSize(e) && s % e == 0 && s <= a < s + e
    ensures Sector(a, e) == s
  {
  }

  lemma NextSector(s: nat, e: nat)
    requires EraseSize(e) && s % e == 0
    ensures (s + e) % e == 0
  {
  }

  lemma SectorOrder(s: nat, t: nat, e: nat)
    requires EraseSize(e) && s % e == 0 && t % e == 0 && s < t
    ensures s + e <= t
  {
  }

  lemma SectorInChip(chip: Chip, a: nat)
    requires Known(chip) && a < chip.size
    ensures EraseSize(chip.erase) && Sector(a, chip.erase) + chip.erase <= chip.size
  {
  }

  // ---------------------------------------------------------------------------------------------
  // Writing a file

  datatype FlashState = FlashState(cells: seq<Byte>, log: seq<Command>, lastErase: nat)

  function NextErase(lastErase: nat, a: nat, erase: nat): nat
    requires erase > 0
  {
    if lastErase == INVALID then Sector(a, erase) else lastErase + erase
  }

  /** The next sector is erased, if it is in the chip; the loader believes that it was in any case. */
  function AfterErase(st: FlashState, chip: Chip, a: nat): (r: FlashState)
    requires Known(chip) && |st.cells| == chip.size
    ensures |r.cells| == chip.size
  {
    var s := NextErase(st.lastErase, a, chip.erase);
    if s % chip.erase != 0 || s + chip.erase > chip.size then st.(lastErase := s)
    else FlashState(Erased(st.cells, s, chip.erase), st.log + [Erase(s)], s)
  }

  predicate NeedsErase(st: FlashState, chip: Chip, autoErase: bool, a: nat, len: nat)
    requires Known(chip) && len > 0
  {
    autoErase && st.lastErase != Sector(a + len - 1, chip.erase)
  }

  function AfterWrite(st: FlashState, chip: Chip, a: nat, b: Block): (r: FlashState)
    requires Known(chip) && |st.cells| == chip.size && |b.memory| >= Written(a, b.len)
    ensures |r.cells| == chip.size
  {
    if a + b.len > chip.size then st
    else
      WrittenBounds(a, b.len, 0);
      WithinChip(chip, a + b.len);
      st.(cells := Programmed(st.cells, a, b.memory[..Written(a, b.len)]),
        log := st.log + ProgramsFrom(a, b.memory, b.len, 0))
  }

  function FlashBlock(st: FlashState, chip: Chip, autoErase: bool, a: nat, b: Block): (r: FlashState)
    requires Known(chip) && |st.cells| == chip.size && |b.memory| >= Written(a, b.len)
    ensures |r.cells| == chip.size
  {
    if b.len == 0 then st
    else AfterWrite(if NeedsErase(st, chip, autoErase, a, b.len) then AfterErase(st, chip, a) else st, chip, a, b)
  }

  predicate Readable(a: nat, blocks: seq<Block>)
    decreases |blocks|
  {
    blocks == [] || (|blocks[0].memory| >= Written(a, blocks[0].len) && Readable(a + blocks[0].len, blocks[1..]))
  }

  function FlashBlocks(st: FlashState, chip: Chip, autoErase: bool, a: nat, blocks: seq<Block>): (r: FlashState)
    requires Known(chip) && |st.cells| == chip.size && Readable(a, blocks)
    ensures |r.cells| == chip.size
    decreases |blocks|
  {
    if blocks == [] then st
    else FlashBlocks(FlashBlock(st, chip, autoErase, a, blocks[0]), chip, autoErase, a + blocks[0].len, blocks[1..])
  }

  // ---------------------------------------------------------------------------------------------
  // The log: every sector erased at most once, and before anything is programmed in it

  predicate ErasedOnce(log: seq<Command>) {
    forall i, j :: 0 <= i < j < |log| && log[i].Erase? && log[j].Erase? ==> log[i].sector != log[j].sector
  }

  predicate HasErase(log: seq<Command>, n: nat, s: nat) { exists i :: 0 <= i < n <= |log| && log[i] == Erase(s) }

  predicate ErasedFirst(log: seq<Command>, e: nat)
    requires e > 0
  {
    forall j :: 0 <= j < |log| && log[j].Program? ==> HasErase(log, j, Sector(log[j].adr, e))
  }

  /** Exactly the sectors from lo to hi are erased. */
  predicate ErasesRange(log: seq<Command>, lo: nat, hi: nat, e: nat)
    requires e > 0
  {
    && (forall i :: 0 <= i < |log| && log[i].Erase? ==> lo <= log[i].sector <= hi)
    && (forall s: nat :: lo <= s <= hi && s % e == 0 ==> HasErase(log, |log|, s))
  }

  predicate LogOk(log: seq<Command>, lo: nat, hi: nat, e: nat)
    requires e > 0
  {
    ErasedOnce(log) && ErasedFirst(log, e) && ErasesRange(log, lo, hi, e)
  }

  lemma EraseLogged(log: seq<Command>, lo: nat, hi: nat, e: nat)
    requires EraseSize(e) && hi % e == 0 && lo <= hi && LogOk(log, lo, hi, e)
    ensures LogOk(log + [Erase(hi + e)], lo, hi + e, e)
  {
    var log' := log + [Erase(hi + e)];
    NextSector(hi, e);
    assert log'[|log|] == Erase(hi + e);
    forall s: nat | lo <= s <= hi + e && s % e == 0 ensures HasErase(log', |log'|, s) {
      if s <= hi { Earlier(log, [Erase(hi + e)], |log|, s); } else if s < hi + e { SectorOrder(hi, s, e); }
    }
    forall j | 0 <= j < |log'| && log'[j].Program? ensures HasErase(log', j, Sector(log'[j].adr, e)) {
      Earlier(log, [Erase(hi + e)], j, Sector(log[j].adr, e));
    }
  }

  lemma Earlier(log: seq<Command>, more: seq<Command>, n: nat, s: nat)
    requires n <= |log| && HasErase(log, n, s)
    ensures HasErase(log + more, n, s) && HasErase(log + more, |log + more|, s)
  {
    var i :| 0 <= i < n && log[i] == Erase(s);
    assert (log + more)[i] == Erase(s);
  }

  lemma FirstEraseLogged(s: nat, e: nat)
    requires EraseSize(e) && s % e == 0
    ensures LogOk([Erase(s)], s, s, e)
  {
    assert [Erase(s)][0] == Erase(s);
  }

  predicate ProgramsWithin(programs: seq<Command>, from: nat, to: nat) {
    forall j :: 0 <= j < |programs| ==> programs[j].Program? && from <= programs[j].adr < to
  }

  lemma ProgramsLogged(log: seq<Command>, programs: seq<Command>, lo: nat, hi: nat, e: nat, from: nat)
    requires EraseSize(e) && lo % e == 0 && hi % e == 0 && lo <= from && LogOk(log, lo, hi, e)
    requires ProgramsWithin(programs, from, hi + e)
    ensures LogOk(log + programs, lo, hi, e)
  {
    var log' := log + programs;
    forall s: nat | lo <= s <= hi && s % e == 0 ensures HasErase(log', |log'|, s) { Earlier(log, programs, |log|, s); }
    forall j | 0 <= j < |log'| && log'[j].Program? ensures HasErase(log', j, Sector(log'[j].adr, e)) {
      if j < |log| {
        Earlier(log, programs, j, Sector(log[j].adr, e));
      } else {
        var s := Sector(log'[j].adr, e);
        assert log'[j] == programs[j - |log|];
        SectorBounds(log'[j].adr, e);
        if s < lo { SectorOrder(s, lo, e); }
        if hi < s { SectorOrder(hi, s, e); }
        Earlier(log, programs, |log|, s);
        Sooner(log', |log|, j, s);
      }
    }
  }

  lemma Sooner(log: seq<Command>, n: nat, m: nat, s: nat)
    requires n <= m <= |log| && HasErase(log, n, s)
    ensures HasErase(log, m, s)
  {
    var i :| 0 <= i < n && log[i] == Erase(s);
  }

  lemma OneMoreProgram(programs: seq<Command>, a: nat, d: seq<Byte>, from: nat, to: nat)
    requires ProgramsWithin(programs, from, to) && a <= from && a < to
    ensures ProgramsWithin([Program(a, d)] + programs, a, to)
  {
  }

  lemma {:induction false} ProgramsRange(a: nat, buffer: seq<Byte>, len: nat, wrote: nat)
    requires |buffer| >= WrittenFrom(a, len, wrote)
    ensures ProgramsWithin(ProgramsFrom(a, buffer, len, wrote), a + wrote, a + WrittenFrom(a, len, wrote))
    decreases len - wrote
  {
    if wrote < len {
      var n := Min(len, Left(a + wrote));
      WrittenGrows(a, len, wrote + n);
      ProgramsRange(a, buffer, len, wrote + n);
      OneMoreProgram(ProgramsFrom(a, buffer, len, wrote + n), a + wrote, buffer[wrote..wrote + n], a + wrote + n,
        a + WrittenFrom(a, len, wrote));
    }
  }

  // ---------------------------------------------------------------------------------------------
  // One block

  ghost predicate OutsideKept(before: seq<Byte>, after: seq<Byte>, lo: nat, hi: nat) {
    |before| == |after| && forall i :: 0 <= i < |before| && !(lo <= i < hi) ==> after[i] == before[i]
  }

  predicate Holds(cells: seq<Byte>, at: nat, data: seq<Byte>) {
    at + |data| <= |cells| && cells[at..at + |data|] == data
  }

  /** The first `done` bytes of the file are at `at`, in sectors erased for it, and nothing else has changed. */
  ghost predicate Flashed(st: FlashState, before: seq<Byte>, chip: Chip, at: nat, data: seq<Byte>)
    requires Known(chip)
  {
    if data == [] then st.cells == before && st.lastErase == INVALID && st.log == []
    else
      var lo, hi := Sector(at, chip.erase), Sector(at + |data| - 1, chip.erase);
      && st.lastErase == hi && LogOk(st.log, lo, hi, chip.erase)
      && Holds(st.cells, at, data) && OutsideKept(before, st.cells, lo, hi + chip.erase)
  }

  /** What is left of the last sector erased is blank. */
  ghost predicate Ready(st: FlashState, chip: Chip, at: nat, done: nat)
    requires Known(chip)
  {
    done > 0 ==> Blank(st.cells, at + done, Sector(at + done - 1, chip.erase) + chip.erase)
  }

  /** After the erase of a block of len bytes, if one was due, there is room for the block. */
  ghost predicate Prepared(r: FlashState, before: seq<Byte>, at: nat, data: seq<Byte>, lo: nat, hi: nat, e: nat)
    requires e > 0
  {
    && r.lastErase == hi && LogOk(r.log, lo, hi, e) && Blank(r.cells, at + |data|, hi + e)
    && Holds(r.cells, at, data) && OutsideKept(before, r.cells, lo, hi + e)
  }

  lemma FirstErase(st: FlashState, before: seq<Byte>, chip: Chip, at: nat, len: nat, r: FlashState)
    requires Known(chip) && |before| == |st.cells| == chip.size && at + len <= chip.size && 0 < len <= 512
    requires Flashed(st, before, chip, at, []) && at % chip.erase + len <= chip.erase
    requires r == if NeedsErase(st, chip, true, at, len) then AfterErase(st, chip, at) else st
    ensures var lo, hi := Sector(at, chip.erase), Sector(at + len - 1, chip.erase);
      Prepared(r, before, at, [], lo, hi, chip.erase)
  {
    var e := chip.erase;
    var lo := Sector(at, e);
    SectorInChip(chip, at);
    SectorBounds(at, e);
    SectorIs(at + len - 1, lo, e);
    FirstEraseLogged(lo, e);
    assert r.log == [Erase(lo)];
  }

  /** The sector of a block's last byte is the one erased last, or the one after it. */
  lemma SameOrNextSector(chip: Chip, at: nat, a: nat, len: nat)
    requires Known(chip) && a + len <= chip.size && 0 < len <= 512 && at < a
    ensures EraseSize(chip.erase)
    ensures var e := chip.erase;
      var prev, hi := Sector(a - 1, e), Sector(a + len - 1, e);
      && Sector(at, e) <= prev && (hi == prev || hi == prev + e) && hi + e <= chip.size && hi % e == 0 && prev % e == 0
  {
    var e := chip.erase;
    var prev, hi := Sector(a - 1, e), Sector(a + len - 1, e);
    SectorInChip(chip, a + len - 1);
    SectorBounds(at, e);
    SectorBounds(a - 1, e);
    SectorBounds(a + len - 1, e);
    if prev < Sector(at, e) { SectorOrder(prev, Sector(at, e), e); }
    NextSector(prev, e);
    if a + len - 1 < prev + e { SectorIs(a + len - 1, prev, e); } else { SectorIs(a + len - 1, prev + e, e); }
  }

  lemma ErasedCells(before: seq<Byte>, cells: seq<Byte>, at: nat, data: seq<Byte>, lo: nat, end: nat, e: nat)
    requires end + e <= |cells| && Holds(cells, at, data) && lo <= at && at + |data| <= end
    requires Blank(cells, at + |data|, end) && OutsideKept(before, cells, lo, end)
    ensures var r := Erased(cells, end, e);
      Holds(r, at, data) && Blank(r, at + |data|, end + e) && OutsideKept(before, r, lo, end + e)
  {
    var r := Erased(cells, end, e);
    assert r[at..at + |data|] == cells[at..at + |data|];
  }

  /** The next sector erased, behind a file part that is in place. */
  lemma ErasePrepared(st: FlashState, before: seq<Byte>, chip: Chip, at: nat, data: seq<Byte>, lo: nat, prev: nat,
      r: FlashState)
    requires Known(chip) && EraseSize(chip.erase) && |st.cells| == chip.size && prev + 2 * chip.erase <= chip.size
    requires lo <= at && lo <= prev && prev % chip.erase == 0 && at + |data| <= prev + chip.erase
    requires Prepared(st, before, at, data, lo, prev, chip.erase)
    requires r == FlashState(Erased(st.cells, prev + chip.erase, chip.erase), st.log + [Erase(prev + chip.erase)],
      prev + chip.erase)
    ensures Prepared(r, before, at, data, lo, prev + chip.erase, chip.erase)
  {
    EraseLogged(st.log, lo, prev, chip.erase);
    ErasedCells(before, st.cells, at, data, lo, prev + chip.erase, chip.erase);
  }

  lemma LaterErase(st: FlashState, before: seq<Byte>, chip: Chip, at: nat, data: seq<Byte>, len: nat, r: FlashState)
    requires Known(chip) && |before| == |st.cells| == chip.size && at + |data| + len <= chip.size && 0 < len <= 512
    requires Flashed(st, before, chip, at, data) && Ready(st, chip, at, |data|) && data != []
    requires r == if NeedsErase(st, chip, true, at + |data|, len) then AfterErase(st, chip, at + |data|) else st
    ensures var lo, hi := Sector(at, chip.erase), Sector(at + |data| + len - 1, chip.erase);
      Prepared(r, before, at, data, lo, hi, chip.erase)
  {
    var e := chip.erase;
    var lo, prev, hi := Sector(at, e), Sector(at + |data| - 1, e), Sector(at + |data| + len - 1, e);
    SameOrNextSector(chip, at, at + |data|, len);
    SectorBounds(at + |data| - 1, e);
    SectorBounds(at, e);
    assert Prepared(st, before, at, data, lo, prev, e);
    if hi != prev { ErasePrepared(st, before, chip, at, data, lo, prev, r); }
  }

  /** After the erase of a block of len bytes, if one was due, there is room for the block. */
  lemma EraseStep(st: FlashState, before: seq<Byte>, chip: Chip, at: nat, data: seq<Byte>, len: nat, r: FlashState)
    requires Known(chip) && |before| == |st.cells| == chip.size && at + |data| + len <= chip.size && 0 < len <= 512
    requires Flashed(st, before, chip, at, data) && Ready(st, chip, at, |data|)
    requires data == [] ==> at % chip.erase + len <= chip.erase
    requires r == if NeedsErase(st, chip, true, at + |data|, len) then AfterErase(st, chip, at + |data|) else st
    ensures var lo, hi := Sector(at, chip.erase), Sector(at + |data| + len - 1, chip.erase);
      Prepared(r, before, at, data, lo, hi, chip.erase)
  {
    if data == [] { FirstErase(st, before, chip, at, len, r); } else { LaterErase(st, before, chip, at, data, len, r); }
  }

  lemma PageEndWithin(x: nat, y: nat)
    requires y % PAGE == 0 && x <= y
    ensures PageEnd(x) <= y
  {
  }

  lemma SectorEnd(a: nat, e: nat)
    requires EraseSize(e)
    ensures (Sector(a, e) + e) % PAGE == 0
  {
  }

  lemma FullBlock(a: nat)
    requires a % PAGE == 0
    ensures Written(a, 512) == 512
  {
    WrittenExact(a, 512);
  }

  /** What a block programs ends in the sector of its last byte. */
  lemma WrittenRoom(a: nat, len: nat, e: nat)
    requires EraseSize(e) && len > 0
    ensures len <= Written(a, len) && a + Written(a, len) <= Sector(a + len - 1, e) + e
  {
    SectorBounds(a + len - 1, e);
    SectorEnd(a + len - 1, e);
    WrittenBounds(a, len, 0);
    PageEndWithin(a + len, Sector(a + len - 1, e) + e);
  }

  /** A block stays within the sector of its last byte, excess included; a full one that starts a page has none. */
  lemma BlockRoom(chip: Chip, at: nat, a: nat, len: nat)
    requires Known(chip) && at <= a && 0 < len <= 512
    ensures var e := chip.erase;
      var lo, hi := Sector(at, e), Sector(a + len - 1, e);
      && EraseSize(e) && lo % e == 0 && hi % e == 0 && lo <= at && a + Written(a, len) <= hi + e
      && len <= Written(a, len) && (len == 512 && a % PAGE == 0 ==> Written(a, len) == len)
  {
    SectorBounds(at, chip.erase);
    SectorBounds(a + len - 1, chip.erase);
    WrittenRoom(a, len, chip.erase);
    if len == 512 && a % PAGE == 0 { FullBlock(a); }
  }

  lemma WrittenCells(before: seq<Byte>, cells: seq<Byte>, at: nat, data: seq<Byte>, b: Block, w: nat, lo: nat, end: nat)
    requires Holds(cells, at, data) && lo <= at && b.len <= w <= |b.memory| && at + |data| + w <= end
    requires Blank(cells, at + |data|, end) && OutsideKept(before, cells, lo, end)
    ensures var r := Programmed(cells, at + |data|, b.memory[..w]);
      Holds(r, at, data + Payload(b)) && Blank(r, at + |data| + w, end) && OutsideKept(before, r, lo, end)
  {
    HoldsMore(cells, Programmed(cells, at + |data|, b.memory[..w]), at, data, b, w);
  }

  lemma WriteStep(st: FlashState, before: seq<Byte>, chip: Chip, at: nat, data: seq<Byte>, b: Block, r: FlashState)
    requires Known(chip) && |before| == |st.cells| == chip.size && at + |data| + b.len <= chip.size && 0 < b.len <= 512
    requires |b.memory| >= Written(at + |data|, b.len) && b.len <= |b.memory|
    requires var lo, hi := Sector(at, chip.erase), Sector(at + |data| + b.len - 1, chip.erase);
      Prepared(st, before, at, data, lo, hi, chip.erase)
    requires r == AfterWrite(st, chip, at + |data|, b)
    ensures Flashed(r, before, chip, at, data + Payload(b))
    ensures b.len == 512 && (at + |data|) % PAGE == 0 ==> Ready(r, chip, at, |data| + 512)
  {
    var e := chip.erase;
    var a := at + |data|;
    var lo, hi := Sector(at, e), Sector(a + b.len - 1, e);
    var w := Written(a, b.len);
    BlockRoom(chip, at, a, b.len);
    ProgramsRange(a, b.memory, b.len, 0);
    ProgramsLogged(st.log, ProgramsFrom(a, b.memory, b.len, 0), lo, hi, e, a);
    WrittenCells(before, st.cells, at, data, b, w, lo, hi + e);
    assert |data + Payload(b)| == |data| + b.len;
  }

  lemma HoldsMore(cells: seq<Byte>, cells': seq<Byte>, at: nat, data: seq<Byte>, b: Block, w: nat)
    requires Holds(cells, at, data) && b.len <= w <= |b.memory| && at + |data| + w <= |cells|
    requires Blank(cells, at + |data|, at + |data| + w)
    requires cells' == Programmed(cells, at + |data|, b.memory[..w])
    ensures Holds(cells', at, data + Payload(b))
  {
    var all := data + Payload(b);
    forall i | 0 <= i < |all| ensures cells'[at + i] == all[i] {
      if i >= |data| { AndByte(b.memory[i - |data|]); } else { assert cells[at..at + |data|][i] == data[i]; }
    }
  }

  lemma BlockStep(st: FlashState, before: seq<Byte>, chip: Chip, at: nat, data: seq<Byte>, b: Block)
    requires Known(chip) && |before| == |st.cells| == chip.size && at + |data| + b.len <= chip.size && 0 < b.len <= 512
    requires |b.memory| >= Written(at + |data|, b.len) && b.len <= |b.memory|
    requires Flashed(st, before, chip, at, data) && Ready(st, chip, at, |data|)
    requires data == [] ==> at % chip.erase + b.len <= chip.erase
    ensures var r := FlashBlock(st, chip, true, at + |data|, b);
      && Flashed(r, before, chip, at, data + Payload(b))
      && (b.len == 512 && (at + |data|) % PAGE == 0 ==> Ready(r, chip, at, |data| + 512))
  {
    var erased := if NeedsErase(st, chip, true, at + |data|, b.len) then AfterErase(st, chip, at + |data|) else st;
    EraseStep(st, before, chip, at, data, b.len, erased);
    WriteStep(erased, before, chip, at, data, b, FlashBlock(st, chip, true, at + |data|, b));
  }

  // ---------------------------------------------------------------------------------------------
  // Whole files

  /** The blocks of the rest of a file, as TFTP sends them: 512 bytes each, and a shorter last one, possibly empty. */
  predicate Blocks(rest: seq<Byte>, blocks: seq<Block>)
    decreases |blocks|
  {
    blocks != [] && blocks[0].len == Min(512, |rest|) && blocks[0].len <= |blocks[0].memory|
    && Payload(blocks[0]) == rest[..blocks[0].len]
    && (if |rest| < 512 then |blocks| == 1 else Blocks(rest[512..], blocks[1..]))
  }

  lemma EmptyBlock(st: FlashState, chip: Chip, a: nat, blocks: seq<Block>)
    requires Known(chip) && |st.cells| == chip.size && Blocks([], blocks) && Readable(a, blocks)
    ensures FlashBlocks(st, chip, true, a, blocks) == st
  {
    assert blocks[1..] == [];
  }

  /** The state between blocks: what is done, and room for the rest unless the rest is empty. */
  ghost predicate Between(st: FlashState, before: seq<Byte>, chip: Chip, at: nat, done: seq<Byte>, rest: seq<Byte>)
    requires Known(chip)
  {
    && |before| == |st.cells| == chip.size && at + |done| + |rest| <= chip.size
    && Flashed(st, before, chip, at, done)
    && (rest != [] ==> Ready(st, chip, at, |done|) && (|rest| <= 512 || (at + |done|) % PAGE == 0))
    && (done == [] ==> at % chip.erase + Min(512, |rest|) <= chip.erase)
  }

  /** What is left of the condition for the rest, after a block of it. */
  lemma BetweenRest(chip: Chip, at: nat, done: nat, rest: nat, n: nat)
    requires n == Min(512, rest) && rest > 0 && (rest <= 512 || (at + done) % PAGE == 0)
    ensures rest - n > 0 ==> n == 512 && (at + done) % PAGE == 0 && (at + done + n) % PAGE == 0
  {
  }

  lemma BetweenStep(st: FlashState, before: seq<Byte>, chip: Chip, at: nat, done: seq<Byte>, rest: seq<Byte>,
      b: Block, r: FlashState)
    requires Known(chip) && Between(st, before, chip, at, done, rest) && rest != []
    requires b.len == Min(512, |rest|) && b.len <= |b.memory| && Payload(b) == rest[..b.len]
    requires |b.memory| >= Written(at + |done|, b.len) && r == FlashBlock(st, chip, true, at + |done|, b)
    ensures Between(r, before, chip, at, done + rest[..b.len], rest[b.len..])
  {
    BlockStep(st, before, chip, at, done, b);
    BetweenRest(chip, at, |done|, |rest|, b.len);
    assert |done + rest[..b.len]| == |done| + b.len && |rest[b.len..]| == |rest| - b.len;
  }

  lemma FirstBlock(st: FlashState, chip: Chip, a: nat, blocks: seq<Block>, r: FlashState)
    requires Known(chip) && |st.cells| == chip.size && blocks != [] && Readable(a, blocks)
    requires r == FlashBlock(st, chip, true, a, blocks[0])
    ensures Readable(a + blocks[0].len, blocks[1..])
    ensures FlashBlocks(st, chip, true, a, blocks) == FlashBlocks(r, chip, true, a + blocks[0].len, blocks[1..])
    ensures |blocks| == 1 ==> FlashBlocks(st, chip, true, a, blocks) == r
  {
  }

  lemma Rejoin(done: seq<Byte>, rest: seq<Byte>, n: nat)
    requires n <= |rest|
    ensures (done + rest[..n]) + rest[n..] == done + rest
    ensures n == |rest| ==> done + rest[..n] == done + rest
  {
  }

  lemma LastBlock(st: FlashState, before: seq<Byte>, chip: Chip, at: nat, done: seq<Byte>, rest: seq<Byte>,
      blocks: seq<Block>)
    requires Known(chip) && Between(st, before, chip, at, done, rest) && |rest| < 512
    requires Blocks(rest, blocks) && Readable(at + |done|, blocks)
    ensures Flashed(FlashBlocks(st, chip, true, at + |done|, blocks), before, chip, at, done + rest)
  {
    var b := blocks[0];
    var r := FlashBlock(st, chip, true, at + |done|, b);
    FirstBlock(st, chip, at + |done|, blocks, r);
    Rejoin(done, rest, b.len);
    if rest != [] { BetweenStep(st, before, chip, at, done, rest, b, r); }
  }

  lemma FullBlockNext(rest: seq<Byte>, blocks: seq<Block>)
    requires Blocks(rest, blocks) && |rest| >= 512
    ensures blocks != [] && blocks[0].len == 512 <= |blocks[0].memory| && Payload(blocks[0]) == rest[..512]
    ensures Blocks(rest[512..], blocks[1..])
  {
  }

  /** A full block, with the file going on behind it. */
  lemma FullBlockStep(st: FlashState, before: seq<Byte>, chip: Chip, at: nat, done: seq<Byte>, rest: seq<Byte>,
      blocks: seq<Block>)
    returns (r: FlashState)
    requires Known(chip) && Between(st, before, chip, at, done, rest) && |rest| >= 512
    requires Blocks(rest, blocks) && Readable(at + |done|, blocks)
    ensures Between(r, before, chip, at, done + rest[..512], rest[512..])
    ensures Blocks(rest[512..], blocks[1..]) && Readable(at + |done| + 512, blocks[1..])
    ensures FlashBlocks(st, chip, true, at + |done|, blocks) ==
      FlashBlocks(r, chip, true, at + |done| + 512, blocks[1..])
  {
    FullBlockNext(rest, blocks);
    r := FlashBlock(st, chip, true, at + |done|, blocks[0]);
    BetweenStep(st, before, chip, at, done, rest, blocks[0], r);
    FirstBlock(st, chip, at + |done|, blocks, r);
  }

  lemma {:induction false} FlashRest(st: FlashState, before: seq<Byte>, chip: Chip, at: nat, done: seq<Byte>,
      rest: seq<Byte>, blocks: seq<Block>)
    requires Known(chip) && Between(st, before, chip, at, done, rest)
    requires Blocks(rest, blocks) && Readable(at + |done|, blocks)
    ensures Flashed(FlashBlocks(st, chip, true, at + |done|, blocks), before, chip, at, done + rest)
    decreases |blocks|
  {
    if |rest| < 512 {
      LastBlock(st, before, chip, at, done, rest, blocks);
    } else {
      var r := FullBlockStep(st, before, chip, at, done, rest, blocks);
      var more := done + rest[..512];
      assert |more| == |done| + 512;
      FlashRest(r, before, chip, at, more, rest[512..], blocks[1..]);
      Rejoin(done, rest, 512);
    }
  }

  /** The first block lies in one sector, and the file starts a page or is one block. */
  predicate Suitable(at: nat, size: nat, chip: Chip)
    requires Known(chip)
  {
    at % chip.erase + Min(512, size) <= chip.erase && (size <= 512 || at % PAGE == 0)
  }

  /**
   * A file sent in TFTP blocks ends up in the flash byte for byte, whatever memory follows the payloads,
   * when it goes to a page address or is one block, and the first block lies in one sector. Every sector
   * it touches is erased exactly once and before its first program, and no byte outside them changes.
   */
  lemma FileFlashed(before: seq<Byte>, chip: Chip, at: nat, file: seq<Byte>, blocks: seq<Block>)
    requires Known(chip) && |before| == chip.size && at + |file| <= chip.size
    requires Suitable(at, |file|, chip) && Blocks(file, blocks) && Readable(at, blocks)
    ensures var st := FlashBlocks(FlashState(before, [], INVALID), chip, true, at, blocks);
      if file == [] then st.cells == before
      else
        var lo, hi := Sector(at, chip.erase), Sector(at + |file| - 1, chip.erase);
        && Holds(st.cells, at, file)
        && LogOk(st.log, lo, hi, chip.erase)
        && OutsideKept(before, st.cells, lo, hi + chip.erase)
  {
    assert [] + file == file;
    StartBetween(before, chip, at, file);
    FlashRest(FlashState(before, [], INVALID), before, chip, at, [], file, blocks);
  }

  lemma StartBetween(before: seq<Byte>, chip: Chip, at: nat, file: seq<Byte>)
    requires Known(chip) && |before| == chip.size && at + |file| <= chip.size && Suitable(at, |file|, chip)
    ensures Between(FlashState(before, [], INVALID), before, chip, at, [], file)
  {
  }
}
