// Exactly when writing a file to the flash works for every file, flash content and buffer.
module FlashLimits {
  import opened Nor
  import opened SpiFlash
  import opened Transfer

  /** The file is in the flash after it has been sent. */
  ghost predicate Succeeds(before: seq<Byte>, chip: Chip, at: nat, file: seq<Byte>, blocks: seq<Block>)
    requires Known(chip)
  {
    |before| == chip.size && Blocks(file, blocks) && Readable(at, blocks) ==>
      Holds(FlashBlocks(FlashState(before, [], INVALID), chip, true, at, blocks).cells, at, file)
  }

  ghost predicate AlwaysSucceeds(chip: Chip, at: nat, size: nat)
    requires Known(chip)
  {
    forall before: seq<Byte>, file: seq<Byte>, blocks: seq<Block> :: |file| == size ==>
      Succeeds(before, chip, at, file, blocks)
  }

  // ---------------------------------------------------------------------------------------------
  // A byte that later blocks cannot reach

  lemma {:induction false} AndZero(b: nat, n: nat)
    ensures AndBits(0, b, n) == 0 && AndBits(b, 0, n) == 0
  {
    if n > 0 { AndZero(b / 2, n - 1); }
  }

  lemma ZeroByte(b: Byte)
    ensures And(0, b) == 0 && And(b, 0) == 0
  {
    AndZero(b, 8);
  }

  /** Cell p is in a sector already passed, and is below a or cleared. */
  predicate Stuck(st: FlashState, chip: Chip, a: nat, p: nat, v: Byte)
    requires Known(chip)
  {
    && |st.cells| == chip.size && p < chip.size && st.cells[p] == v
    && st.lastErase % chip.erase == 0 && p < st.lastErase + chip.erase && (p < a || v == 0)
  }

  lemma NotInvalid(s: nat, chip: Chip)
    requires Known(chip) && s % chip.erase == 0
    ensures s != INVALID && (s + chip.erase) % chip.erase == 0
  {
    NextSector(s, chip.erase);
  }

  lemma StuckBlock(st: FlashState, chip: Chip, a: nat, p: nat, v: Byte, b: Block)
    requires Known(chip) && Stuck(st, chip, a, p, v) && |b.memory| >= Written(a, b.len)
    ensures Stuck(FlashBlock(st, chip, true, a, b), chip, a + b.len, p, v)
  {
    NotInvalid(st.lastErase, chip);
    if b.len > 0 {
      var erased := if NeedsErase(st, chip, true, a, b.len) then AfterErase(st, chip, a) else st;
      assert Stuck(erased, chip, a, p, v);
      if a <= p < a + Written(a, b.len) { ZeroByte(b.memory[p - a]); }
    }
  }

  lemma {:induction false} StuckBlocks(st: FlashState, chip: Chip, a: nat, p: nat, v: Byte, blocks: seq<Block>)
    requires Known(chip) && Stuck(st, chip, a, p, v) && Readable(a, blocks)
    ensures FlashBlocks(st, chip, true, a, blocks).cells[p] == v
    decreases |blocks|
  {
    if blocks != [] {
      StuckBlock(st, chip, a, p, v, blocks[0]);
      StuckBlocks(FlashBlock(st, chip, true, a, blocks[0]), chip, a + blocks[0].len, p, v, blocks[1..]);
    }
  }

  // ---------------------------------------------------------------------------------------------
  // Files of one byte value

  function Uniform(v: Byte, n: nat): (s: seq<Byte>)
    ensures |s| == n && forall i :: 0 <= i < n ==> s[i] == v
  {
    seq(n, _ => v)
  }

  /** The blocks of such a file; all memory behind the payloads has that value too. */
  function UniformBlocks(v: Byte, size: nat): seq<Block> {
    if size < 512 then [Block(Uniform(v, 1024), size)]
    else [Block(Uniform(v, 1024), 512)] + UniformBlocks(v, size - 512)
  }

  lemma EnoughMemory(a: nat, len: nat)
    requires len <= 512
    ensures Written(a, len) <= 1024
  {
    WrittenBounds(a, len, 0);
  }

  lemma {:induction false} UniformIsSent(v: Byte, size: nat, a: nat)
    ensures Blocks(Uniform(v, size), UniformBlocks(v, size)) && Readable(a, UniformBlocks(v, size))
    decreases size
  {
    var blocks := UniformBlocks(v, size);
    EnoughMemory(a, blocks[0].len);
    assert Payload(blocks[0]) == Uniform(v, size)[..blocks[0].len];
    if size < 512 {
      assert Readable(a + size, blocks[1..]);
    } else {
      UniformIsSent(v, size - 512, a + 512);
      assert blocks[1..] == UniformBlocks(v, size - 512) && Uniform(v, size)[512..] == Uniform(v, size - 512);
    }
  }

  // ---------------------------------------------------------------------------------------------
  // The ways to fail

  lemma Fails(before: seq<Byte>, chip: Chip, at: nat, file: seq<Byte>, blocks: seq<Block>, p: nat)
    requires Known(chip) && |before| == chip.size && Blocks(file, blocks) && Readable(at, blocks)
    requires at <= p < at + |file| <= chip.size
    requires FlashBlocks(FlashState(before, [], INVALID), chip, true, at, blocks).cells[p] != file[p - at]
    ensures !AlwaysSucceeds(chip, at, |file|)
  {
    var cells := FlashBlocks(FlashState(before, [], INVALID), chip, true, at, blocks).cells;
    assert cells[at..at + |file|][p - at] == cells[p];
    assert !Succeeds(before, chip, at, file, blocks);
  }

  predicate Straddles(at: nat, size: nat, chip: Chip)
    requires Known(chip)
  {
    at % chip.erase + Min(512, size) > chip.erase
  }

  /** The state after a first block that crosses into the next sector: only the first sector has been erased. */
  lemma AfterStraddle(chip: Chip, at: nat, b: Block, before: seq<Byte>, r: FlashState)
    requires Known(chip) && |before| == chip.size && at + b.len <= chip.size && 0 < b.len <= 512
    requires Straddles(at, b.len, chip) && |b.memory| >= Written(at, b.len) && b.len <= |b.memory|
    requires r == FlashBlock(FlashState(before, [], INVALID), chip, true, at, b)
    ensures var p := Sector(at, chip.erase) + chip.erase;
      && at < p < at + b.len && p % chip.erase == 0 && p + chip.erase <= chip.size
      && r.lastErase == p - chip.erase && r.cells[p] == And(before[p], b.memory[p - at])
  {
    var e := chip.erase;
    SectorBounds(at, e);
    NextSector(Sector(at, e), e);
    SectorInChip(chip, at + b.len - 1);
    StraddleSectors(chip, at, b.len);
    WrittenBounds(at, b.len, 0);
  }

  lemma StraddleSectors(chip: Chip, at: nat, len: nat)
    requires Known(chip) && 0 < len <= 512 && at + len <= chip.size && Straddles(at, len, chip)
    ensures Sector(at + len - 1, chip.erase) == Sector(at, chip.erase) + chip.erase
  {
    SectorBounds(at, chip.erase);
    NextSector(Sector(at, chip.erase), chip.erase);
    SectorIs(at + len - 1, Sector(at, chip.erase) + chip.erase, chip.erase);
  }

  /** A short file across a sector boundary is written over what was there. */
  lemma ShortStraddleFails(chip: Chip, at: nat, size: nat)
    requires Known(chip) && at + size <= chip.size && size <= 512 && Straddles(at, size, chip)
    ensures !AlwaysSucceeds(chip, at, size)
  {
    var before, blocks := Uniform(0, chip.size), UniformBlocks(255, size);
    UniformIsSent(255, size, at);
    var r := FlashBlock(FlashState(before, [], INVALID), chip, true, at, blocks[0]);
    var p := Sector(at, chip.erase) + chip.erase;
    AfterStraddle(chip, at, blocks[0], before, r);
    ZeroByte(255);
    FirstBlock(FlashState(before, [], INVALID), chip, at, blocks, r);
    if size == 512 { EmptyBlock(r, chip, at + 512, blocks[1..]); }
    Fails(before, chip, at, Uniform(255, size), blocks, p);
  }

  lemma NextErased(r: FlashState, chip: Chip, a: nat, len: nat, p: nat)
    requires Known(chip) && |r.cells| == chip.size && p % chip.erase == 0 && p + chip.erase <= chip.size && p < a
    requires p >= chip.erase && r.lastErase == p - chip.erase && len > 0
    ensures NeedsErase(r, chip, true, a, len) && Stuck(AfterErase(r, chip, a), chip, a, p, 255)
  {
    SectorBounds(a + len - 1, chip.erase);
    assert r.lastErase != INVALID;
  }

  lemma StuckWrite(st: FlashState, chip: Chip, a: nat, b: Block, p: nat)
    requires Known(chip) && Stuck(st, chip, a, p, 255) && p < a && |b.memory| >= Written(a, b.len)
    ensures Stuck(AfterWrite(st, chip, a, b), chip, a + b.len, p, 255)
  {
  }

  /** A longer one loses the end of its first block when the second one has the next sector erased. */
  lemma SecondBlockErases(r: FlashState, chip: Chip, a: nat, b: Block, p: nat)
    requires Known(chip) && |r.cells| == chip.size && p % chip.erase == 0 && p + chip.erase <= chip.size && p < a
    requires p >= chip.erase && r.lastErase == p - chip.erase && 0 < b.len <= 512 && |b.memory| >= Written(a, b.len)
    ensures Stuck(FlashBlock(r, chip, true, a, b), chip, a + b.len, p, 255)
  {
    NextErased(r, chip, a, b.len, p);
    StuckWrite(AfterErase(r, chip, a), chip, a, b, p);
  }

  /** From the second block on, cell p stays erased. */
  lemma RestAfterStraddle(r: FlashState, chip: Chip, a: nat, blocks: seq<Block>, p: nat)
    requires Known(chip) && |r.cells| == chip.size && p % chip.erase == 0 && p + chip.erase <= chip.size && p < a
    requires p >= chip.erase && r.lastErase == p - chip.erase
    requires blocks != [] && 0 < blocks[0].len <= 512 && Readable(a, blocks)
    ensures FlashBlocks(r, chip, true, a, blocks).cells[p] == 255
  {
    var r2 := FlashBlock(r, chip, true, a, blocks[0]);
    SecondBlockErases(r, chip, a, blocks[0], p);
    FirstBlock(r, chip, a, blocks, r2);
    StuckBlocks(r2, chip, a + blocks[0].len, p, 255, blocks[1..]);
  }

  /** The first payload of a longer file is full, and the second is not empty. */
  lemma TwoBlocks(file: seq<Byte>, blocks: seq<Block>)
    requires |file| > 512 && Blocks(file, blocks)
    ensures blocks[0].len == 512 && |blocks| > 1 && 0 < blocks[1].len <= 512 && blocks[1].len <= |file| - 512
    ensures blocks[1].len <= |blocks[1].memory| && blocks[1].memory[0] == file[512]
  {
    assert Blocks(file[512..], blocks[1..]) && blocks[1..][0] == blocks[1];
    assert Payload(blocks[1])[0] == blocks[1].memory[0] && file[512..][..blocks[1].len][0] == file[512];
  }

  /** Whatever is sent and whatever was there, the byte behind the sector boundary ends erased. */
  lemma LongStraddleErases(chip: Chip, at: nat, before: seq<Byte>, file: seq<Byte>, blocks: seq<Block>)
    requires Known(chip) && |before| == chip.size && at + |file| <= chip.size && |file| > 512
    requires Straddles(at, |file|, chip) && Blocks(file, blocks) && Readable(at, blocks)
    ensures var p := Sector(at, chip.erase) + chip.erase;
      at < p < at + 512 && FlashBlocks(FlashState(before, [], INVALID), chip, true, at, blocks).cells[p] == 255
  {
    var r := FlashBlock(FlashState(before, [], INVALID), chip, true, at, blocks[0]);
    TwoBlocks(file, blocks);
    FirstBlock(FlashState(before, [], INVALID), chip, at, blocks, r);
    AfterStraddle(chip, at, blocks[0], before, r);
    SecondOfLong(chip, at, blocks[1..], r, Sector(at, chip.erase) + chip.erase);
  }

  lemma SecondOfLong(chip: Chip, at: nat, rest: seq<Block>, r: FlashState, p: nat)
    requires Known(chip) && |r.cells| == chip.size && p == Sector(at, chip.erase) + chip.erase
      && p + chip.erase <= chip.size
    requires p < at + 512 && r.lastErase == p - chip.erase
    requires rest != [] && 0 < rest[0].len <= 512 && Readable(at + 512, rest)
    ensures FlashBlocks(r, chip, true, at + 512, rest).cells[p] == 255
  {
    PreviousSector(p, chip, at);
    RestAfterStraddle(r, chip, at + 512, rest, p);
  }

  lemma LongStraddleFails(chip: Chip, at: nat, size: nat)
    requires Known(chip) && at + size <= chip.size && size > 512 && Straddles(at, size, chip)
    ensures !AlwaysSucceeds(chip, at, size)
  {
    var before, file, blocks := Uniform(0, chip.size), Uniform(0, size), UniformBlocks(0, size);
    UniformIsSent(0, size, at);
    LongStraddleErases(chip, at, before, file, blocks);
    Fails(before, chip, at, file, blocks, Sector(at, chip.erase) + chip.erase);
  }

  lemma PreviousSector(p: nat, chip: Chip, at: nat)
    requires Known(chip) && p == Sector(at, chip.erase) + chip.erase
    ensures p >= chip.erase && p % chip.erase == 0
  {
    SectorBounds(at, chip.erase);
    NextSector(Sector(at, chip.erase), chip.erase);
  }

  /** The blocks of a file of ones whose first payload is followed by zeros in memory. */
  function SpoiledBlocks(size: nat): seq<Block>
    requires size > 512
  {
    [Block(Uniform(255, 512) + Uniform(0, 512), 512)] + UniformBlocks(255, size - 512)
  }

  lemma SpoiledIsSent(size: nat, a: nat)
    requires size > 512
    ensures Blocks(Uniform(255, size), SpoiledBlocks(size)) && Readable(a, SpoiledBlocks(size))
  {
    var blocks := SpoiledBlocks(size);
    UniformIsSent(255, size - 512, a + 512);
    EnoughMemory(a, 512);
    assert blocks[1..] == UniformBlocks(255, size - 512) && Payload(blocks[0]) == Uniform(255, size)[..512];
    assert Uniform(255, size)[512..] == Uniform(255, size - 512);
  }

  /**
   * Off a page boundary the first write goes on behind its payload, so that the first byte of the second
   * payload ends and-ed with what followed the first one in memory.
   */
  lemma UnalignedSpoils(chip: Chip, at: nat, before: seq<Byte>, file: seq<Byte>, blocks: seq<Block>)
    requires Known(chip) && |before| == chip.size && at + |file| <= chip.size && |file| > 512
    requires at % PAGE != 0 && !Straddles(at, |file|, chip) && Blocks(file, blocks) && Readable(at, blocks)
    ensures |blocks[0].memory| > 512
    ensures FlashBlocks(FlashState(before, [], INVALID), chip, true, at, blocks).cells[at + 512] ==
      And(blocks[0].memory[512], file[512])
  {
    TwoBlocks(file, blocks);
    HasExcess(at);
    var r := FlashBlock(FlashState(before, [], INVALID), chip, true, at, blocks[0]);
    FirstSpoils(chip, at, blocks[0], before, r);
    FirstBlock(FlashState(before, [], INVALID), chip, at, blocks, r);
    SecondAnds(r, chip, at + 512, blocks[1..], blocks[1], And(blocks[0].memory[512], file[512]));
  }

  lemma SecondAnds(r: FlashState, chip: Chip, a: nat, blocks: seq<Block>, b: Block, v: Byte)
    requires Known(chip) && |r.cells| == chip.size && r.lastErase % chip.erase == 0 && a < r.lastErase + chip.erase
    requires blocks != [] && b == blocks[0] && 0 < b.len <= |b.memory| && a + b.len <= chip.size && Readable(a, blocks)
    requires v == And(r.cells[a], b.memory[0])
    ensures FlashBlocks(r, chip, true, a, blocks).cells[a] == v
  {
    var r2 := FlashBlock(r, chip, true, a, b);
    StartWritten(r, chip, a, b);
    FirstBlock(r, chip, a, blocks, r2);
    StuckBlocks(r2, chip, a + b.len, a, v, blocks[1..]);
  }

  /** A block that starts in a sector already erased puts its first byte on what is there. */
  lemma StartWritten(r: FlashState, chip: Chip, a: nat, b: Block)
    requires Known(chip) && |r.cells| == chip.size && r.lastErase % chip.erase == 0 && a < r.lastErase + chip.erase
    requires 0 < b.len <= |b.memory| && a + b.len <= chip.size && |b.memory| >= Written(a, b.len)
    ensures Stuck(FlashBlock(r, chip, true, a, b), chip, a + b.len, a, And(r.cells[a], b.memory[0]))
  {
    NotInvalid(r.lastErase, chip);
    WrittenBounds(a, b.len, 0);
    var erased := if NeedsErase(r, chip, true, a, b.len) then AfterErase(r, chip, a) else r;
    assert erased.cells[a] == r.cells[a] && erased.lastErase % chip.erase == 0 && a < erased.lastErase + chip.erase;
    assert b.memory[..Written(a, b.len)][0] == b.memory[0];
  }

  lemma UnalignedFails(chip: Chip, at: nat, size: nat)
    requires Known(chip) && at + size <= chip.size && size > 512 && at % PAGE != 0 && !Straddles(at, size, chip)
    ensures !AlwaysSucceeds(chip, at, size)
  {
    var before, file, blocks := Uniform(255, chip.size), Uniform(255, size), SpoiledBlocks(size);
    SpoiledIsSent(size, at);
    UnalignedSpoils(chip, at, before, file, blocks);
    ZeroByte(255);
    Fails(before, chip, at, file, blocks, at + 512);
  }

  lemma FirstSpoils(chip: Chip, at: nat, b: Block, before: seq<Byte>, r: FlashState)
    requires Known(chip) && |before| == chip.size && at + 512 < chip.size && at % PAGE != 0 && !Straddles(at, 512, chip)
    requires b.len == 512 < Written(at, 512) <= |b.memory|
    requires r == FlashBlock(FlashState(before, [], INVALID), chip, true, at, b)
    ensures |r.cells| == chip.size && r.cells[at + 512] == b.memory[512]
    ensures r.lastErase == Sector(at, chip.erase) && r.lastErase % chip.erase == 0
      && at + 512 < r.lastErase + chip.erase
  {
    var e := chip.erase;
    SectorBounds(at, e);
    SectorInChip(chip, at);
    NotInvalid(Sector(at, e), chip);
    InsideSector(at, chip);
    SectorIs(at + 511, Sector(at, e), e);
    SpoiledCell(AfterErase(FlashState(before, [], INVALID), chip, at), chip, at, b, r);
  }

  lemma SpoiledCell(st: FlashState, chip: Chip, at: nat, b: Block, r: FlashState)
    requires Known(chip) && |st.cells| == chip.size && at + 512 < chip.size && at % PAGE != 0
    requires b.len == 512 < Written(at, 512) <= |b.memory| && st.cells[at + 512] == 255
    requires r == AfterWrite(st, chip, at, b)
    ensures r.cells[at + 512] == b.memory[512] && r.lastErase == st.lastErase
  {
    AndByte(b.memory[512]);
    WrittenBounds(at, 512, 0);
    WithinChip(chip, at + 512);
    assert b.memory[..Written(at, 512)][512] == b.memory[512];
    assert r.cells == Programmed(st.cells, at, b.memory[..Written(at, 512)]);
  }

  lemma OffBoundary(at: nat)
    requires at % PAGE != 0
    ensures (at + 512) % PAGE != 0 && Left(at) < 512
  {
  }

  lemma HasExcess(at: nat)
    requires at % PAGE != 0
    ensures Written(at, 512) > 512
  {
    OffBoundary(at);
    WrittenExact(at, 512);
  }

  lemma InsideSector(at: nat, chip: Chip)
    requires Known(chip) && at % PAGE != 0 && !Straddles(at, 512, chip)
    ensures at + 512 < Sector(at, chip.erase) + chip.erase
  {
  }

  /**
   * Writing a file works for every file of a size, every flash content and every buffer memory exactly when
   * the first block lies in one sector and the file starts a page or is one block.
   */
  lemma SucceedsExactlyWhen(chip: Chip, at: nat, size: nat)
    requires Known(chip) && at + size <= chip.size
    ensures AlwaysSucceeds(chip, at, size) <==> Suitable(at, size, chip)
  {
    if Suitable(at, size, chip) {
      forall before: seq<Byte>, file: seq<Byte>, blocks: seq<Block> | |file| == size
        ensures Succeeds(before, chip, at, file, blocks)
      {
        if |before| == chip.size && Blocks(file, blocks) && Readable(at, blocks) {
          FileFlashed(before, chip, at, file, blocks);
        }
      }
    } else if Straddles(at, size, chip) {
      if size <= 512 { ShortStraddleFails(chip, at, size); } else { LongStraddleFails(chip, at, size); }
    } else {
      UnalignedFails(chip, at, size);
    }
  }
}
