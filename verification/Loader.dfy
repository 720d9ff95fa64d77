// The TFTP loader: what each received block does, and what comparing and saving a whole range gives.
module Loader {
  import opened Nor
  import opened SpiFlash
  import opened Transfer

  datatype Result = Ok | BufferTooSmall | CompareFail | InProgress | Failed | Internal
  datatype Kind = Ram | Flash | Compare | Save

  // ---------------------------------------------------------------------------------------------
  // Comparing

  /** Where data first differs from the cells at a, or its length. */
  function Difference(cells: seq<Byte>, a: nat, data: seq<Byte>): (d: nat)
    requires a + |data| <= |cells|
    ensures d <= |data|
    decreases |data|
  {
    if data == [] || cells[a] != data[0] then 0 else 1 + Difference(cells, a + 1, data[1..])
  }

  predicate SameUpTo(cells: seq<Byte>, a: nat, data: seq<Byte>, d: nat)
    requires d <= |data| && a + |data| <= |cells|
  {
    forall i :: 0 <= i < d ==> cells[a + i] == data[i]
  }

  /** The difference is the only place with nothing but equal bytes before it and unequal ones at it, or the end. */
  lemma {:induction false} DifferenceIs(cells: seq<Byte>, a: nat, data: seq<Byte>, d: nat)
    requires a + |data| <= |cells| && d <= |data|
    ensures Difference(cells, a, data) == d <==>
      SameUpTo(cells, a, data, d) && (d < |data| ==> cells[a + d] != data[d])
    decreases |data|
  {
    if data != [] && cells[a] == data[0] {
      if d > 0 {
        DifferenceIs(cells, a + 1, data[1..], d - 1);
        SameTail(cells, a, data, d);
      }
    } else if d > 0 {
      assert !(cells[a + 0] == data[0]);
    }
  }

  lemma SameTail(cells: seq<Byte>, a: nat, data: seq<Byte>, d: nat)
    requires 0 < d <= |data| && a + |data| <= |cells| && cells[a] == data[0]
    ensures SameUpTo(cells, a, data, d) <==> SameUpTo(cells, a + 1, data[1..], d - 1)
  {
    if SameUpTo(cells, a + 1, data[1..], d - 1) {
      forall i | 0 <= i < d ensures cells[a + i] == data[i] {
        if i > 0 { assert cells[a + 1 + (i - 1)] == data[1..][i - 1]; }
      }
    }
    if SameUpTo(cells, a, data, d) {
      forall i | 0 <= i < d - 1 ensures cells[a + 1 + i] == data[1..][i] { assert cells[a + (i + 1)] == data[i + 1]; }
    }
  }

  datatype Progress = Progress(transferred: nat, error: Result)

  /** One block compared: the transfer goes on, or stops at the first byte that differs. */
  function CompareBlock(cells: seq<Byte>, at: nat, p: Progress, maxBytes: nat, b: Block): Progress
    requires b.len <= |b.memory| && at + p.transferred + b.len <= |cells|
  {
    var a := at + p.transferred;
    if b.len == 0 then p
    else if b.len > maxBytes then p.(error := BufferTooSmall)
    else
      var d := Difference(cells, a, Payload(b));
      if d < b.len then Progress(p.transferred + d, CompareFail) else p.(transferred := p.transferred + b.len)
  }

  /** The blocks up to the end or the first error. */
  function CompareBlocks(cells: seq<Byte>, at: nat, p: Progress, maxBytes: nat, rest: seq<Byte>,
      blocks: seq<Block>): Progress
    requires Blocks(rest, blocks) && at + p.transferred + |rest| <= |cells|
    decreases |blocks|
  {
    var q := CompareBlock(cells, at, p, maxBytes, blocks[0]);
    if q.error != InProgress || |rest| < 512 then q else CompareBlocks(cells, at, q, maxBytes, rest[512..], blocks[1..])
  }

  /** Comparing piece by piece. */
  lemma {:induction false} NextDifference(cells: seq<Byte>, a: nat, data: seq<Byte>, n: nat)
    requires a + |data| <= |cells| && n <= |data|
    ensures var d := Difference(cells, a, data[..n]);
      Difference(cells, a, data) == if d < n then d else n + Difference(cells, a + n, data[n..])
    decreases n
  {
    if n == 0 {
      assert data[0..] == data;
    } else if cells[a] == data[0] {
      NextDifference(cells, a + 1, data[1..], n - 1);
      assert data[1..][..n - 1] == data[..n][1..] && data[1..][n - 1..] == data[n..];
    }
  }

  /** Comparing a file goes through exactly when the range holds it, and else stops at the first byte that differs. */
  lemma {:induction false} CompareFile(cells: seq<Byte>, at: nat, p: Progress, maxBytes: nat, rest: seq<Byte>,
      blocks: seq<Block>)
    requires Blocks(rest, blocks) && at + p.transferred + |rest| <= |cells| && maxBytes >= 512 && p.error == InProgress
    ensures var d := Difference(cells, at + p.transferred, rest);
      CompareBlocks(cells, at, p, maxBytes, rest, blocks) ==
        Progress(p.transferred + d, if d < |rest| then CompareFail else InProgress)
    decreases |blocks|
  {
    var q := CompareBlock(cells, at, p, maxBytes, blocks[0]);
    NextDifference(cells, at + p.transferred, rest, blocks[0].len);
    if q.error == InProgress && |rest| >= 512 {
      CompareFile(cells, at, q, maxBytes, rest[512..], blocks[1..]);
    }
  }

  lemma NoDifference(cells: seq<Byte>, a: nat, file: seq<Byte>)
    requires a + |file| <= |cells|
    ensures Difference(cells, a, file) == |file| <==> cells[a..a + |file|] == file
  {
    DifferenceIs(cells, a, file, |file|);
    if SameUpTo(cells, a, file, |file|) { assert cells[a..a + |file|] == file; }
    if cells[a..a + |file|] == file {
      forall i | 0 <= i < |file| ensures cells[a + i] == file[i] { assert cells[a..a + |file|][i] == file[i]; }
    }
  }

  /** A file that has just been written compares without a difference. */
  lemma FlashThenCompare(before: seq<Byte>, chip: Chip, at: nat, file: seq<Byte>, sent: seq<Block>,
      compared: seq<Block>, maxBytes: nat)
    requires Known(chip) && |before| == chip.size && at + |file| <= chip.size
    requires Suitable(at, |file|, chip)
    requires Blocks(file, sent) && Readable(at, sent) && Blocks(file, compared) && maxBytes >= 512
    ensures var st := FlashBlocks(FlashState(before, [], INVALID), chip, true, at, sent);
      CompareBlocks(st.cells, at, Progress(0, InProgress), maxBytes, file, compared) == Progress(|file|, InProgress)
  {
    var st := FlashBlocks(FlashState(before, [], INVALID), chip, true, at, sent);
    FileFlashed(before, chip, at, file, sent);
    CompareFile(st.cells, at, Progress(0, InProgress), maxBytes, file, compared);
    NoDifference(st.cells, at, file);
  }

  // ---------------------------------------------------------------------------------------------
  // Saving

  /** The bytes of the next block sent: at most len, and no more than are left of the range. */
  function SaveBlock(cells: seq<Byte>, at: nat, sendLen: nat, transferred: nat, len: nat): seq<Byte>
    requires at + sendLen <= |cells| && transferred <= sendLen
  {
    var n := if transferred + len > sendLen then sendLen - transferred else len;
    cells[at + transferred..at + transferred + n]
  }

  /** All that is sent, in blocks of 512 bytes up to one that is shorter. */
  function SaveBlocks(cells: seq<Byte>, at: nat, sendLen: nat, transferred: nat): seq<Byte>
    requires at + sendLen <= |cells| && transferred <= sendLen
    decreases sendLen - transferred
  {
    var block := SaveBlock(cells, at, sendLen, transferred, 512);
    if |block| < 512 then block else block + SaveBlocks(cells, at, sendLen, transferred + 512)
  }

  lemma {:induction false} SaveRange(cells: seq<Byte>, at: nat, sendLen: nat, transferred: nat)
    requires at + sendLen <= |cells| && transferred <= sendLen
    ensures SaveBlocks(cells, at, sendLen, transferred) == cells[at + transferred..at + sendLen]
    decreases sendLen - transferred
  {
    if |SaveBlock(cells, at, sendLen, transferred, 512)| == 512 {
      SaveRange(cells, at, sendLen, transferred + 512);
    }
  }

  /** A file that has just been written is what is saved from its range. */
  lemma FlashThenSave(before: seq<Byte>, chip: Chip, at: nat, file: seq<Byte>, sent: seq<Block>)
    requires Known(chip) && |before| == chip.size && at + |file| <= chip.size
    requires Suitable(at, |file|, chip)
    requires Blocks(file, sent) && Readable(at, sent)
    ensures var st := FlashBlocks(FlashState(before, [], INVALID), chip, true, at, sent);
      SaveBlocks(st.cells, at, |file|, 0) == file
  {
    var st := FlashBlocks(FlashState(before, [], INVALID), chip, true, at, sent);
    FileFlashed(before, chip, at, file, sent);
    SaveRange(st.cells, at, |file|, 0);
    assert st.cells[at..at + |file|] == file;
  }

  // ---------------------------------------------------------------------------------------------
  // Copying to memory

  datatype RamState = RamState(ram: seq<Byte>, transferred: nat, error: Result)

  /** One block: copied behind the bytes so far, if it fits. */
  function RamBlock(s: RamState, b: Block): RamState
    requires b.len <= |b.memory|
  {
    if b.len == 0 then s
    else if s.transferred + b.len > |s.ram| then s.(error := BufferTooSmall)
    else s.(ram := Copied(s.ram, s.transferred, Payload(b)), transferred := s.transferred + b.len)
  }

  /** The blocks up to the end or the first error. */
  function RamBlocks(s: RamState, rest: seq<Byte>, blocks: seq<Block>): RamState
    requires Blocks(rest, blocks)
    decreases |blocks|
  {
    var r := RamBlock(s, blocks[0]);
    if r.error != InProgress || |rest| < 512 then r else RamBlocks(r, rest[512..], blocks[1..])
  }

  lemma CopiedTwice(ram: seq<Byte>, to: nat, a: seq<Byte>, b: seq<Byte>)
    requires to + |a| + |b| <= |ram|
    ensures Copied(Copied(ram, to, a), to + |a|, b) == Copied(ram, to, a + b)
  {
  }

  /** A file goes to memory byte for byte exactly when it fits there, and what is behind it stays. */
  lemma {:induction false} FileCopied(s: RamState, rest: seq<Byte>, blocks: seq<Block>)
    requires Blocks(rest, blocks) && s.error == InProgress && s.transferred <= |s.ram|
    ensures var r := RamBlocks(s, rest, blocks);
      if s.transferred + |rest| <= |s.ram| then
        r == RamState(Copied(s.ram, s.transferred, rest), s.transferred + |rest|, InProgress)
      else r.error == BufferTooSmall
    decreases |blocks|
  {
    var b := blocks[0];
    var r := RamBlock(s, b);
    if |rest| < 512 {
      assert Payload(b) == rest;
    } else if r.error == InProgress {
      FileCopied(r, rest[512..], blocks[1..]);
      if s.transferred + |rest| <= |s.ram| {
        CopiedTwice(s.ram, s.transferred, rest[..512], rest[512..]);
        assert rest[..512] + rest[512..] == rest;
      }
    }
  }

  // ---------------------------------------------------------------------------------------------
  // The loader itself

  /** The memory after len bytes are copied to offset `to`. */
  function Copied(ram: seq<Byte>, to: nat, data: seq<Byte>): (r: seq<Byte>)
    requires to + |data| <= |ram|
    ensures |r| == |ram| && forall i :: 0 <= i < |r| ==> r[i] == if to <= i < to + |data| then data[i - to] else ram[i]
  {
    ram[..to] + data + ram[to + |data|..]
  }

  class TftpLoader {
    const kind: Kind
    const flashAdr: nat
    const maxBytes: nat
    const sendLen: nat
    const autoErase: bool
    const dev: Device
    var transferred: nat
    var lastErase: nat
    var error: Result
    var ram: seq<Byte>

    ghost predicate Valid()
      reads this, dev
    {
      dev.Valid() && |ram| == maxBytes
    }

    ghost function FlashView(): FlashState
      reads this, dev
    {
      FlashState(dev.cells, dev.log, lastErase)
    }

    function ProgressView(): Progress
      reads this
    {
      Progress(transferred, error)
    }

    function RamView(): RamState
      reads this
    {
      RamState(ram, transferred, error)
    }

    constructor (kind: Kind, flashAdr: nat, ram: seq<Byte>, sendLen: nat, autoErase: bool, dev: Device)
      requires dev.Valid()
      ensures Valid() && this.kind == kind && this.flashAdr == flashAdr && this.maxBytes == |ram| && this.ram == ram
      ensures this.sendLen == sendLen && this.autoErase == autoErase && this.dev == dev
      ensures ProgressView() == Progress(0, InProgress) && lastErase == INVALID
    {
      this.kind, this.flashAdr, this.maxBytes, this.ram := kind, flashAdr, |ram|, ram;
      this.sendLen, this.autoErase, this.dev := sendLen, autoErase, dev;
      transferred, lastErase, error := 0, INVALID, InProgress;
    }

    /** One buffer in flash mode: erase the next sector when the buffer ends in a new one, then write. */
    method FlashOne(a: nat, b: Block)
      requires Valid() && b.len > 0 && a + b.len < WORD32 && |b.memory| >= Written(a, b.len)
      modifies this`lastErase, dev
      ensures Valid() && FlashView() == FlashBlock(old(FlashView()), dev.chip, autoErase, a, b)
    {
      var erase := dev.chip.erase;
      var last := a + b.len - 1;
      if autoErase && lastErase != last - last % erase {
        lastErase := if lastErase == INVALID then a - a % erase else lastErase + erase;
        var _ := EraseSector(dev, lastErase);
      }
      var _ := SpiFlash.Write(dev, a, b.memory, b.len);
    }

    /** Advances to the first byte that differs. */
    method Advance(read: seq<Byte>, payload: seq<Byte>, ghost a: nat)
      requires dev.Valid() && a + |payload| <= |dev.cells| && read == dev.cells[a..a + |payload|] && read != payload
      modifies this`transferred
      ensures var d := Difference(dev.cells, a, payload); d < |payload| && transferred == old(transferred) + d
    {
      var i := 0;
      while i < |payload| && read[i] == payload[i]
        invariant i <= |payload| && SameUpTo(dev.cells, a, payload, i) && transferred == old(transferred) + i
      {
        transferred := transferred + 1;
        i := i + 1;
      }
      DifferenceIs(dev.cells, a, payload, i);
      NoDifference(dev.cells, a, payload);
    }

    /** One buffer in compare mode: read into memory, and find the first difference if there is one. */
    method CompareOne(a: nat, b: Block)
      requires Valid() && b.len <= |b.memory| && 0 < b.len && a + b.len <= dev.chip.size && a == flashAdr + transferred
      requires error == InProgress
      modifies this`ram, this`transferred, this`error
      ensures Valid()
      ensures var r := CompareBlock(dev.cells, flashAdr, old(ProgressView()), maxBytes, b);
        ProgressView() == if r.error == InProgress then old(ProgressView()) else r
    {
      if b.len > maxBytes {
        error := BufferTooSmall;
        return;
      }
      var read := SpiFlash.Read(dev, a, b.len);
      ram := Copied(ram, 0, read);
      if read != Payload(b) {
        Advance(read, Payload(b), a);
        error := CompareFail;
      } else {
        NoDifference(dev.cells, a, Payload(b));
      }
    }

    /** One buffer in memory mode: copied, unless the whole packet would not fit. */
    method CopyOne(total: nat, b: Block)
      requires Valid() && b.len <= |b.memory| && b.len <= total && error == InProgress
      modifies this`ram, this`error
      ensures Valid()
      ensures if transferred + total > maxBytes then error == BufferTooSmall && ram == old(ram)
              else error == InProgress && ram == Copied(old(ram), transferred, Payload(b))
    {
      if transferred + total > maxBytes {
        error := BufferTooSmall;
      } else {
        ram := Copied(ram, transferred, Payload(b));
      }
    }

    /** tftp_write for a packet in one buffer. */
    method Receive(b: Block) returns (ret: int)
      requires Valid() && b.len <= |b.memory| && error == InProgress
      requires flashAdr + transferred + b.len < WORD32 && |b.memory| >= Written(flashAdr + transferred, b.len)
      requires kind.Compare? ==> flashAdr + transferred + b.len <= dev.chip.size
      modifies this, dev
      ensures Valid() && (ret == 0 <==> error == InProgress) && (ret == 0 || ret == -1)
      ensures kind.Flash? ==>
        ret == 0 && transferred == old(transferred) + b.len && ram == old(ram)
        && FlashView() == FlashBlock(old(FlashView()), dev.chip, autoErase, flashAdr + old(transferred), b)
      ensures kind.Compare? ==>
        && ProgressView() == CompareBlock(dev.cells, flashAdr, old(ProgressView()), maxBytes, b)
        && FlashView() == old(FlashView())
      ensures kind.Ram? ==> FlashView() == old(FlashView()) && RamView() == RamBlock(old(RamView()), b)
    {
      ret := 0;
      if b.len == 0 {
        return;
      }
      match kind {
        case Ram => CopyOne(b.len, b);
        case Flash => FlashOne(flashAdr + transferred, b);
        case Compare => CompareOne(flashAdr + transferred, b);
        case Save => error := Internal;
      }
      if error != InProgress {
        ret := -1;
      } else {
        transferred := transferred + b.len;
      }
    }

    /** tftp_read: the next bytes of the range, or an error when this is not a save. */
    method Send(len: nat) returns (ret: int, block: seq<Byte>)
      requires Valid() && flashAdr + sendLen <= dev.chip.size && transferred <= sendLen
      modifies this`transferred
      ensures Valid()
      ensures !kind.Save? ==> ret == -1 && transferred == old(transferred)
      ensures kind.Save? ==>
        && block == SaveBlock(dev.cells, flashAdr, sendLen, old(transferred), len)
        && ret == |block| && transferred == old(transferred) + |block|
    {
      if !kind.Save? {
        return -1, [];
      }
      var n := if transferred + len > sendLen then sendLen - transferred else len;
      block := SpiFlash.Read(dev, flashAdr + transferred, n);
      transferred := transferred + n;
      ret := n;
    }

    method Close()
      modifies this`error
      ensures error == if old(error) == InProgress then Ok else old(error)
    {
      if error == InProgress {
        error := Ok;
      }
    }
  }
}
