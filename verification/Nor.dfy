// NOR flash: programming can only clear bits, and erasing sets a whole sector to ones.
module Nor {
  import Numbers

  type Byte = b: nat | b < 256

  // ---------------------------------------------------------------------------------------------
  // Bitwise and of bytes, bit by bit

  function AndBits(a: nat, b: nat, n: nat): nat {
    if n == 0 then 0 else (a % 2) * (b % 2) + 2 * AndBits(a / 2, b / 2, n - 1)
  }

  function Ones(n: nat): nat { if n == 0 then 0 else 1 + 2 * Ones(n - 1) }

  lemma {:induction false} AndBelow(a: nat, b: nat, n: nat)
    ensures AndBits(a, b, n) <= Ones(n)
  {
    if n > 0 { AndBelow(a / 2, b / 2, n - 1); }
  }

  lemma {:induction false} AndSelf(a: nat, n: nat)
    requires a <= Ones(n)
    ensures AndBits(a, a, n) == a
  {
    if n > 0 { AndSelf(a / 2, n - 1); }
  }

  lemma {:induction false} AndOnes(b: nat, n: nat)
    requires b <= Ones(n)
    ensures AndBits(Ones(n), b, n) == b
  {
    if n > 0 {
      OnesParts(n);
      assert b / 2 <= Ones(n - 1);
      AndOnes(b / 2, n - 1);
      LowBit(b, n);
    }
  }

  lemma OnesParts(n: nat)
    requires n > 0
    ensures Ones(n) % 2 == 1 && Ones(n) / 2 == Ones(n - 1)
  {
  }

  lemma LowBit(b: nat, n: nat)
    requires n > 0
    ensures AndBits(Ones(n), b, n) == b % 2 + 2 * AndBits(Ones(n - 1), b / 2, n - 1)
  {
    OnesParts(n);
  }

  lemma OnesByte()
    ensures Ones(8) == 255
  {
    assert Ones(4) == 15;
    assert Ones(6) == 63;
  }

  function And(a: Byte, b: Byte): Byte {
    AndBelow(a, b, 8);
    OnesByte();
    AndBits(a, b, 8)
  }

  /** Programming an erased byte stores it; programming the byte that is there changes nothing. */
  lemma AndByte(b: Byte)
    ensures And(255, b) == b && And(b, b) == b
  {
    OnesByte();
    AndOnes(b, 8);
    AndSelf(b, 8);
  }

  /** Binary digit i of a number. */
  predicate Digit(n: nat, i: nat) { n / Numbers.Pow2(i) % 2 == 1 }

  lemma BothOdd(a: nat, b: nat, rest: nat)
    ensures ((a % 2) * (b % 2) + 2 * rest) % 2 == (if a % 2 == 1 && b % 2 == 1 then 1 else 0)
    ensures ((a % 2) * (b % 2) + 2 * rest) / 2 == rest
  {
    assert a % 2 == 0 || a % 2 == 1;
    assert b % 2 == 0 || b % 2 == 1;
  }

  /** Digit by digit, and is and. */
  lemma {:induction false} AndDigits(a: nat, b: nat, n: nat, i: nat)
    requires i < n
    ensures Digit(AndBits(a, b, n), i) <==> Digit(a, i) && Digit(b, i)
    decreases n
  {
    var r := AndBits(a, b, n);
    BothOdd(a, b, AndBits(a / 2, b / 2, n - 1));
    if i > 0 {
      AndDigits(a / 2, b / 2, n - 1, i - 1);
      Numbers.DivideTwice(a, Numbers.Pow2(i - 1));
      Numbers.DivideTwice(b, Numbers.Pow2(i - 1));
      Numbers.DivideTwice(r, Numbers.Pow2(i - 1));
    }
  }

  /** Programming a byte clears the binary digits that are zero in the data. */
  lemma ProgramsDigits(a: Byte, b: Byte, i: nat)
    requires i < 8
    ensures Digit(And(a, b), i) <==> Digit(a, i) && Digit(b, i)
  {
    AndDigits(a, b, 8, i);
  }

  // ---------------------------------------------------------------------------------------------
  // Contents

  /** Data d programmed at address a. */
  function Programmed(cells: seq<Byte>, a: nat, d: seq<Byte>): (r: seq<Byte>)
    requires a + |d| <= |cells|
    ensures |r| == |cells|
    ensures forall i :: 0 <= i < |cells| ==> r[i] == if a <= i < a + |d| then And(cells[i], d[i - a]) else cells[i]
  {
    seq(|cells|, i requires 0 <= i < |cells| => if a <= i < a + |d| then And(cells[i], d[i - a]) else cells[i])
  }

  /** The n bytes at a erased. */
  function Erased(cells: seq<Byte>, a: nat, n: nat): (r: seq<Byte>)
    requires a + n <= |cells|
    ensures |r| == |cells|
    ensures forall i :: 0 <= i < |cells| ==> r[i] == if a <= i < a + n then 255 else cells[i]
  {
    seq(|cells|, i requires 0 <= i < |cells| => if a <= i < a + n then 255 else cells[i])
  }

  predicate Blank(cells: seq<Byte>, from: nat, to: nat) {
    to <= |cells| && forall i :: from <= i < to ==> cells[i] == 255
  }

  lemma ProgrammedTwice(cells: seq<Byte>, a: nat, d: seq<Byte>, e: seq<Byte>)
    requires a + |d| + |e| <= |cells|
    ensures Programmed(Programmed(cells, a, d), a + |d|, e) == Programmed(cells, a, d + e)
  {
  }

  lemma ProgrammedBlank(cells: seq<Byte>, a: nat, d: seq<Byte>)
    requires a + |d| <= |cells| && Blank(cells, a, a + |d|)
    ensures Programmed(cells, a, d)[a..a + |d|] == d
  {
    forall i | 0 <= i < |d| ensures Programmed(cells, a, d)[a..a + |d|][i] == d[i] { AndByte(d[i]); }
  }

  // ---------------------------------------------------------------------------------------------
  // The device

  /** What the driver sends to the device to change it. */
  datatype Command = Program(adr: nat, data: seq<Byte>) | Erase(sector: nat)

  /** Bytes per page in both chips of the table. */
  const PAGE := 256

  datatype Chip = Chip(size: nat, erase: nat)

  /** M25P64 and M25P128. */
  const CHIPS: seq<Chip> := [Chip(8 * 1024 * 1024, 64 * 1024), Chip(16 * 1024 * 1024, 256 * 1024)]

  predicate Known(chip: Chip) { chip == CHIPS[0] || chip == CHIPS[1] }

  function PageStart(a: nat): nat { a - a % PAGE }

  class Device {
    const chip: Chip
    var cells: seq<Byte>
    /** The commands so far. */
    ghost var log: seq<Command>

    predicate Valid()
      reads this
    {
      Known(chip) && |cells| == chip.size
    }

    constructor (chip: Chip, cells: seq<Byte>)
      requires Known(chip) && |cells| == chip.size
      ensures Valid() && this.chip == chip && this.cells == cells && log == []
    {
      this.chip := chip;
      this.cells := cells;
      log := [];
    }

    /** Page program: past the end of the page the address goes back to its start. */
    method PageProgram(a: nat, d: seq<Byte>)
      requires Valid() && a < chip.size
      modifies this
      ensures Valid() && log == old(log) + [Program(a, d)]
      ensures a % PAGE + |d| <= PAGE ==> a + |d| <= chip.size && cells == Programmed(old(cells), a, d)
    {
      PageFits(chip, a);
      log := log + [Program(a, d)];
      var i := 0;
      while i < |d|
        invariant i <= |d| && |cells| == chip.size && log == old(log) + [Program(a, d)]
        invariant a % PAGE + |d| <= PAGE ==> a + i <= chip.size && cells == Programmed(old(cells), a, d[..i])
      {
        var at := PageStart(a) + (a % PAGE + i) % PAGE;
        cells := cells[at := And(cells[at], d[i])];
        i := i + 1;
      }
      assert d[..i] == d;
    }

    method SectorErase(a: nat)
      requires Valid() && a % chip.erase == 0 && a < chip.size
      modifies this
      ensures Valid() && log == old(log) + [Erase(a)]
      ensures a + chip.erase <= chip.size && cells == Erased(old(cells), a, chip.erase)
    {
      SectorFits(chip, a);
      log := log + [Erase(a)];
      cells := Erased(cells, a, chip.erase);
    }
  }

  lemma PageFits(chip: Chip, a: nat)
    requires Known(chip) && a < chip.size
    ensures PageStart(a) + PAGE <= chip.size
  {
  }

  lemma SectorFits(chip: Chip, a: nat)
    requires Known(chip) && a % chip.erase == 0 && a < chip.size
    ensures a + chip.erase <= chip.size
  {
  }
}
