// The console's scan-out of video memory: counters, and a pipeline that fetches one cell ahead.
module ScanOut {

  const COLUMNS := 160
  const CELL_WIDTH := 12
  const LINE := 1920
  const LINES := 1050

  /** What a cell of video memory gives: character, foreground and background. */
  datatype Cell = Cell(ch: nat, fg: nat, bg: nat)

  /** A row of the font, leftmost pixel first. */
  type Bits = b: seq<bool> | |b| == 16 witness seq(16, _ => false)

  /** Video memory and font do not change during a frame. */
  datatype Screen = Screen(vram: nat -> Cell, font: (nat, nat) -> Bits)

  datatype Regs = Regs(row: nat, col: nat, x: nat, y: nat, addr: nat, data: Cell, bits: Bits, fg: nat, bg: nat)

  /** One cycle of the pixel clock. */
  datatype Cycle = HSync | VSync | Idle | Pixel(py: nat)

  predicate TextLine(py: nat) { py < 16 || py > 25 }

  function Shifted(b: Bits): Bits { b[1..] + [false] }

  // ---------------------------------------------------------------------------------------------
  // The registers after a cycle, in their widths: row 7, col 8, x and y 4, addr 15 bits

  function NextCell(r: Regs): Regs {
    var end := r.col == 159;
    r.(addr := if r.row == 65 && end && r.y != 15 then 0
               else if end && r.y != 15 then (r.addr + 0x8000 - 159) % 0x8000 else (r.addr + 1) % 0x8000,
       row := if end && r.y == 15 then (r.row + 1) % 128 else r.row,
       y := if end then (r.y + 1) % 16 else r.y,
       col := if end then 0 else (r.col + 1) % 256)
  }

  function Clocked(r: Regs, c: Cycle, s: Screen): Regs {
    match c
    case HSync => r.(x := 0, col := 0)
    case VSync => r.(addr := 0, col := 0, row := 0, x := 0, y := 0)
    case Idle => r
    case Pixel(py) =>
      if !TextLine(py) then r
      else
        var moved := if r.x == 5 then NextCell(r) else if r.x == 8 then r.(data := s.vram(r.addr)) else r;
        if r.x == 11 then moved.(bits := s.font(r.data.ch, r.y), fg := r.data.fg, bg := r.data.bg, x := 0)
        else moved.(bits := Shifted(r.bits), x := (r.x + 1) % 16)
  }

  /** The colour put out for a pixel. */
  function Output(r: Regs, py: nat): nat {
    if TextLine(py) then if r.bits[0] then r.fg else r.bg
    else if 19 < py < 22 then 0x777777 else 0
  }

  /** The clocked object. */
  class Console {
    var row: nat
    var col: nat
    var x: nat
    var y: nat
    var addr: nat
    var data: Cell
    var bits: Bits
    var fg: nat
    var bg: nat

    function State(): Regs
      reads this
    {
      Regs(row, col, x, y, addr, data, bits, fg, bg)
    }

    constructor ()
      ensures State() == Regs(0, 0, 0, 0, 0, Cell(0, 0, 0), seq(16, _ => false), 0xFFFFFF, 0)
    {
      row, col, x, y, addr, data, bits, fg, bg := 0, 0, 0, 0, 0, Cell(0, 0, 0), seq(16, _ => false), 0xFFFFFF, 0;
    }

    method Advance(r: Regs)
      requires r == State()
      modifies this`row, this`col, this`y, this`addr
      ensures State() == NextCell(r)
    {
      if r.row == 65 && r.col == 159 && r.y != 15 {
        addr := 0;
      } else if r.col == 159 && r.y != 15 {
        addr := (r.addr + 0x8000 - 159) % 0x8000;
      } else {
        addr := (r.addr + 1) % 0x8000;
      }
      if r.col == 159 {
        if r.y == 15 {
          row := (r.row + 1) % 128;
        }
        y := (r.y + 1) % 16;
        col := 0;
      } else {
        col := (r.col + 1) % 256;
      }
    }

    method Clock(c: Cycle, s: Screen)
      modifies this
      ensures State() == Clocked(old(State()), c, s)
    {
      var r := State();
      match c
      case HSync =>
        x, col := 0, 0;
      case VSync =>
        addr, col, row, x, y := 0, 0, 0, 0, 0;
      case Idle =>
      case Pixel(py) =>
        if TextLine(py) {
          if r.x == 5 {
            Advance(r);
          } else if r.x == 8 {
            data := s.vram(r.addr);
          }
          if r.x == 11 {
            bits, fg, bg, x := s.font(r.data.ch, r.y), r.data.fg, r.data.bg, 0;
          } else {
            bits, x := Shifted(r.bits), (r.x + 1) % 16;
          }
        }
    }
  }

  // ---------------------------------------------------------------------------------------------
  // Where the beam is

  /** Text row, line within the row, cell and pixel within the cell. */
  datatype Beam = Beam(row: nat, y: nat, cell: nat, x: nat)

  predicate OnScreen(p: Beam) { p.row < 65 && p.y < 16 && p.cell < COLUMNS && p.x < CELL_WIDTH }

  function NextBeam(p: Beam): Beam {
    if p.x + 1 < CELL_WIDTH then p.(x := p.x + 1)
    else if p.cell + 1 < COLUMNS then p.(x := 0, cell := p.cell + 1)
    else if p.y + 1 < 16 then Beam(p.row, p.y + 1, 0, 0)
    else Beam(p.row + 1, 0, 0, 0)
  }

  /** The cell that the counters are at: from pixel 6 of a cell on, the next one. */
  function Ahead(p: Beam): Beam { if p.x <= 5 then p else NextBeam(p.(x := CELL_WIDTH - 1)) }

  /** The counters track the beam. */
  predicate Tracks(r: Regs, p: Beam) {
    var a := Ahead(p);
    && r.x == p.x && r.row == a.row && r.col == a.cell && r.y == a.y && r.addr == COLUMNS * r.row + r.col
  }

  function CellAt(s: Screen, p: Beam): Cell { s.vram(COLUMNS * p.row + p.cell) }

  function Blank(n: nat): seq<bool> { seq(n, _ => false) }

  /** The shift register and the colours are those of the cell under the beam. */
  predicate Paints(r: Regs, p: Beam, s: Screen)
    requires p.x <= 12
  {
    var c := CellAt(s, p);
    r.bits == s.font(c.ch, p.y)[p.x..] + Blank(p.x) && r.fg == c.fg && r.bg == c.bg
  }

  /** `loaded` is false only in the first cell of a frame, which was fetched before the frame began. */
  predicate Inv(r: Regs, p: Beam, s: Screen, loaded: bool) {
    && OnScreen(p) && Tracks(r, p) && (p.x >= 9 ==> r.data == s.vram(r.addr)) && (loaded ==> Paints(r, p, s))
  }

  lemma ShiftOne(r: Regs, p: Beam, s: Screen)
    requires p.x < 11 && Paints(r, p, s)
    ensures Shifted(r.bits) == s.font(CellAt(s, p).ch, p.y)[p.x + 1..] + Blank(p.x + 1)
  {
  }

  /** At pixel 5 of a cell the counters go on to the next cell. */
  lemma NextCellTracks(r: Regs, p: Beam)
    requires OnScreen(p) && Tracks(r, p) && p.x == 5
    ensures var r', a := NextCell(r), Ahead(p.(x := 6));
      r'.row == a.row && r'.col == a.cell && r'.y == a.y && r'.addr == COLUMNS * r'.row + r'.col && r'.x == 5
  {
  }

  /** The counters of the next pixel. */
  lemma TracksNext(r: Regs, p: Beam, s: Screen, py: nat)
    requires OnScreen(p) && Tracks(r, p) && TextLine(py)
    ensures Tracks(Clocked(r, Pixel(py), s), NextBeam(p))
  {
    if p.x == 5 {
      NextCellTracks(r, p);
    } else {
      var r' := Clocked(r, Pixel(py), s);
      assert r'.row == r.row && r'.col == r.col && r'.y == r.y && r'.addr == r.addr;
      if p.x == 11 {
        assert NextBeam(p) == Ahead(p);
      } else if p.x > 5 {
        assert Ahead(NextBeam(p)) == Ahead(p);
      }
    }
  }

  lemma FetchNext(r: Regs, p: Beam, s: Screen, py: nat)
    requires OnScreen(p) && Tracks(r, p) && TextLine(py) && (p.x >= 9 ==> r.data == s.vram(r.addr))
    ensures var r' := Clocked(r, Pixel(py), s); NextBeam(p).x >= 9 ==> r'.data == s.vram(r'.addr)
  {
  }

  /** Within a cell the register shifts; at its end the next cell is loaded. */
  lemma PaintsNext(r: Regs, p: Beam, s: Screen, py: nat)
    requires OnScreen(p) && Tracks(r, p) && TextLine(py) && (p.x >= 9 ==> r.data == s.vram(r.addr))
    requires p.x == 11 || Paints(r, p, s)
    ensures Paints(Clocked(r, Pixel(py), s), NextBeam(p), s)
  {
    if p.x < 11 {
      ShiftOne(r, p, s);
    } else {
      assert s.font(r.data.ch, r.y)[0..] + Blank(0) == s.font(r.data.ch, r.y);
    }
  }

  /** A text pixel. */
  lemma PixelStep(r: Regs, p: Beam, s: Screen, loaded: bool, py: nat)
    requires Inv(r, p, s, loaded) && TextLine(py)
    ensures var r' := Clocked(r, Pixel(py), s);
      var q := NextBeam(p);
      && Tracks(r', q) && (q.x >= 9 ==> r'.data == s.vram(r'.addr)) && (loaded || p.x == 11 ==> Paints(r', q, s))
  {
    TracksNext(r, p, s, py);
    FetchNext(r, p, s, py);
    if loaded || p.x == 11 { PaintsNext(r, p, s, py); }
  }

  // ---------------------------------------------------------------------------------------------
  // Lines and frames

  /** After n pixels of line py. */
  function Pixels(r: Regs, py: nat, n: nat, s: Screen): Regs {
    if n == 0 then r else Clocked(Pixels(r, py, n - 1, s), Pixel(py), s)
  }

  /** The cycles between two lines: any number of idle and sync cycles. */
  predicate Between(blank: seq<Cycle>) { forall i :: 0 <= i < |blank| ==> blank[i].HSync? || blank[i].Idle? }

  function Blanking(r: Regs, blank: seq<Cycle>, s: Screen): Regs
    decreases |blank|
  {
    if blank == [] then r else Blanking(Clocked(r, blank[0], s), blank[1..], s)
  }

  /** After the first n lines, each followed by its blanking. */
  function Lines(r: Regs, n: nat, blanks: seq<seq<Cycle>>, s: Screen): Regs
    requires n <= |blanks|
  {
    if n == 0 then r else Blanking(Pixels(Lines(r, n - 1, blanks, s), n - 1, LINE, s), blanks[n - 1], s)
  }

  /** The text line that screen line py is, for py a text line: its row and its line within the row. */
  function RowOf(py: nat): nat { if py < 16 then 0 else if py < 26 then 1 else 1 + (py - 26) / 16 }
  function LineOf(py: nat): nat { if py < 16 then py else if py < 26 then 0 else (py - 26) % 16 }

  function BeamAt(py: nat, px: nat): Beam { Beam(RowOf(py), LineOf(py), px / CELL_WIDTH, px % CELL_WIDTH) }

  lemma BeamMoves(py: nat, px: nat)
    requires py < LINES && px < LINE && TextLine(py)
    ensures OnScreen(BeamAt(py, px))
    ensures NextBeam(BeamAt(py, px)) == if px + 1 < LINE then BeamAt(py, px + 1) else BeamAt(py + 1, 0)
  {
  }

  /** The first cell of line 0 is the one exception. */
  predicate Loaded(py: nat, px: nat) { py > 0 || px >= CELL_WIDTH }

  /** After n pixels of line py; after the last one, at the start of the next line. */
  predicate LineInv(r: Regs, py: nat, n: nat, s: Screen) {
    if n < LINE then Inv(r, BeamAt(py, n), s, Loaded(py, n))
    else Tracks(r, BeamAt(py + 1, 0)) && Paints(r, BeamAt(py + 1, 0), s)
  }

  /** One pixel of line py. */
  lemma LineStep(r: Regs, py: nat, n: nat, s: Screen, r': Regs)
    requires py < LINES && TextLine(py) && n < LINE && LineInv(r, py, n, s) && r' == Clocked(r, Pixel(py), s)
    ensures LineInv(r', py, n + 1, s)
  {
    BeamMoves(py, n);
    PixelStep(r, BeamAt(py, n), s, Loaded(py, n), py);
    LoadedNext(py, n);
    if n + 1 < LINE { BeamMoves(py, n + 1); }
  }

  lemma LoadedNext(py: nat, n: nat)
    requires n < LINE
    ensures Loaded(py, n + 1) ==> Loaded(py, n) || n % CELL_WIDTH == 11
    ensures n + 1 == LINE ==> n % CELL_WIDTH == 11
  {
  }

  /** Within a text line. */
  lemma {:induction false} LineTracks(r: Regs, py: nat, n: nat, s: Screen)
    requires py < LINES && TextLine(py) && n <= LINE && LineInv(r, py, 0, s)
    ensures LineInv(Pixels(r, py, n, s), py, n, s)
    decreases n
  {
    if n > 0 {
      LineTracks(r, py, n - 1, s);
      LineStep(Pixels(r, py, n - 1, s), py, n - 1, s, Pixels(r, py, n, s));
    }
  }

  lemma {:induction false} BlankingKeeps(r: Regs, blank: seq<Cycle>, s: Screen)
    requires Between(blank) && r.x == 0 && r.col == 0
    ensures Blanking(r, blank, s) == r
    decreases |blank|
  {
    if blank != [] { BlankingKeeps(r, blank[1..], s); }
  }

  lemma {:induction false} BorderKeeps(r: Regs, py: nat, n: nat, s: Screen)
    requires !TextLine(py)
    ensures Pixels(r, py, n, s) == r
  {
    if n > 0 { BorderKeeps(r, py, n - 1, s); }
  }

  /** The registers when a vertical sync has ended: all counters are zero, whatever the pipeline holds. */
  predicate FrameStart(r: Regs) { r.row == 0 && r.col == 0 && r.x == 0 && r.y == 0 && r.addr == 0 }

  predicate AllBetween(blanks: seq<seq<Cycle>>) { forall i :: 0 <= i < |blanks| ==> Between(blanks[i]) }

  /** At the start of every line the counters are at its first cell, which is already in the shift register. */
  lemma {:induction false} FrameTracks(r: Regs, n: nat, blanks: seq<seq<Cycle>>, s: Screen)
    requires FrameStart(r) && n <= |blanks| && n < LINES && AllBetween(blanks)
    ensures Tracks(Lines(r, n, blanks, s), BeamAt(n, 0))
    ensures n > 0 ==> Paints(Lines(r, n, blanks, s), BeamAt(n, 0), s)
    decreases n
  {
    if n > 0 {
      var before := Lines(r, n - 1, blanks, s);
      FrameTracks(r, n - 1, blanks, s);
      if TextLine(n - 1) {
        BeamMoves(n - 1, 0);
        LineTracks(before, n - 1, LINE, s);
      } else {
        BorderKeeps(before, n - 1, LINE, s);
        assert BeamAt(n - 1, 0) == BeamAt(n, 0);
      }
      BlankingKeeps(Pixels(before, n - 1, LINE, s), blanks[n - 1], s);
    }
  }

  /** The colour a pixel should have: the bit of the font row of its cell chooses between the cell's two. */
  function Expected(s: Screen, p: Beam): nat
    requires p.x < CELL_WIDTH
  {
    var c := CellAt(s, p);
    if s.font(c.ch, p.y)[p.x] then c.fg else c.bg
  }

  lemma PaintOutput(r: Regs, p: Beam, s: Screen, py: nat)
    requires p.x < CELL_WIDTH && Paints(r, p, s) && TextLine(py)
    ensures Output(r, py) == Expected(s, p)
  {
  }

  lemma FramePixel(r: Regs, blanks: seq<seq<Cycle>>, s: Screen, py: nat, px: nat)
    requires FrameStart(r) && py < LINES && px < LINE && py <= |blanks| && AllBetween(blanks) && TextLine(py)
    ensures Inv(Pixels(Lines(r, py, blanks, s), py, px, s), BeamAt(py, px), s, Loaded(py, px))
  {
    FrameTracks(r, py, blanks, s);
    BeamMoves(py, 0);
    LineTracks(Lines(r, py, blanks, s), py, px, s);
  }

  /**
   * Over every frame, whatever the blanking: at every pixel of a text line the memory address is that of the
   * row and column counters, and the pixel shown is the one of the font row of the cell there, in the
   * colours of that cell; all but those of the first cell of the first line.
   */
  lemma Frame(r: Regs, blanks: seq<seq<Cycle>>, s: Screen, py: nat, px: nat, now: Regs)
    requires FrameStart(r) && py < LINES && px < LINE && py <= |blanks| && AllBetween(blanks) && TextLine(py)
    requires now == Pixels(Lines(r, py, blanks, s), py, px, s)
    ensures now.addr == COLUMNS * now.row + now.col
    ensures Loaded(py, px) ==> Output(now, py) == Expected(s, BeamAt(py, px))
  {
    FramePixel(r, blanks, s, py, px);
    if Loaded(py, px) { PaintOutput(now, BeamAt(py, px), s, py); }
  }

  /** The twelve pixels of the first cell show what the shift register held when the frame began. */
  lemma {:induction false} FirstCellIsStale(r: Regs, s: Screen, px: nat)
    requires FrameStart(r) && px < CELL_WIDTH
    ensures var now := Pixels(r, 0, px, s);
      && now.bits == r.bits[px..] + Blank(px) && now.fg == r.fg && now.bg == r.bg && now.x == px
      && Output(now, 0) == if r.bits[px] then r.fg else r.bg
    decreases px
  {
    if px > 0 { FirstCellIsStale(r, s, px - 1); }
  }

  /** Between the text and the status line the screen is black, with a grey rule of two lines. */
  lemma BandColour(r: Regs, py: nat)
    requires 16 <= py <= 25
    ensures Output(r, py) == if py == 20 || py == 21 then 0x777777 else 0
  {
  }
}
