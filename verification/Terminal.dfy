// The text screen: characters, newlines, tabs and scrolling on video memory refine a growing document.
module Terminal {

  const WIDTH := 160
  const HEIGHT := 64
  const CELLS := 10240
  const TAB_STOP := 4

  /** A cell of video memory: background and foreground colour, and the character. */
  type Cell = nat

  const BLACK := 0x000000
  const GREY := 0x777777

  function Colored(back: nat, front: nat, ch: nat): Cell { back * 0x100_0000_0000 + front * 0x100 + ch }

  /** A character as it is put on the screen, and the two kinds of blank: from start-up and from clearing. */
  function Glyph(ch: nat): Cell { Colored(BLACK, GREY, ch) }
  const FILL: Cell := GREY * 0x100 + 0x20
  const CLEARED: Cell := 0x20
  const CURSOR: Cell := GREY * 0x100 + 0x5F

  function Repeat(c: Cell, n: nat): (s: seq<Cell>)
    ensures |s| == n && forall i :: 0 <= i < n ==> s[i] == c
  {
    seq(n, _ => c)
  }

  // ---------------------------------------------------------------------------------------------
  // The document

  /** All lines so far, one after the other, WIDTH cells each; and the place where the next character goes. */
  datatype Doc = Doc(text: seq<Cell>, row: nat, col: nat)

  /** The line is one of the last HEIGHT. The column can be one too far, on all of these but the last. */
  predicate DocOk(d: Doc) {
    && |d.text| % WIDTH == 0 && |d.text| >= CELLS && d.col <= WIDTH
    && WIDTH * d.row + WIDTH + (if d.col == WIDTH then WIDTH else 0) <= |d.text| <= WIDTH * d.row + CELLS
  }

  function Place(d: Doc): nat { WIDTH * d.row + d.col }

  function StartDoc(): Doc { Doc(Repeat(FILL, CELLS), 0, 0) }

  /** One character; the last column is overwritten when the line is full. */
  function Put(d: Doc, ch: nat): Doc
    requires DocOk(d)
  {
    Doc(d.text[Place(d) := Glyph(ch)], d.row, if d.col + 1 < WIDTH then d.col + 1 else WIDTH - 1)
  }

  lemma PutOk(d: Doc, ch: nat)
    requires DocOk(d)
    ensures DocOk(Put(d, ch))
  {
  }

  function PutSpaces(d: Doc, n: nat): (r: Doc)
    requires DocOk(d)
    ensures DocOk(r)
    decreases n
  {
    if n == 0 then d else
      PutOk(d, 0x20);
      PutSpaces(Put(d, 0x20), n - 1)
  }

  /** The next line; below the last one, a new blank line. */
  function NewLine(d: Doc): Doc
    requires DocOk(d)
  {
    Doc(if WIDTH * (d.row + 2) > |d.text| then d.text + Repeat(CLEARED, WIDTH) else d.text, d.row + 1, 0)
  }

  lemma NewLineOk(d: Doc)
    requires DocOk(d)
    ensures DocOk(NewLine(d))
  {
  }

  /**
   * Backspace: to the left; from the start of a line to the line above, as far as that is on the screen,
   * and there one column too far.
   */
  function Back(d: Doc): (r: Doc)
    requires DocOk(d)
    ensures DocOk(r)
  {
    if d.col > 0 then d.(col := d.col - 1)
    else Doc(d.text, if |d.text| < WIDTH * d.row + CELLS then d.row - 1 else d.row, WIDTH)
  }

  /** The bytes of the text fragment: no escape. */
  predicate IsText(b: nat) { b < 256 && b != 0x1B }

  function Apply(d: Doc, b: nat): (r: Doc)
    requires DocOk(d) && IsText(b)
    ensures DocOk(r)
  {
    PutOk(d, b);
    NewLineOk(d);
    if b == 0x05 || b == 0x07 then d
    else if b == 0x0A then NewLine(d)
    else if b == 0x0D then d.(col := 0)
    else if b == 0x08 then Back(d)
    else if b == 0x7F then
      PutOk(d, 0x20);
      Back(Put(d, 0x20))
    else if b == 0x09 then PutSpaces(d, TAB_STOP - d.col % TAB_STOP)
    else Put(d, b)
  }

  predicate AllText(bytes: seq<nat>) { forall i :: 0 <= i < |bytes| ==> IsText(bytes[i]) }

  function ApplyAll(d: Doc, bytes: seq<nat>): (r: Doc)
    requires DocOk(d) && AllText(bytes)
    ensures DocOk(r)
    decreases |bytes|
  {
    if bytes == [] then d else Apply(ApplyAll(d, bytes[..|bytes| - 1]), bytes[|bytes| - 1])
  }

  /** What of the document is on the screen: the last HEIGHT lines. */
  function Shown(d: Doc): (s: seq<Cell>)
    requires DocOk(d)
    ensures |s| == CELLS
  {
    d.text[|d.text| - CELLS..]
  }

  /** The cursor on the screen, as an offset into it. */
  function ScreenPlace(d: Doc): (p: nat)
    requires DocOk(d)
    ensures p < CELLS
  {
    Place(d) - (|d.text| - CELLS)
  }

  /** The column after a move that leads to column n, which may be off the line. */
  function NewColumn(n: int): nat {
    if n >= WIDTH then WIDTH - 1 else if n < 0 then WIDTH - (-n) % WIDTH + 1 else n
  }

  // ---------------------------------------------------------------------------------------------
  // The terminal

  class Vt100 {
    const vram: array<Cell>
    var cursorX: nat
    var cursorY: nat
    /** The cell the cursor hides, or 0 when no cursor is drawn. */
    var charUnderCursor: Cell
    const scrollEnd: nat := HEIGHT

    function At(): nat
      reads this
    {
      cursorY * WIDTH + cursorX
    }

    /** The screen with the cursor lifted. */
    function Lifted(): seq<Cell>
      reads this, vram
      requires vram.Length == CELLS && At() < CELLS
    {
      if charUnderCursor != 0 then vram[..][At() := charUnderCursor] else vram[..]
    }

    predicate Valid()
      reads this
    {
      vram.Length == CELLS && cursorX <= WIDTH && cursorY + (if cursorX == WIDTH then 1 else 0) < HEIGHT
    }

    /** The screen shows the end of the document, and the cursor is at its place. */
    predicate Shows(d: Doc)
      reads this, vram
    {
      Valid() && DocOk(d) && Lifted() == Shown(d) && cursorX == d.col && At() == ScreenPlace(d)
    }

    constructor ()
      ensures Valid() && fresh(vram) && charUnderCursor == 0 && Shows(StartDoc())
    {
      vram := new Cell[CELLS](_ => FILL);
      cursorX, cursorY, charUnderCursor := 0, 0, 0;
      new;
      assert vram[..] == Repeat(FILL, CELLS);
      assert Shown(StartDoc()) == Repeat(FILL, CELLS);
    }

    /** Lines from first to last, both included. */
    method ClearLines(first: nat, last: nat)
      requires vram.Length == CELLS && first <= last < HEIGHT
      modifies vram
      ensures vram[..] ==
        old(vram[..WIDTH * first]) + Repeat(CLEARED, WIDTH * (last - first + 1)) + old(vram[WIDTH * (last + 1)..])
    {
      var len: nat := (last - first + 1) * WIDTH;
      var start := first * WIDTH;
      var p := start;
      ghost var end := start + len;
      while len > 0
        invariant p + len == end && start <= p
        invariant forall k :: 0 <= k < CELLS ==> vram[k] == if start <= k < p then CLEARED else old(vram[k])
      {
        var i := 0;
        ghost var len0 := len;
        while i < WIDTH && len > 0
          invariant p + len == end && start <= p && i <= WIDTH && len + i == len0
          invariant forall k :: 0 <= k < CELLS ==> vram[k] == if start <= k < p then CLEARED else old(vram[k])
          decreases len
        {
          vram[p] := CLEARED;
          p := p + 1;
          i := i + 1;
          len := len - 1;
        }
      }
    }

    /** The screen moved up by some lines; the lines that come free at the bottom are cleared. Down is not done. */
    method Scroll(lines: int)
      requires vram.Length == CELLS && lines <= HEIGHT
      modifies vram
      ensures lines <= 0 ==> vram[..] == old(vram[..])
      ensures lines > 0 ==> vram[..] == old(vram[WIDTH * lines..]) + Repeat(CLEARED, WIDTH * lines)
    {
      if lines > 0 {
        ScrollUp(lines);
      }
    }

    method ScrollUp(lines: nat)
      requires vram.Length == CELLS && 0 < lines <= HEIGHT
      modifies vram
      ensures vram[..] == old(vram[WIDTH * lines..]) + Repeat(CLEARED, WIDTH * lines)
    {
      var len := WIDTH * (HEIGHT - lines);
      var to, from := 0, WIDTH * lines;
      while to < len
        invariant to <= len && from == to + WIDTH * lines
        invariant forall k :: 0 <= k < CELLS ==>
          vram[k] == if k < to then old(vram[k + WIDTH * lines]) else old(vram[k])
      {
        vram[to] := vram[from];
        to, from := to + 1, from + 1;
      }
      ghost var kept := vram[..WIDTH * (HEIGHT - lines)];
      assert kept == old(vram[WIDTH * lines..]);
      ClearLines(scrollEnd - (lines - 1) - 1, scrollEnd - 1);
    }

    /**
     * A move of the cursor: the last column holds it, the last line scrolls, and to the left of the first
     * column it goes up a line.
     */
    method Move(dx: int, dy: int)
      requires Valid() && dy <= HEIGHT && (cursorX + dx >= 0 || (cursorX + dx > -WIDTH && dy <= 0))
      modifies this`cursorX, this`cursorY, vram
      ensures Valid() && cursorX == NewColumn(old(cursorX) + dx)
      ensures var y := old(cursorY) + dy - (if old(cursorX) + dx < 0 then 1 else 0);
        if y < HEIGHT then cursorY == (if y < 0 then 0 else y) && vram[..] == old(vram[..])
        else
          var lines := y - HEIGHT + 1;
          cursorY == HEIGHT - 1 && vram[..] == old(vram[WIDTH * lines..]) + Repeat(CLEARED, WIDTH * lines)
    {
      var newX, deltaY := dx + cursorX, dy;
      if newX >= WIDTH {
        cursorX := WIDTH - 1;
      } else if newX < 0 {
        deltaY := deltaY - (-newX) / WIDTH - 1;
        cursorX := WIDTH - (-newX) % WIDTH + 1;
      } else {
        cursorX := newX;
      }
      if deltaY != 0 {
        var newY := cursorY + deltaY;
        var toScroll := 0;
        if newY >= scrollEnd {
          toScroll := newY - scrollEnd + 1;
          cursorY := scrollEnd - 1;
        } else if newY < 0 {
          toScroll := newY;
          cursorY := 0;
        } else {
          cursorY := newY;
        }
        Scroll(toScroll);
      }
    }

    method RemoveCursor()
      requires Valid()
      modifies this`charUnderCursor, vram
      ensures Valid() && charUnderCursor == 0 && vram[..] == old(Lifted())
    {
      if charUnderCursor != 0 {
        vram[At()] := charUnderCursor;
        charUnderCursor := 0;
      }
    }

    method DrawCursor()
      requires Valid() && charUnderCursor == 0 && vram[At()] != 0
      modifies this`charUnderCursor, vram
      ensures Valid() && charUnderCursor != 0 && vram[At()] == CURSOR && Lifted() == old(vram[..])
    {
      charUnderCursor := vram[At()];
      vram[At()] := Colored(BLACK, GREY, 0x5F);
      assert vram[..][At() := charUnderCursor] == old(vram[..]);
    }

    method PutChar(ch: nat, ghost d: Doc)
      requires Shows(d) && charUnderCursor == 0
      modifies this`cursorX, this`cursorY, this`charUnderCursor, vram
      ensures Shows(Put(d, ch)) && charUnderCursor == 0
    {
      PutOk(d, ch);
      ghost var shown := vram[..];
      vram[At()] := Colored(BLACK, GREY, ch);
      assert vram[..] == Shown(Put(d, ch));
      charUnderCursor := 0;
      Move(1, 0);
    }

    method BreakLine(ghost d: Doc)
      requires Shows(d) && charUnderCursor == 0
      modifies this`cursorX, this`cursorY, vram
      ensures Shows(NewLine(d)) && charUnderCursor == 0
    {
      LiftedIs(d);
      RowIs(d);
      NextRow(d, cursorY);
      ghost var shown := vram[..];
      Move(0, 1);
      cursorX := 0;
      MovedIsShown(d, shown);
    }

    /** The cursor is in the row of the screen that shows its line. */
    lemma RowIs(d: Doc)
      requires Shows(d)
      ensures WIDTH * cursorY + |d.text| == WIDTH * d.row + CELLS
    {
    }

    /** After a move down video memory is the screen of the next line. */
    lemma MovedIsShown(d: Doc, shown: seq<Cell>)
      requires Valid() && DocOk(d) && DocOk(NewLine(d)) && shown == Shown(d)
      requires vram[..] ==
        if WIDTH * (d.row + 2) <= |d.text| then shown else shown[WIDTH..] + Repeat(CLEARED, WIDTH)
      ensures vram[..] == Shown(NewLine(d))
    {
      ShownNewLine(d);
    }

    /** Without a cursor on it, video memory is the screen. */
    lemma LiftedIs(d: Doc)
      requires Shows(d) && charUnderCursor == 0
      ensures vram[..] == Shown(d)
    {
    }

    method Backspace(ghost d: Doc)
      requires Shows(d) && charUnderCursor == 0
      modifies this`cursorX, this`cursorY, vram
      ensures Shows(Back(d)) && charUnderCursor == 0
    {
      LiftedIs(d);
      Move(-1, 0);
      assert Shown(Back(d)) == Shown(d);
    }

    method Tab(ghost d: Doc)
      requires Shows(d) && charUnderCursor == 0
      modifies this`cursorX, this`cursorY, this`charUnderCursor, vram
      ensures Shows(PutSpaces(d, TAB_STOP - d.col % TAB_STOP)) && charUnderCursor == 0
    {
      var toPut: nat := TAB_STOP - cursorX % TAB_STOP;
      ghost var now := d;
      while toPut > 0
        invariant DocOk(now) && Shows(now) && charUnderCursor == 0
        invariant PutSpaces(d, TAB_STOP - d.col % TAB_STOP) == PutSpaces(now, toPut)
      {
        PutChar(0x20, now);
        now := Put(now, 0x20);
        toPut := toPut - 1;
      }
    }

    /** What a character of the text fragment does. */
    method Interpret(b: nat, ghost d: Doc)
      requires Shows(d) && charUnderCursor == 0 && IsText(b)
      modifies this`cursorX, this`cursorY, this`charUnderCursor, vram
      ensures Shows(Apply(d, b)) && charUnderCursor == 0
    {
      if b == 0x05 || b == 0x07 {
      } else if b == 0x0A {
        BreakLine(d);
      } else if b == 0x0D {
        cursorX := 0;
        assert Shown(d.(col := 0)) == Shown(d);
      } else if b == 0x08 {
        Backspace(d);
      } else if b == 0x7F {
        PutOk(d, 0x20);
        PutChar(0x20, d);
        Backspace(Put(d, 0x20));
      } else if b == 0x09 {
        Tab(d);
      } else {
        PutChar(b, d);
      }
    }

    /** One received character: the cursor is lifted, the character interpreted, the cursor drawn. */
    method Receive(b: nat, ghost d: Doc)
      requires Shows(d) && IsText(b) && NoZero(d.text)
      modifies this`cursorX, this`cursorY, this`charUnderCursor, vram
      ensures Shows(Apply(d, b)) && charUnderCursor != 0 && vram[At()] == CURSOR && NoZero(Apply(d, b).text)
    {
      RemoveCursor();
      assert Shows(d);
      Interpret(b, d);
      ApplyNoZero(d, b);
      assert vram[..][At()] == Shown(Apply(d, b))[At()];
      DrawCursor();
    }

    /** The screen after the first i characters of a text. */
    predicate ShowsText(bytes: seq<nat>, i: nat)
      reads this, vram
      requires AllText(bytes) && i <= |bytes|
    {
      var d := ApplyAll(StartDoc(), bytes[..i]);
      Shows(d) && NoZero(d.text) && (i > 0 ==> charUnderCursor != 0 && vram[At()] == CURSOR)
    }

    method ReceiveNext(bytes: seq<nat>, i: nat)
      requires AllText(bytes) && i < |bytes| && ShowsText(bytes, i)
      modifies this`cursorX, this`cursorY, this`charUnderCursor, vram
      ensures ShowsText(bytes, i + 1)
    {
      ApplyOneMore(StartDoc(), bytes, i);
      Receive(bytes[i], ApplyAll(StartDoc(), bytes[..i]));
    }

    /**
     * A whole text from start-up: the screen with the cursor lifted is the end of the document that the text
     * makes, and the cursor, once anything has been received, is drawn at the document's place.
     */
    method ReceiveAll(bytes: seq<nat>)
      requires charUnderCursor == 0 && Shows(StartDoc()) && AllText(bytes)
      modifies this`cursorX, this`cursorY, this`charUnderCursor, vram
      ensures Shows(ApplyAll(StartDoc(), bytes))
      ensures bytes != [] ==> charUnderCursor != 0 && vram[At()] == CURSOR
    {
      var i := 0;
      while i < |bytes|
        invariant i <= |bytes| && ShowsText(bytes, i)
      {
        ReceiveNext(bytes, i);
        i := i + 1;
      }
      assert bytes[..i] == bytes;
    }
  }

  lemma ApplyOneMore(d: Doc, bytes: seq<nat>, i: nat)
    requires DocOk(d) && AllText(bytes) && i < |bytes|
    ensures ApplyAll(d, bytes[..i + 1]) == Apply(ApplyAll(d, bytes[..i]), bytes[i])
  {
    assert bytes[..i + 1][..i] == bytes[..i];
  }

  predicate NoZero(text: seq<Cell>) { forall i :: 0 <= i < |text| ==> text[i] != 0 }

  lemma {:induction false} SpacesNoZero(d: Doc, n: nat)
    requires DocOk(d) && NoZero(d.text)
    ensures NoZero(PutSpaces(d, n).text)
    decreases n
  {
    if n > 0 {
      PutOk(d, 0x20);
      SpacesNoZero(Put(d, 0x20), n - 1);
    }
  }

  lemma ApplyNoZero(d: Doc, b: nat)
    requires DocOk(d) && IsText(b) && NoZero(d.text)
    ensures NoZero(Apply(d, b).text)
  {
    if b == 0x09 { SpacesNoZero(d, TAB_STOP - d.col % TAB_STOP); }
  }

  lemma NextRow(d: Doc, y: nat)
    requires DocOk(d) && WIDTH * y + |d.text| == WIDTH * d.row + CELLS
    ensures DocOk(NewLine(d)) && NewLine(d).col == 0 && (y + 1 < HEIGHT <==> WIDTH * (d.row + 2) <= |d.text|)
    ensures ScreenPlace(NewLine(d)) == WIDTH * if y + 1 < HEIGHT then y + 1 else HEIGHT - 1
  {
    NewLineOk(d);
  }

  /** On the screen a new line is the next row, or the screen moved up with a blank row below. */
  lemma ShownNewLine(d: Doc)
    requires DocOk(d)
    ensures DocOk(NewLine(d))
    ensures Shown(NewLine(d)) ==
      if WIDTH * (d.row + 2) <= |d.text| then Shown(d) else Shown(d)[WIDTH..] + Repeat(CLEARED, WIDTH)
  {
    NewLineOk(d);
  }

  // ---------------------------------------------------------------------------------------------
  // What documents look like

  predicate Printable(bytes: seq<nat>) { forall i :: 0 <= i < |bytes| ==> 0x20 <= bytes[i] < 0x7F }

  function Glyphs(bytes: seq<nat>): seq<Cell> { seq(|bytes|, i requires 0 <= i < |bytes| => Glyph(bytes[i])) }

  /** The document with a text put at its place. */
  function WithText(d: Doc, bytes: seq<nat>): Doc
    requires DocOk(d) && d.col < WIDTH && d.col + |bytes| <= WIDTH
  {
    Doc(d.text[..Place(d)] + Glyphs(bytes) + d.text[Place(d) + |bytes|..], d.row,
        if d.col + |bytes| < WIDTH then d.col + |bytes| else WIDTH - 1)
  }

  lemma OneMoreGlyph(d: Doc, front: seq<nat>, last: nat)
    requires DocOk(d) && d.col + |front| + 1 <= WIDTH && DocOk(WithText(d, front))
    ensures Put(WithText(d, front), last) == WithText(d, front + [last])
  {
    assert Glyphs(front + [last]) == Glyphs(front) + [Glyph(last)];
  }

  /** Printable text that fits the rest of the line is put there as it is, and only there. */
  lemma {:induction false} PrintsLine(d: Doc, bytes: seq<nat>)
    requires DocOk(d) && Printable(bytes) && d.col < WIDTH && d.col + |bytes| <= WIDTH
    ensures ApplyAll(d, bytes) == WithText(d, bytes)
    decreases |bytes|
  {
    if bytes != [] {
      var front, last := bytes[..|bytes| - 1], bytes[|bytes| - 1];
      PrintsLine(d, front);
      OneMoreGlyph(d, front, last);
      assert front + [last] == bytes;
    } else {
      assert d.text[..Place(d)] + [] + d.text[Place(d)..] == d.text;
    }
  }

  /** At the last column a character replaces the one there. */
  lemma LastReplaced(d: Doc, front: seq<nat>, x: nat, y: nat)
    requires DocOk(d) && d.col + |front| + 1 == WIDTH && DocOk(WithText(d, front + [x]))
    ensures Put(WithText(d, front + [x]), y) == WithText(d, front + [y])
  {
    assert Glyphs(front + [x]) == Glyphs(front) + [Glyph(x)] && Glyphs(front + [y]) == Glyphs(front) + [Glyph(y)];
  }

  /**
   * Of printable text that is too long for the line, what fits before the last column stays, and the last
   * character.
   */
  lemma {:induction false} FullLineOverwrites(d: Doc, bytes: seq<nat>)
    requires DocOk(d) && Printable(bytes) && d.col < WIDTH < d.col + |bytes|
    ensures ApplyAll(d, bytes) == WithText(d, bytes[..WIDTH - 1 - d.col] + [bytes[|bytes| - 1]])
    decreases |bytes|
  {
    var n := WIDTH - 1 - d.col;
    var front := bytes[..|bytes| - 1];
    if |front| == n + 1 {
      PrintsLine(d, front);
      assert front == bytes[..n] + [front[n]];
    } else {
      FullLineOverwrites(d, front);
      assert front[..n] == bytes[..n];
    }
    OneMoreReplaces(d, bytes[..n], front[|front| - 1], front, bytes);
  }

  lemma OneMoreReplaces(d: Doc, fits: seq<nat>, x: nat, front: seq<nat>, bytes: seq<nat>)
    requires DocOk(d) && AllText(bytes) && bytes != [] && 0x20 <= bytes[|bytes| - 1] < 0x7F
    requires front == bytes[..|bytes| - 1] && d.col + |fits| + 1 == WIDTH
      && ApplyAll(d, front) == WithText(d, fits + [x])
    ensures ApplyAll(d, bytes) == WithText(d, fits + [bytes[|bytes| - 1]])
  {
    PrintsOneMore(d, front, bytes, ApplyAll(d, front));
    LastReplaced(d, fits, x, bytes[|bytes| - 1]);
  }

  lemma ApplyLast(d: Doc, front: seq<nat>, bytes: seq<nat>)
    requires DocOk(d) && AllText(bytes) && bytes != [] && front == bytes[..|bytes| - 1]
    ensures ApplyAll(d, bytes) == Apply(ApplyAll(d, front), bytes[|bytes| - 1])
  {
  }

  lemma PrintsOneMore(d: Doc, front: seq<nat>, bytes: seq<nat>, before: Doc)
    requires DocOk(d) && AllText(bytes) && bytes != [] && 0x20 <= bytes[|bytes| - 1] < 0x7F
    requires front == bytes[..|bytes| - 1] && before == ApplyAll(d, front)
    ensures DocOk(before) && ApplyAll(d, bytes) == Put(before, bytes[|bytes| - 1])
  {
    ApplyLast(d, front, bytes);
    ApplyPrintable(before, bytes[|bytes| - 1]);
  }

  lemma ApplyPrintable(d: Doc, b: nat)
    requires DocOk(d) && 0x20 <= b < 0x7F
    ensures Apply(d, b) == Put(d, b)
  {
  }

  /** A tab leaves the column at a multiple of the tab stop, or at the last column. */
  lemma {:induction false} SpacesColumn(d: Doc, n: nat)
    requires DocOk(d) && (d.col < WIDTH || n > 0)
    ensures PutSpaces(d, n).col == (if d.col + n < WIDTH then d.col + n else WIDTH - 1) && PutSpaces(d, n).row == d.row
    decreases n
  {
    if n > 0 {
      PutOk(d, 0x20);
      SpacesColumn(Put(d, 0x20), n - 1);
    }
  }

  lemma TabColumn(d: Doc)
    requires DocOk(d)
    ensures var c := Apply(d, 0x09).col; c > d.col || c == WIDTH - 1
    ensures var c := Apply(d, 0x09).col; c % 4 == 0 || c == 159
  {
    SpacesColumn(d, TAB_STOP - d.col % TAB_STOP);
  }

  /** The column is one too far exactly after a backspace from the start of a line. */
  lemma OffTheLine(d: Doc, b: nat)
    requires DocOk(d) && IsText(b)
    ensures Apply(d, b).col == WIDTH <==> (b == 0x08 && d.col == 0) || (d.col == WIDTH && (b == 0x05 || b == 0x07))
  {
    if b == 0x09 { SpacesColumn(d, TAB_STOP - d.col % TAB_STOP); }
  }

  /** After that, the next character still goes to the start of the line that was left, and only the one after it up. */
  lemma BackspaceAtStart(d: Doc, x: nat, y: nat)
    requires DocOk(d) && d.col == 0 && |d.text| < WIDTH * d.row + CELLS && 0x20 <= x < 0x7F && 0x20 <= y < 0x7F
    ensures Apply(Apply(Apply(d, 0x08), x), y) ==
      Doc(d.text[Place(d) := Glyph(x)][Place(d) - 1 := Glyph(y)], d.row - 1, WIDTH - 1)
  {
  }

  predicate NoBackspace(bytes: seq<nat>) { forall i :: 0 <= i < |bytes| ==> bytes[i] != 0x08 }

  /** Without backspaces, lines above the one being written never change, and the document only grows. */
  lemma {:induction false} PastStays(d: Doc, bytes: seq<nat>)
    requires DocOk(d) && AllText(bytes) && NoBackspace(bytes)
    ensures var r := ApplyAll(d, bytes);
      && r.row >= d.row && |r.text| >= |d.text| && r.text[..WIDTH * d.row] == d.text[..WIDTH * d.row]
    decreases |bytes|
  {
    if bytes != [] {
      var front, last := bytes[..|bytes| - 1], bytes[|bytes| - 1];
      PastStays(d, front);
      OneStays(ApplyAll(d, front), last);
    }
  }

  lemma OneStays(d: Doc, b: nat)
    requires DocOk(d) && IsText(b) && b != 0x08
    ensures var r := Apply(d, b);
      r.row >= d.row && |r.text| >= |d.text| && r.text[..WIDTH * d.row] == d.text[..WIDTH * d.row]
  {
    if b == 0x09 { SpacesStay(d, TAB_STOP - d.col % TAB_STOP); }
  }

  lemma {:induction false} SpacesStay(d: Doc, n: nat)
    requires DocOk(d)
    ensures var r := PutSpaces(d, n);
      r.row == d.row && |r.text| == |d.text| && r.text[..WIDTH * d.row] == d.text[..WIDTH * d.row]
    decreases n
  {
    if n > 0 {
      PutOk(d, 0x20);
      SpacesStay(Put(d, 0x20), n - 1);
    }
  }

  // ---------------------------------------------------------------------------------------------
  // What the control characters do

  /** A cell is the background colour, the foreground colour and the character. */
  lemma GlyphParts(ch: nat)
    requires ch < 0x100
    ensures Glyph(ch) % 0x100 == ch && Glyph(ch) / 0x100 == 0x777777
    ensures FILL == Glyph(0x20) && CURSOR == Glyph(0x5F) && CLEARED % 0x100 == 0x20
  {
  }

  /** How many lines the document has. */
  function Lines(d: Doc): nat { |d.text| / WIDTH }

  /** A newline goes to the start of the next line; on the last line one more line, cleared, comes first. */
  lemma NewLineMeans(d: Doc)
    requires DocOk(d)
    ensures var r := Apply(d, 0x0A);
      && r.row == d.row + 1 && r.col == 0
      && r.text == if d.row + 1 == Lines(d) then d.text + Repeat(CLEARED, WIDTH) else d.text
  {
  }

  /** A carriage return goes to the start of the line; bell and answer-back do nothing. */
  lemma ReturnMeans(d: Doc, b: nat)
    requires DocOk(d) && (b == 0x0D || b == 0x07 || b == 0x05)
    ensures Apply(d, b) == Doc(d.text, d.row, if b == 0x0D then 0 else d.col)
  {
  }

  lemma {:induction false} FromFront(d: Doc, b: nat, bytes: seq<nat>)
    requires DocOk(d) && IsText(b) && AllText(bytes)
    ensures AllText([b] + bytes) && ApplyAll(d, [b] + bytes) == ApplyAll(Apply(d, b), bytes)
    decreases |bytes|
  {
    var all := [b] + bytes;
    if bytes == [] {
      assert all[..0] == [] && all == [b];
      ApplyLast(d, [], all);
    } else {
      var front := bytes[..|bytes| - 1];
      FromFront(d, b, front);
      assert all[..|all| - 1] == [b] + front;
      ApplyLast(d, [b] + front, all);
      ApplyLast(Apply(d, b), front, bytes);
    }
  }

  /** Text behind a carriage return overwrites the line from its start. */
  lemma ReturnOverwrites(d: Doc, bytes: seq<nat>)
    requires DocOk(d) && Printable(bytes) && |bytes| <= WIDTH
    ensures AllText([0x0D] + bytes)
    ensures var r := ApplyAll(d, [0x0D] + bytes);
      var start := WIDTH * d.row;
      && r.row == d.row && r.text == d.text[..start] + Glyphs(bytes) + d.text[start + |bytes|..]
  {
    var e := Apply(d, 0x0D);
    ReturnMeans(d, 0x0D);
    FromFront(d, 0x0D, bytes);
    PrintsLine(e, bytes);
  }

  /** Delete blanks the cell at the cursor, which stays, but for the last column, where it goes one to the left. */
  lemma DeleteMeans(d: Doc)
    requires DocOk(d)
    ensures Apply(d, 0x7F) ==
      Doc(d.text[Place(d) := Glyph(0x20)], d.row, if d.col < WIDTH - 1 then d.col else WIDTH - 2)
  {
  }

  /** Backspace goes left, or from the start of a line behind the end of the line above, if that is on the screen. */
  lemma BackspaceMeans(d: Doc)
    requires DocOk(d)
    ensures var r := Apply(d, 0x08);
      && r.text == d.text && (d.col > 0 ==> r.row == d.row && r.col == d.col - 1)
      && (d.col == 0 ==> r.col == WIDTH && r.row == if d.row + HEIGHT == Lines(d) then d.row else d.row - 1)
  {
  }

  function Spaces(n: nat): seq<nat> { seq(n, _ => 0x20) }

  lemma {:induction false} SpacesAre(d: Doc, k: nat, n: nat)
    requires DocOk(d) && d.col < WIDTH && d.col + k + n <= WIDTH && DocOk(WithText(d, Spaces(k)))
    ensures PutSpaces(WithText(d, Spaces(k)), n) == WithText(d, Spaces(k + n))
    decreases n
  {
    if n > 0 {
      OneMoreGlyph(d, Spaces(k), 0x20);
      assert Spaces(k) + [0x20] == Spaces(k + 1);
      PutOk(WithText(d, Spaces(k)), 0x20);
      SpacesAre(d, k + 1, n - 1);
    }
  }

  /** A tab puts blanks up to the next multiple of the tab stop. */
  lemma TabMeans(d: Doc)
    requires DocOk(d) && d.col < WIDTH
    ensures var n := 4 - d.col % 4; d.col + n <= WIDTH && Apply(d, 0x09) == WithText(d, Spaces(n))
  {
    var n := TAB_STOP - d.col % TAB_STOP;
    assert WithText(d, Spaces(0)) == d by {
      assert Glyphs(Spaces(0)) == [];
      assert d.text[..Place(d)] + [] + d.text[Place(d)..] == d.text;
    }
    SpacesAre(d, 0, n);
  }

  // ---------------------------------------------------------------------------------------------
  // Lines of text

  /** Each line is printable and fits. */
  predicate FitLines(lines: seq<seq<nat>>) {
    forall k :: 0 <= k < |lines| ==> Printable(lines[k]) && |lines[k]| <= WIDTH
  }

  /** The lines, each ended by a newline. */
  function Typed(lines: seq<seq<nat>>): seq<nat>
    decreases |lines|
  {
    if lines == [] then [] else Typed(lines[..|lines| - 1]) + lines[|lines| - 1] + [0x0A]
  }

  /** What is in the rest of line k: the first HEIGHT lines are filled at start-up, later ones cleared. */
  function Rest(k: nat): Cell { if k < HEIGHT then FILL else CLEARED }

  function LineOf(line: seq<nat>, k: nat): seq<Cell>
    requires |line| <= WIDTH
  {
    Glyphs(line) + Repeat(Rest(k), WIDTH - |line|)
  }

  function LineAt(text: seq<Cell>, k: nat): seq<Cell>
    requires WIDTH * k + WIDTH <= |text|
  {
    text[WIDTH * k..WIDTH * k + WIDTH]
  }

  /** The document holds these lines, and below them blank ones; the cursor is behind them. */
  ghost predicate Holds(d: Doc, lines: seq<seq<nat>>) {
    && FitLines(lines) && DocOk(d) && d.row == |lines| && d.col == 0
    && |d.text| == (if |lines| < HEIGHT then CELLS else WIDTH * |lines| + WIDTH)
    && (forall k :: 0 <= k < |lines| ==> LineAt(d.text, k) == LineOf(lines[k], k))
    && (forall k :: |lines| <= k < Lines(d) ==> LineAt(d.text, k) == Repeat(Rest(k), WIDTH))
  }

  lemma {:induction false} Appending(d: Doc, a: seq<nat>, b: seq<nat>)
    requires DocOk(d) && AllText(a) && AllText(b)
    ensures AllText(a + b) && ApplyAll(d, a + b) == ApplyAll(ApplyAll(d, a), b)
    decreases |b|
  {
    if b == [] {
      assert a + b == a;
    } else {
      var front := b[..|b| - 1];
      Appending(d, a, front);
      assert (a + b)[..|a + b| - 1] == a + front;
      ApplyLast(d, a + front, a + b);
      ApplyLast(ApplyAll(d, a), front, b);
    }
  }

  lemma TypedIsText(lines: seq<seq<nat>>)
    requires FitLines(lines)
    ensures AllText(Typed(lines))
    decreases |lines|
  {
    if lines != [] { TypedIsText(lines[..|lines| - 1]); }
  }

  /** A line printed on a blank one. */
  lemma LinePrinted(d: Doc, lines: seq<seq<nat>>, line: seq<nat>, e: Doc)
    requires Holds(d, lines) && Printable(line) && |line| <= WIDTH && e == WithText(d, line)
    ensures DocOk(e) && e.row == d.row && |e.text| == |d.text| && LineAt(e.text, d.row) == LineOf(line, d.row)
    ensures forall k :: 0 <= k < Lines(d) && k != d.row ==> LineAt(e.text, k) == LineAt(d.text, k)
  {
    PrintedRow(d.text, WIDTH * d.row, line, Rest(d.row), e.text);
  }

  lemma PrintedRow(text: seq<Cell>, start: nat, line: seq<nat>, c: Cell, after: seq<Cell>)
    requires start + WIDTH <= |text| && |line| <= WIDTH && text[start..start + WIDTH] == Repeat(c, WIDTH)
    requires after == text[..start] + Glyphs(line) + text[start + |line|..]
    ensures |after| == |text| && after[start..start + WIDTH] == Glyphs(line) + Repeat(c, WIDTH - |line|)
  {
    var row, want := after[start..start + WIDTH], Glyphs(line) + Repeat(c, WIDTH - |line|);
    forall i | 0 <= i < WIDTH ensures row[i] == want[i] {
      assert row[i] == after[start + i];
      if i >= |line| { assert text[start..start + WIDTH][i] == text[start + i] == c; }
    }
  }

  /** The newline behind it: the next line, a new blank one if it was the last. */
  lemma LineEnded(e: Doc, r: Doc, line: seq<nat>, k: nat)
    requires DocOk(e) && e.row == k && r == Apply(e, 0x0A) && |line| <= WIDTH
    requires |e.text| == (if k < HEIGHT then CELLS else WIDTH * k + WIDTH)
    requires LineAt(e.text, k) == LineOf(line, k)
    ensures |r.text| == (if k + 1 < HEIGHT then CELLS else WIDTH * (k + 1) + WIDTH)
    ensures forall j :: 0 <= j < Lines(e) ==> LineAt(r.text, j) == LineAt(e.text, j)
    ensures forall j :: Lines(e) <= j < Lines(r) ==> LineAt(r.text, j) == Repeat(Rest(j), WIDTH)
  {
    NewLineMeans(e);
    forall j | 0 <= j < Lines(e) ensures LineAt(r.text, j) == LineAt(e.text, j) {
      LineKept(e.text, r.text, j);
    }
    if k + 1 >= HEIGHT { assert r.text[|e.text|..] == Repeat(CLEARED, WIDTH); }
  }

  lemma LineKept(text: seq<Cell>, after: seq<Cell>, j: nat)
    requires WIDTH * j + WIDTH <= |text| <= |after| && after[..|text|] == text
    ensures LineAt(after, j) == LineAt(text, j)
  {
    assert after[..|text|][WIDTH * j..WIDTH * j + WIDTH] == after[WIDTH * j..WIDTH * j + WIDTH];
  }

  lemma StartHolds()
    ensures Holds(StartDoc(), [])
  {
    forall k | 0 <= k < HEIGHT ensures LineAt(StartDoc().text, k) == Repeat(FILL, WIDTH) { }
  }

  lemma OneMoreLine(d: Doc, lines: seq<seq<nat>>, line: seq<nat>, r: Doc)
    requires Holds(d, lines) && Printable(line) && |line| <= WIDTH
    requires AllText(line) && r == Apply(ApplyAll(d, line), 0x0A)
    ensures Holds(r, lines + [line])
  {
    var e := ApplyAll(d, line);
    PrintsLine(d, line);
    LinePrinted(d, lines, line, e);
    LineEnded(e, r, line, |lines|);
    LinesHeld(d, lines, line, e, r);
  }

  lemma LinesHeld(d: Doc, lines: seq<seq<nat>>, line: seq<nat>, e: Doc, r: Doc)
    requires Holds(d, lines) && Printable(line) && |line| <= WIDTH && DocOk(e) && DocOk(r)
    requires e.row == |lines| && |e.text| == |d.text| && LineAt(e.text, e.row) == LineOf(line, e.row)
    requires forall k :: 0 <= k < Lines(d) && k != d.row ==> LineAt(e.text, k) == LineAt(d.text, k)
    requires r == Apply(e, 0x0A)
    requires |r.text| == (if |lines| + 1 < HEIGHT then CELLS else WIDTH * (|lines| + 1) + WIDTH)
    requires forall j :: 0 <= j < Lines(e) ==> LineAt(r.text, j) == LineAt(e.text, j)
    requires forall j :: Lines(e) <= j < Lines(r) ==> LineAt(r.text, j) == Repeat(Rest(j), WIDTH)
    ensures Holds(r, lines + [line])
  {
    NewLineMeans(e);
  }

  /**
   * Lines typed from start-up stand in the document one below the other, each followed by blanks, and the
   * cursor is at the start of the line behind the last one.
   */
  lemma {:induction false} LinesStand(lines: seq<seq<nat>>)
    requires FitLines(lines)
    ensures AllText(Typed(lines)) && Holds(ApplyAll(StartDoc(), Typed(lines)), lines)
    decreases |lines|
  {
    TypedIsText(lines);
    if lines == [] {
      StartHolds();
    } else {
      var front, line := lines[..|lines| - 1], lines[|lines| - 1];
      assert front + [line] == lines;
      LinesStand(front);
      TypedMore(front, line, lines);
      OneMoreLine(ApplyAll(StartDoc(), Typed(front)), front, line, ApplyAll(StartDoc(), Typed(lines)));
    }
  }

  lemma TypedMore(front: seq<seq<nat>>, line: seq<nat>, lines: seq<seq<nat>>)
    requires FitLines(front) && Printable(line) && |line| <= WIDTH && lines == front + [line]
    ensures AllText(Typed(front)) && AllText(line) && AllText(Typed(lines))
    ensures ApplyAll(StartDoc(), Typed(lines)) == Apply(ApplyAll(ApplyAll(StartDoc(), Typed(front)), line), 0x0A)
  {
    assert lines[..|lines| - 1] == front;
    TypedIsText(front);
    TypedIsText(lines);
    Appending(StartDoc(), Typed(front), line);
    ApplyLast(StartDoc(), Typed(front) + line, Typed(lines));
  }
}
