/** The text screen (drivers/vga.c). */
module Terminal {

  const WIDTH := 80
  const HEIGHT := 25
  const SIZE := WIDTH * HEIGHT

  /** One character cell. */
  datatype Cell = Cell(ch: char, color: nat)

  datatype Screen = Screen(cells: seq<Cell>, row: nat, column: nat, color: nat)

  predicate ScreenOk(s: Screen) {
    |s.cells| == SIZE && s.row < HEIGHT && s.column < WIDTH
  }

  function Position(s: Screen): nat {
    s.row * WIDTH + s.column
  }

  function BlankLine(color: nat): seq<Cell> {
    seq(WIDTH, _ => Cell(' ', color))
  }

  /** terminal_scroll: one line up if the cursor left the screen. */
  function Scrolled(s: Screen): Screen
    requires |s.cells| == SIZE && s.row <= HEIGHT
  {
    if s.row < HEIGHT then s else s.(cells := s.cells[WIDTH..] + BlankLine(s.color), row := HEIGHT - 1)
  }

  /** A character that is not a control character. */
  function PutGlyph(s: Screen, c: char): (t: Screen)
    requires ScreenOk(s)
    ensures ScreenOk(t)
  {
    var t := s.(cells := s.cells[Position(s) := Cell(c, s.color)]);
    Scrolled(if s.column + 1 >= WIDTH then t.(row := s.row + 1, column := 0) else t.(column := s.column + 1))
  }

  /** terminal_putchar */
  function PutChar(s: Screen, c: char): (t: Screen)
    requires ScreenOk(s)
    ensures ScreenOk(t)
  {
    if c == '\n' then Scrolled(s.(row := s.row + 1, column := 0))
    else if c == '\r' then s.(column := 0)
    else if c == '\t' then PutGlyph(PutGlyph(PutGlyph(PutGlyph(s, ' '), ' '), ' '), ' ')
    else PutGlyph(s, c)
  }

  /** terminal_backspace */
  function Backspace(s: Screen): (t: Screen)
    requires ScreenOk(s)
    ensures ScreenOk(t)
  {
    if s.column == 0 && s.row == 0 then s
    else
      var t := if s.column == 0 then s.(row := s.row - 1, column := WIDTH - 1) else s.(column := s.column - 1);
      t.(cells := t.cells[Position(t) := Cell(' ', s.color)])
  }

  // ---------- What each of them does to the cells ----------

  /** All cells but those from `from` to `to` are as they were. */
  ghost predicate SameOutside(s: Screen, t: Screen, from: int, to: int) {
    |t.cells| == |s.cells| && t.color == s.color
    && forall k :: 0 <= k < |s.cells| && !(from <= k < to) ==> t.cells[k] == s.cells[k]
  }

  /** Everything has moved up by one line of 80 cells, and the last line is blank. */
  ghost predicate MovedUp(cells: seq<Cell>, t: Screen) {
    && |cells| == |t.cells| == 2000
    && (forall k :: 0 <= k < 1920 ==> t.cells[k] == cells[k + 80])
    && (forall k :: 1920 <= k < 2000 ==> t.cells[k] == Cell(' ', t.color))
  }

  /** A character that is not a control character goes to the cursor's cell, and the cursor one on; after
      the last cell the screen moves up and the cursor is at the beginning of the last line. */
  lemma {:induction false} GlyphEffect(s: Screen, c: char)
    requires ScreenOk(s) && c != '\n' && c != '\r' && c != '\t'
    ensures var p, t := Position(s), PutChar(s, c);
            && p < 2000 && t.color == s.color
            && (p + 1 < 2000 ==> Position(t) == p + 1 && t.cells[p] == Cell(c, s.color) && SameOutside(s, t, p, p + 1))
            && (p + 1 == 2000 ==> Position(t) == 1920 && MovedUp(s.cells[p := Cell(c, s.color)], t))
  {
  }

  /** A newline goes to the beginning of the next line, from the last line by moving the screen up; a
      carriage return to the beginning of this one. */
  lemma {:induction false} LineEffect(s: Screen)
    requires ScreenOk(s)
    ensures var t := PutChar(s, '\n');
            && t.column == 0 && t.color == s.color
            && (s.row < 24 ==> t.row == s.row + 1 && t.cells == s.cells)
            && (s.row == 24 ==> t.row == 24 && MovedUp(s.cells, t))
    ensures PutChar(s, '\r') == s.(column := 0)
  {
  }

  /** A tabulator prints four blanks. */
  lemma {:induction false} TabEffect(s: Screen)
    requires ScreenOk(s)
    ensures PutChar(s, '\t') == PutChar(PutChar(PutChar(PutChar(s, ' '), ' '), ' '), ' ')
  {
    hide PutGlyph;
  }

  /** Backspace goes back by one cell and blanks it, and touches no other; at the origin it does
      nothing. */
  lemma {:induction false} BackspaceEffect(s: Screen)
    requires ScreenOk(s)
    ensures var p, t := Position(s), Backspace(s);
            && (p == 0 ==> t == s)
            && (p > 0 ==> Position(t) == p - 1 && t.cells[p - 1] == Cell(' ', s.color) && SameOutside(s, t, p - 1, p))
  {
  }

  /** Screens are equal if cells, position and color are. */
  lemma {:induction false} SameScreen(s: Screen, t: Screen)
    requires ScreenOk(s) && ScreenOk(t) && s.cells == t.cells && s.color == t.color && Position(s) == Position(t)
    ensures s == t
  {
  }

  /** Backspace undoes a character typed on a blank cell, anywhere but on the last cell. */
  lemma {:induction false} BackspaceUndoes(s: Screen, c: char)
    requires ScreenOk(s) && c != '\n' && c != '\r' && c != '\t'
    requires Position(s) + 1 < 2000 && s.cells[Position(s)] == Cell(' ', s.color)
    ensures Backspace(PutChar(s, c)) == s
  {
    GlyphEffect(s, c);
    BackspaceEffect(PutChar(s, c));
    hide PutChar, Backspace, Position;
    SameScreen(Backspace(PutChar(s, c)), s);
  }

  // ---------- The driver's own form ----------

  class Console {
    const cells: array<Cell>
    var row: nat
    var column: nat
    var color: nat

    ghost predicate Valid()
      reads this
    {
      cells.Length == SIZE && row < HEIGHT && column < WIDTH
    }

    function Value(): Screen
      reads this, cells
    {
      Screen(cells[..], row, column, color)
    }

    constructor ()
      ensures Valid() && fresh(cells)
      ensures Value() == Screen(seq(2000, _ => Cell(' ', 7)), 0, 0, 7)
    {
      cells := new Cell[SIZE](_ => Cell(' ', 7));
      row, column, color := 0, 0, 7;
    }

    /** The copying loop of terminal_scroll, line by line. */
    method Scroll()
      requires cells.Length == SIZE && row <= HEIGHT
      modifies this`row, cells
      ensures Value() == Scrolled(old(Value()))
    {
      if row < HEIGHT {
        return;
      }
      var y := 1;
      while y < HEIGHT
        invariant 1 <= y <= HEIGHT
        invariant forall k :: 0 <= k < (y - 1) * WIDTH ==> cells[k] == old(cells[k + WIDTH])
        invariant forall k :: (y - 1) * WIDTH <= k < SIZE ==> cells[k] == old(cells[k])
      {
        CopyLine(y);
        y := y + 1;
      }
      BlankLast();
      row := HEIGHT - 1;
      assert cells[..] == old(cells[..])[WIDTH..] + BlankLine(color);
    }

    /** The last loop of terminal_scroll. */
    method BlankLast()
      requires cells.Length == SIZE
      modifies cells
      ensures forall k :: 0 <= k < SIZE - WIDTH ==> cells[k] == old(cells[k])
      ensures forall k :: SIZE - WIDTH <= k < SIZE ==> cells[k] == Cell(' ', color)
    {
      var x := 0;
      while x < WIDTH
        invariant 0 <= x <= WIDTH
        invariant forall k :: 0 <= k < SIZE - WIDTH ==> cells[k] == old(cells[k])
        invariant forall k :: SIZE - WIDTH <= k < SIZE - WIDTH + x ==> cells[k] == Cell(' ', color)
      {
        cells[(HEIGHT - 1) * WIDTH + x] := Cell(' ', color);
        x := x + 1;
      }
    }

    /** The inner copying loop. */
    method CopyLine(y: nat)
      requires cells.Length == SIZE && 1 <= y < HEIGHT
      modifies cells
      ensures forall k :: 0 <= k < SIZE ==>
                            cells[k] == if (y - 1) * WIDTH <= k < y * WIDTH then old(cells[k + WIDTH])
                                        else old(cells[k])
    {
      var x := 0;
      while x < WIDTH
        invariant 0 <= x <= WIDTH
        invariant forall k :: 0 <= k < SIZE ==>
                                cells[k] == if (y - 1) * WIDTH <= k < (y - 1) * WIDTH + x then old(cells[k + WIDTH])
                                            else old(cells[k])
      {
        cells[(y - 1) * WIDTH + x] := cells[y * WIDTH + x];
        x := x + 1;
      }
    }

    method PutGlyphAt(c: char)
      requires Valid()
      modifies this`row, this`column, cells
      ensures Valid() && Value() == PutGlyph(old(Value()), c)
    {
      cells[row * WIDTH + column] := Cell(c, color);
      column := column + 1;
      if column >= WIDTH {
        column := 0;
        row := row + 1;
      }
      Scroll();
    }

    method Put(c: char)
      requires Valid()
      modifies this`row, this`column, cells
      ensures Valid() && Value() == PutChar(old(Value()), c)
    {
      if c == '\n' {
        column := 0;
        row := row + 1;
        Scroll();
        return;
      }
      if c == '\r' {
        column := 0;
        return;
      }
      if c == '\t' {
        PutGlyphAt(' ');
        PutGlyphAt(' ');
        PutGlyphAt(' ');
        PutGlyphAt(' ');
        return;
      }
      PutGlyphAt(c);
    }

    method Erase()
      requires Valid()
      modifies this`row, this`column, cells
      ensures Valid() && Value() == Backspace(old(Value()))
    {
      if column == 0 && row == 0 {
        return;
      }
      if column == 0 {
        row := row - 1;
        column := WIDTH - 1;
      } else {
        column := column - 1;
      }
      cells[row * WIDTH + column] := Cell(' ', color);
    }
  }
}
