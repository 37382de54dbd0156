// The text terminal: an 80x25 buffer that scrolls, and the unbounded page of which
// it always shows the bottom.
module Terminal {
  const WIDTH: nat := 80
  const HEIGHT: nat := 25

  /** A character of 8 bits; char is signed on this machine. */
  type Char8 = c: char | c < 256 as char witness ' '

  /** A colour byte: background in the high half, foreground in the low half. */
  type Color = n: int | 0 <= n < 256

  /**
   * vga_entry: the character in the low byte, the colour in the high byte. From 128 on
   * the character is sign-extended, which sets every bit of the high byte.
   */
  function Entry(c: Char8, color: Color): (e: int)
    ensures 0 <= e < 0x1_0000 && e % 256 == c as int
    ensures e / 256 == color <==> c < 128 as char || color == 255
    ensures c >= 128 as char ==> e / 256 == 255
  {
    c as int + (if c < 128 as char then color else 255) * 256
  }

  function BlankLine(color: Color): (l: seq<int>)
    ensures |l| == WIDTH && forall i :: 0 <= i < WIDTH ==> l[i] == Entry(' ', color)
  {
    seq(WIDTH, _ => Entry(' ', color))
  }

  // ---- The buffer ----

  datatype Screen = Screen(cells: seq<int>, row: nat, col: nat, color: Color)

  predicate InRange(s: Screen) { |s.cells| == WIDTH * HEIGHT && s.row < HEIGHT && s.col < WIDTH }

  function Scrolled(cells: seq<int>, color: Color): seq<int>
    requires |cells| == WIDTH * HEIGHT
  {
    cells[WIDTH..] + BlankLine(color)
  }

  function NewLine(s: Screen): Screen
    requires |s.cells| == WIDTH * HEIGHT
  {
    if s.row + 1 >= HEIGHT then Screen(Scrolled(s.cells, s.color), HEIGHT - 1, 0, s.color)
    else s.(row := s.row + 1, col := 0)
  }

  /** A line is left when the column runs past its end. */
  function Wrapped(s: Screen): Screen
    requires |s.cells| == WIDTH * HEIGHT
  {
    if s.col >= WIDTH then NewLine(s) else s
  }

  /** vga_putchar */
  function PutChar(s: Screen, c: Char8): Screen
    requires InRange(s)
  {
    if c == '\n' then NewLine(s)
    else if c == '\r' then s.(col := 0)
    else if c == '\t' then Wrapped(s.(col := (s.col + 8) / 8 * 8))
    else if c == '\U{08}' then (if s.col > 0 then s.(col := s.col - 1) else s)
    else Wrapped(s.(cells := s.cells[s.row * WIDTH + s.col := Entry(c, s.color)], col := s.col + 1))
  }

  /** vga_clear */
  function Cleared(color: Color): (s: Screen)
    ensures InRange(s)
  {
    Screen(seq(WIDTH * HEIGHT, _ => Entry(' ', color)), 0, 0, color)
  }

  // ---- The page ----

  /** Lines from the first one ever on; the cursor's row counts from there too. */
  datatype Page = Page(lines: seq<seq<int>>, row: nat, col: nat, color: Color)

  predicate IsPage(p: Page) {
    && |p.lines| >= HEIGHT && |p.lines| - HEIGHT <= p.row < |p.lines| && p.col < WIDTH
    && forall r :: 0 <= r < |p.lines| ==> |p.lines[r]| == WIDTH
  }

  function PageNewLine(p: Page): Page {
    var lines := if p.row + 1 < |p.lines| then p.lines else p.lines + [BlankLine(p.color)];
    Page(lines, p.row + 1, 0, p.color)
  }

  function PageWrapped(p: Page): Page { if p.col >= WIDTH then PageNewLine(p) else p }

  function PagePut(p: Page, c: Char8): Page
    requires IsPage(p)
  {
    if c == '\n' then PageNewLine(p)
    else if c == '\r' then p.(col := 0)
    else if c == '\t' then PageWrapped(p.(col := (p.col + 8) / 8 * 8))
    else if c == '\U{08}' then (if p.col > 0 then p.(col := p.col - 1) else p)
    else PageWrapped(p.(lines := p.lines[p.row := p.lines[p.row][p.col := Entry(c, p.color)]], col := p.col + 1))
  }

  function FreshPage(color: Color): Page {
    Page(seq(HEIGHT, _ => BlankLine(color)), 0, 0, color)
  }

  // ---- The screen shows the bottom of the page ----

  function CellAt(cells: seq<int>, r: nat, i: nat): int
    requires |cells| == WIDTH * HEIGHT && r < HEIGHT && i < WIDTH
  {
    cells[r * WIDTH + i]
  }

  /** Row r of the buffer holds the line. */
  predicate RowShows(cells: seq<int>, r: nat, line: seq<int>)
    requires |cells| == WIDTH * HEIGHT && r < HEIGHT && |line| == WIDTH
  {
    forall i :: 0 <= i < WIDTH ==> CellAt(cells, r, i) == line[i]
  }

  /** Line r of the last 25. */
  function BottomLine(lines: seq<seq<int>>, r: nat): seq<int>
    requires |lines| >= HEIGHT && r < HEIGHT
  {
    lines[|lines| - HEIGHT + r]
  }

  ghost predicate WindowShows(cells: seq<int>, lines: seq<seq<int>>)
    requires |cells| == WIDTH * HEIGHT && |lines| >= HEIGHT
    requires forall r :: 0 <= r < |lines| ==> |lines[r]| == WIDTH
  {
    forall r :: 0 <= r < HEIGHT ==> RowShows(cells, r, BottomLine(lines, r))
  }

  ghost predicate Shows(s: Screen, p: Page) {
    && IsPage(p) && InRange(s)
    && s.row == p.row - (|p.lines| - HEIGHT) && s.col == p.col && s.color == p.color
    && WindowShows(s.cells, p.lines)
  }

  /** Scrolling the buffer is adding a line to the page. */
  lemma {:induction false} ScrollShows(cells: seq<int>, lines: seq<seq<int>>, color: Color)
    requires |cells| == WIDTH * HEIGHT && |lines| >= HEIGHT
    requires forall r :: 0 <= r < |lines| ==> |lines[r]| == WIDTH
    requires WindowShows(cells, lines)
    ensures WindowShows(Scrolled(cells, color), lines + [BlankLine(color)])
  {
    var cells', lines' := Scrolled(cells, color), lines + [BlankLine(color)];
    forall r | 0 <= r < HEIGHT
      ensures RowShows(cells', r, BottomLine(lines', r))
    {
      forall i | 0 <= i < WIDTH
        ensures CellAt(cells', r, i) == BottomLine(lines', r)[i]
      {
        if r + 1 < HEIGHT {
          assert RowShows(cells, r + 1, BottomLine(lines, r + 1));
          assert CellAt(cells, r + 1, i) == BottomLine(lines, r + 1)[i];
        }
      }
    }
  }

  lemma {:induction false} NewLineShows(s: Screen, p: Page)
    requires Shows(s.(col := 0), p.(col := 0))
    ensures Shows(NewLine(s), PageNewLine(p))
  {
    hide RowShows;
    if s.row + 1 >= HEIGHT {
      ScrollShows(s.cells, p.lines, s.color);
    }
  }

  lemma {:induction false} WrappedShows(s: Screen, p: Page)
    requires Shows(s.(col := 0), p.(col := 0)) && s.col == p.col
    ensures Shows(Wrapped(s), PageWrapped(p))
  {
    hide WindowShows;
    if s.col >= WIDTH {
      NewLineShows(s, p);
    }
  }

  /** One cell changes, in one row. */
  lemma {:induction false} WriteShows(s: Screen, p: Page, e: int)
    requires Shows(s, p)
    ensures var cells, lines := s.cells[s.row * WIDTH + s.col := e], p.lines[p.row := p.lines[p.row][p.col := e]];
      Shows(s.(cells := cells, col := 0), p.(lines := lines, col := 0))
  {
    var cells, lines := s.cells[s.row * WIDTH + s.col := e], p.lines[p.row := p.lines[p.row][p.col := e]];
    forall r | 0 <= r < HEIGHT
      ensures RowShows(cells, r, BottomLine(lines, r))
    {
      assert RowShows(s.cells, r, BottomLine(p.lines, r));
      forall i | 0 <= i < WIDTH
        ensures CellAt(cells, r, i) == BottomLine(lines, r)[i]
      {
        assert CellAt(s.cells, r, i) == BottomLine(p.lines, r)[i];
      }
    }
  }

  /** Each character does to the window what it does to the page. */
  lemma {:induction false} PutShows(s: Screen, p: Page, c: Char8)
    requires Shows(s, p)
    ensures Shows(PutChar(s, c), PagePut(p, c))
  {
    hide NewLine, PageNewLine, WindowShows;
    if c == '\n' {
      NewLineShows(s, p);
    } else if c == '\r' {
    } else if c == '\t' {
      var col := (s.col + 8) / 8 * 8;
      WrappedShows(s.(col := col), p.(col := col));
    } else if c == '\U{08}' {
    } else {
      WriteShows(s, p, Entry(c, s.color));
      var cells := s.cells[s.row * WIDTH + s.col := Entry(c, s.color)];
      var lines := p.lines[p.row := p.lines[p.row][p.col := Entry(c, s.color)]];
      WrappedShows(s.(cells := cells, col := s.col + 1), p.(lines := lines, col := p.col + 1));
    }
  }

  /** Where the cursor goes: a tab to the next multiple of 8, other characters as their names say. */
  lemma {:induction false} CursorMoves(p: Page, c: Char8)
    requires IsPage(p)
    ensures var q := PagePut(p, c);
      && IsPage(q) && q.color == p.color
      && (c == '\t' ==> if p.col < 72 then q.row == p.row && p.col < q.col <= p.col + 8 && q.col % 8 == 0
                        else q.row == p.row + 1 && q.col == 0)
      && (c == '\n' ==> q.row == p.row + 1 && q.col == 0)
      && (c == '\r' ==> q.row == p.row && q.col == 0)
      && (c == '\U{08}' ==> q.row == p.row && q.col == if p.col == 0 then 0 else p.col - 1)
      && (c != '\t' && c != '\n' && c != '\r' && c != '\U{08}' ==>
            q.row * WIDTH + q.col == p.row * WIDTH + p.col + 1 && q.lines[p.row][p.col] == Entry(c, p.color))
  {
  }

  lemma {:induction false} ClearedShows(color: Color)
    ensures Shows(Cleared(color), FreshPage(color))
  {
  }

  // ---- Streams ----

  datatype Action = Put(c: Char8) | SetColor(color: Color)

  /** The page after a stream of characters and colour changes. */
  function PageAfter(p: Page, actions: seq<Action>): (q: Page)
    requires IsPage(p)
    ensures IsPage(q)
    decreases |actions|
  {
    if actions == [] then p
    else match actions[0]
      case Put(c) => PageAfter(PagePut(p, c), actions[1..])
      case SetColor(color) => PageAfter(p.(color := color), actions[1..])
  }

  function ScreenAfter(s: Screen, actions: seq<Action>): (t: Screen)
    requires InRange(s)
    ensures InRange(t)
    decreases |actions|
  {
    if actions == [] then s
    else match actions[0]
      case Put(c) => ScreenAfter(PutChar(s, c), actions[1..])
      case SetColor(color) => ScreenAfter(s.(color := color), actions[1..])
  }

  /**
   * After every stream the buffer and cursor are the bottom window of the page that
   * never scrolls.
   */
  lemma {:induction false} StreamShows(s: Screen, p: Page, actions: seq<Action>)
    requires Shows(s, p)
    ensures Shows(ScreenAfter(s, actions), PageAfter(p, actions))
    decreases |actions|
  {
    hide PutChar, PagePut, WindowShows;
    if actions != [] {
      match actions[0]
      case Put(c) =>
        PutShows(s, p, c);
        StreamShows(PutChar(s, c), PagePut(p, c), actions[1..]);
      case SetColor(color) =>
        StreamShows(s.(color := color), p.(color := color), actions[1..]);
    }
  }

  lemma {:induction false} PutLeavesLinesAbove(p: Page, c: Char8)
    requires IsPage(p)
    ensures var q := PagePut(p, c);
      IsPage(q) && p.row <= q.row && |p.lines| <= |q.lines| && forall r :: 0 <= r < p.row ==> q.lines[r] == p.lines[r]
  {
  }

  /** The page only grows, and lines above the cursor are never touched again. */
  lemma {:induction false} LinesAboveStay(p: Page, actions: seq<Action>)
    requires IsPage(p)
    ensures var q := PageAfter(p, actions);
      p.row <= q.row && |p.lines| <= |q.lines| && forall r :: 0 <= r < p.row ==> q.lines[r] == p.lines[r]
    decreases |actions|
  {
    hide PagePut;
    if actions != [] {
      match actions[0]
      case Put(c) =>
        PutLeavesLinesAbove(p, c);
        LinesAboveStay(PagePut(p, c), actions[1..]);
      case SetColor(color) => LinesAboveStay(p.(color := color), actions[1..]);
    }
  }
}
