/** The VGA text terminal (kernel/kernel/drivers/tty.c): an 80x25 buffer that shows
    the end of an unbounded text. */
module Terminal {

  const WIDTH: nat := 80
  const HEIGHT: nat := 25
  const CELLS: nat := 2000
  const NEWLINE: nat := 10

  type Byte = x: int | 0 <= x < 256

  function VgaEntry(c: Byte, color: Byte): nat { c + 256 * color }

  /** Character and colour share a 16-bit cell and can be told apart again. */
  lemma EntryDecodes(c: Byte, color: Byte)
    ensures VgaEntry(c, color) < 0x1_0000 && VgaEntry(c, color) % 256 == c && VgaEntry(c, color) / 256 == color
  {
  }

  /** VGA_COLOR_LIGHT_GREEN on VGA_COLOR_BLACK. */
  const COLOR: Byte := 10

  function Blank(color: Byte): nat { VgaEntry(32, color) }

  type Buffer = b: seq<nat> | |b| == 2000 witness seq(2000, _ => 0)

  datatype Screen = Screen(row: nat, column: nat, color: Byte, cells: Buffer)

  function Initial(): Screen { Screen(0, 0, COLOR, seq(CELLS, _ => Blank(COLOR))) }

  function At(b: Buffer, y: nat, x: nat): nat
    requires y < HEIGHT && x < WIDTH
  {
    b[y * WIDTH + x]
  }

  function BlankLine(color: Byte): seq<nat> { seq(WIDTH, _ => Blank(color)) }

  /** One line up, the last line cleared. */
  function Scrolled(b: Buffer, color: Byte): Buffer { b[WIDTH..] + BlankLine(color) }

  function NextLine(s: Screen): Screen {
    if s.row + 1 == HEIGHT then s.(cells := Scrolled(s.cells, s.color), row := HEIGHT - 1, column := 0)
    else s.(row := s.row + 1, column := 0)
  }

  predicate CursorInside(s: Screen) { s.row < HEIGHT && s.column < WIDTH }

  function PutChar(s: Screen, c: Byte): Screen
    requires CursorInside(s)
  {
    if c == NEWLINE then NextLine(s) else
    var s1 := s.(cells := s.cells[s.row * WIDTH + s.column := VgaEntry(c, s.color)]);
    if s.column + 1 == WIDTH then NextLine(s1) else s1.(column := s.column + 1)
  }

  // ----- the unbounded terminal

  /** A line and the blank that fills its rest. */
  datatype Line = Line(cells: seq<nat>, blank: nat)

  /** The blank of the line after `n` others: the screen starts out cleared, later
      lines are cleared when they scroll in. */
  function LineBlank(n: nat, color: Byte): nat { Blank(if n < HEIGHT then COLOR else color) }

  function Begin(text: seq<Line>, color: Byte): seq<Line> { text + [Line([], LineBlank(|text|, color))] }

  /** All lines ever begun; the cursor is at the end of the last one. A line that
      reaches the width is ended at once. */
  function Feed(text: seq<Line>, c: Byte, color: Byte): (r: seq<Line>)
    requires text != []
    ensures r != []
  {
    var n := |text| - 1;
    if c == NEWLINE then Begin(text, color) else
    var l := text[n].(cells := text[n].cells + [VgaEntry(c, color)]);
    if |l.cells| == WIDTH then Begin(text[..n] + [l], color) else text[..n] + [l]
  }

  /** Cell `x` of line `y`, blank beyond the text. */
  function CellAt(text: seq<Line>, y: nat, x: nat): nat {
    if y < |text| then (if x < |text[y].cells| then text[y].cells[x] else text[y].blank) else Blank(COLOR)
  }

  /** First line on the screen. */
  function Top(text: seq<Line>): nat { if |text| > HEIGHT then |text| - HEIGHT else 0 }

  ghost predicate CellsShow(cells: Buffer, text: seq<Line>) {
    forall y, x :: 0 <= y < HEIGHT && 0 <= x < WIDTH ==> At(cells, y, x) == CellAt(text, Top(text) + y, x)
  }

  ghost predicate Shows(s: Screen, text: seq<Line>) {
    && text != []
    && |text[|text| - 1].cells| < WIDTH
    && (forall y :: 0 <= y < |text| ==> |text[y].cells| <= WIDTH)
    && s.row == |text| - 1 - Top(text)
    && s.column == |text[|text| - 1].cells|
    && CellsShow(s.cells, text)
  }

  // ----- refinement

  lemma ScrolledAt(b: Buffer, color: Byte, y: nat, x: nat)
    requires y < HEIGHT && x < WIDTH
    ensures At(Scrolled(b, color), y, x) == if y + 1 < HEIGHT then At(b, y + 1, x) else Blank(color)
  {
  }

  /** Beginning a new line, scrolling if the screen is full. */
  lemma NextLineShows(s: Screen, text: seq<Line>)
    requires text != [] && s.row == |text| - 1 - Top(text) && CellsShow(s.cells, text)
    requires forall y :: 0 <= y < |text| ==> |text[y].cells| <= WIDTH
    ensures Shows(NextLine(s), Begin(text, s.color))
  {
    var s', text' := NextLine(s), Begin(text, s.color);
    forall y, x | 0 <= y < HEIGHT && 0 <= x < WIDTH
      ensures At(s'.cells, y, x) == CellAt(text', Top(text') + y, x)
    {
      var d := if s.row + 1 == HEIGHT then 1 else 0;
      assert Top(text') == Top(text) + d;
      if d == 1 { ScrolledAt(s.cells, s.color, y, x); }
      if y + d < HEIGHT {
        assert At(s'.cells, y, x) == At(s.cells, y + d, x) == CellAt(text, Top(text) + (y + d), x);
      }
    }
  }

  lemma PutCharShows(s: Screen, text: seq<Line>, c: Byte)
    requires CursorInside(s) && Shows(s, text)
    ensures Shows(PutChar(s, c), Feed(text, c, s.color)) && CursorInside(PutChar(s, c))
  {
    var n := |text| - 1;
    if c == NEWLINE {
      NextLineShows(s, text);
    } else {
      var l := text[n].(cells := text[n].cells + [VgaEntry(c, s.color)]);
      var mid := text[..n] + [l];
      var s1 := s.(cells := s.cells[s.row * WIDTH + s.column := VgaEntry(c, s.color)]);
      forall y, x | 0 <= y < HEIGHT && 0 <= x < WIDTH ensures At(s1.cells, y, x) == CellAt(mid, Top(mid) + y, x) {
        assert At(s.cells, y, x) == CellAt(text, Top(text) + y, x);
        assert y * WIDTH + x == s.row * WIDTH + s.column <==> y == s.row && x == s.column;
      }
      if |l.cells| == WIDTH { NextLineShows(s1, mid); }
    }
  }

  // ----- runs

  datatype Output = Character(c: Byte) | SetColor(color: Byte)

  function Apply(s: Screen, o: Output): Screen
    requires CursorInside(s)
  {
    match o
    case Character(c) => PutChar(s, c)
    case SetColor(color) => s.(color := color)
  }

  function ApplyAll(s: Screen, outputs: seq<Output>): (r: Screen)
    requires CursorInside(s)
    ensures CursorInside(r)
  {
    if outputs == [] then s else Apply(ApplyAll(s, outputs[..|outputs| - 1]), outputs[|outputs| - 1])
  }

  /** The unbounded text, and the colour in force. */
  function Written(outputs: seq<Output>): (r: (seq<Line>, Byte))
    ensures r.0 != []
  {
    if outputs == [] then (Begin([], COLOR), COLOR) else
    var (text, color) := Written(outputs[..|outputs| - 1]);
    match outputs[|outputs| - 1]
    case Character(c) => (Feed(text, c, color), color)
    case SetColor(next) => (text, next)
  }

  /** Whatever is written after `terminal_initialize`, in whatever colours, the
      cursor stays inside and the buffer shows the last 25 lines of the unbounded
      terminal. */
  lemma {:induction false} ScreenShowsEndOfText(outputs: seq<Output>)
    ensures Shows(ApplyAll(Initial(), outputs), Written(outputs).0)
    ensures ApplyAll(Initial(), outputs).color == Written(outputs).1
  {
    hide PutChar, Feed, CellsShow;
    if outputs == [] {
      InitialShows();
    } else {
      var rest := outputs[..|outputs| - 1];
      ScreenShowsEndOfText(rest);
      var s, text := ApplyAll(Initial(), rest), Written(rest).0;
      match outputs[|outputs| - 1]
      case Character(c) => PutCharShows(s, text, c); KeepsColor(s, c);
      case SetColor(_) =>
    }
  }

  /** A fresh screen is all spaces, light green on black, with the cursor at the top
      left. */
  lemma InitialShows()
    ensures Shows(Initial(), Begin([], COLOR))
    ensures Initial().row == 0 && Initial().column == 0 && Initial().color == 0x0A
    ensures forall i :: 0 <= i < 80 * 25 ==> Initial().cells[i] == 0x0A20
  {
  }

  lemma KeepsColor(s: Screen, c: Byte)
    requires CursorInside(s)
    ensures PutChar(s, c).color == s.color
  {
  }

  function Characters(data: seq<Byte>): seq<Output> {
    seq(|data|, i requires 0 <= i < |data| => Character(data[i]))
  }

  /** Outputs in sequence: what one call leaves, the next goes on from. */
  lemma {:induction false} ApplyInSequence(s: Screen, a: seq<Output>, b: seq<Output>)
    requires CursorInside(s)
    ensures ApplyAll(s, a + b) == ApplyAll(ApplyAll(s, a), b)
  {
    hide Apply;
    if b == [] {
      assert a + b == a;
    } else {
      ApplyInSequence(s, a, b[..|b| - 1]);
      assert (a + b)[..|a + b| - 1] == a + b[..|b| - 1];
    }
  }

  // ----- the driver

  class Tty {
    var row: nat
    var column: nat
    var color: Byte
    const buffer: array<nat>

    ghost predicate Valid()
      reads this
    {
      buffer.Length == CELLS && row < HEIGHT && column < WIDTH
    }

    ghost function State(): Screen
      requires buffer.Length == CELLS
      reads this, buffer
    {
      Screen(row, column, color, buffer[..])
    }

    /** `terminal_initialize`. */
    constructor ()
      ensures Valid() && fresh(buffer) && State() == Initial()
    {
      row, column, color := 0, 0, COLOR;
      buffer := new nat[CELLS];
      new;
      for y := 0 to HEIGHT
        invariant Valid() && row == 0 && column == 0 && color == COLOR
        invariant forall i :: 0 <= i < y * WIDTH ==> buffer[i] == Blank(COLOR)
      {
        for x := 0 to WIDTH
          invariant Valid() && row == 0 && column == 0 && color == COLOR
          invariant forall i :: 0 <= i < y * WIDTH + x ==> buffer[i] == Blank(COLOR)
        {
          buffer[y * WIDTH + x] := VgaEntry(32, color);
        }
      }
      assert buffer[..] == Initial().cells;
    }

    method PutEntryAt(c: Byte, color: Byte, x: nat, y: nat)
      requires buffer.Length == CELLS && x < WIDTH && y < HEIGHT
      modifies buffer
      ensures buffer[..] == old(buffer[..])[y * WIDTH + x := VgaEntry(c, color)]
    {
      buffer[y * WIDTH + x] := VgaEntry(c, color);
    }

    method DeleteLastLine()
      requires buffer.Length == CELLS
      modifies buffer
      ensures buffer[..] == old(buffer[..])[..CELLS - WIDTH] + BlankLine(color)
    {
      for x := 0 to WIDTH
        invariant forall i :: 0 <= i < CELLS - WIDTH ==> buffer[i] == old(buffer[i])
        invariant forall i :: CELLS - WIDTH <= i < CELLS - WIDTH + x ==> buffer[i] == Blank(color)
      {
        buffer[x + (HEIGHT - 1) * WIDTH] := VgaEntry(32, color);
      }
      assert buffer[..] == old(buffer[..])[..CELLS - WIDTH] + BlankLine(color);
    }

    method Scroll()
      requires buffer.Length == CELLS
      modifies buffer
      ensures buffer[..] == Scrolled(old(buffer[..]), color)
    {
      ghost var b := buffer[..];
      for y := 1 to HEIGHT
        invariant forall i :: 0 <= i < (y - 1) * WIDTH ==> buffer[i] == b[i + WIDTH]
        invariant forall i :: (y - 1) * WIDTH <= i < CELLS ==> buffer[i] == b[i]
      {
        for x := 0 to WIDTH
          invariant forall i :: 0 <= i < (y - 1) * WIDTH + x ==> buffer[i] == b[i + WIDTH]
          invariant forall i :: (y - 1) * WIDTH + x <= i < CELLS ==> buffer[i] == b[i]
        {
          var index := y * WIDTH + x;
          buffer[index - WIDTH] := buffer[index];
        }
      }
      assert buffer[..CELLS - WIDTH] == b[WIDTH..];
      DeleteLastLine();
    }

    method Put(c: Byte)
      requires Valid()
      modifies this, buffer
      ensures Valid() && State() == PutChar(old(State()), c)
    {
      if c == NEWLINE {
        row := row + 1;
        if row == HEIGHT {
          Scroll();
          row := HEIGHT - 1;
        }
        column := 0;
        return;
      }
      PutEntryAt(c, color, column, row);
      column := column + 1;
      if column == WIDTH {
        column := 0;
        row := row + 1;
        if row == HEIGHT {
          Scroll();
          row := HEIGHT - 1;
        }
      }
    }

    method SetColor(next: Byte)
      requires Valid()
      modifies this`color
      ensures Valid() && State() == Apply(old(State()), Output.SetColor(next))
    {
      color := next;
    }

    /** `terminal_write`. */
    method Write(data: seq<Byte>)
      requires Valid()
      modifies this, buffer
      ensures Valid() && State() == ApplyAll(old(State()), Characters(data))
    {
      hide PutChar;
      for i := 0 to |data|
        invariant Valid() && State() == ApplyAll(old(State()), Characters(data[..i]))
      {
        assert Characters(data[..i + 1])[..i] == Characters(data[..i]);
        Put(data[i]);
      }
      assert data[..|data|] == data;
    }
  }
}
