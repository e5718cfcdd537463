/** Text on a grid of 80 columns without end: the meaning of the console in drivers/screen.c. */
module TextGrid {
  import opened Machine

  const COLS: nat := 80
  const ROWS: nat := 25
  const SCREEN: nat := COLS * ROWS
  const NEWLINE: byte := 10
  const WHITE_ON_BLACK: byte := 0x0f
  const RED_ON_WHITE: byte := 0xf4

  datatype Cell = Cell(c: byte, attr: byte)

  /** What the last row is filled with after scrolling. */
  const BLANK := Cell(0, 0)

  /** The cells written so far, row by row. Everything behind them is blank. */
  type Grid = seq<Cell>

  function CellAt(g: Grid, k: nat): Cell {
    if k < |g| then g[k] else BLANK
  }

  function Blanks(n: nat): (g: Grid)
    ensures |g| == n && forall i :: 0 <= i < n ==> g[i] == BLANK
  {
    seq(n, _ => BLANK)
  }

  function Put(g: Grid, k: nat, x: Cell): (g': Grid)
    ensures forall i: nat :: CellAt(g', i) == if i == k then x else CellAt(g, i)
    ensures |g| <= |g'|
  {
    if k < |g| then g[k := x] else g + Blanks(k - |g|) + [x]
  }

  /** One character at position p, and the position behind it. */
  function Step(g: Grid, p: nat, c: byte, attr: byte): (Grid, nat) {
    if c == NEWLINE then (g, (p / COLS + 1) * COLS) else (Put(g, p, Cell(c, attr)), p + 1)
  }

  /** A text laid out from position p on. */
  function Laid(g: Grid, p: nat, text: seq<byte>, attr: byte): (r: (Grid, nat))
    decreases |text|
  {
    if text == [] then (g, p) else Laid(Step(g, p, text[0], attr).0, Step(g, p, text[0], attr).1, text[1..], attr)
  }

  /** Laying out text only moves on, and leaves what is in front of it alone. */
  lemma {:induction false} LaidKeeps(g: Grid, p: nat, text: seq<byte>, attr: byte)
    ensures p <= Laid(g, p, text, attr).1
    ensures forall i: nat :: i < p ==> CellAt(Laid(g, p, text, attr).0, i) == CellAt(g, i)
    decreases |text|
  {
    if text != [] {
      LaidKeeps(Step(g, p, text[0], attr).0, Step(g, p, text[0], attr).1, text[1..], attr);
    }
  }

  /** Texts laid out one after the other are laid out as one. */
  lemma {:induction false} LaidJoins(g: Grid, p: nat, a: seq<byte>, b: seq<byte>, attr: byte)
    ensures var (g', p') := Laid(g, p, a, attr); Laid(g, p, a + b, attr) == Laid(g', p', b, attr)
    decreases |a|
  {
    if a == [] {
      assert a + b == b;
    } else {
      assert (a + b)[1..] == a[1..] + b;
      LaidJoins(Step(g, p, a[0], attr).0, Step(g, p, a[0], attr).1, a[1..], b, attr);
    }
  }

  // ---------------------------------------------------------------------------------------------
  // Where a text stands

  /** g' is g with the text in the cells from p on, one character to a cell. */
  ghost predicate Stands(g: Grid, p: nat, text: seq<byte>, attr: byte, g': Grid) {
    forall i: nat ::
      CellAt(g', i) == if p <= i < p + |text| then Cell(text[i - p], attr) else CellAt(g, i)
  }

  /** The next row begins at q: at the least multiple of 80 above p. */
  predicate NextRow(p: nat, q: nat) {
    q % COLS == 0 && p < q <= p + COLS
  }

  /** A character other than a newline fills its cell and moves on to the next; a newline fills none and moves on to
      the next row. */
  ghost predicate Entered(g: Grid, p: nat, c: byte, attr: byte, g': Grid, q: nat) {
    if c == NEWLINE then g' == g && NextRow(p, q) else Stands(g, p, [c], attr, g') && q == p + 1
  }

  lemma OneLaid(g: Grid, p: nat, c: byte, attr: byte)
    ensures var (g', q) := Step(g, p, c, attr); Entered(g, p, c, attr, g', q)
  {
  }

  /** A text on one line fills exactly the cells from p on. */
  lemma {:induction false} LineLaid(g: Grid, p: nat, text: seq<byte>, attr: byte)
    requires NEWLINE !in text
    ensures var (g', q) := Laid(g, p, text, attr); Stands(g, p, text, attr, g') && q == p + |text|
    decreases |text|
  {
    if text != [] {
      var (g', q) := Step(g, p, text[0], attr);
      OneLaid(g, p, text[0], attr);
      LineLaid(g', q, text[1..], attr);
    }
  }

  /** Lines with newlines between them. */
  function Joined(lines: seq<seq<byte>>): seq<byte>
    requires lines != []
  {
    if |lines| == 1 then lines[0] else lines[0] + [NEWLINE] + Joined(lines[1..])
  }

  /** How many rows lines take from column 0 on, each with a newline behind it. */
  function Rows(lines: seq<seq<byte>>): nat {
    if lines == [] then 0 else |lines[0]| / COLS + 1 + Rows(lines[1..])
  }

  /** As many as there are lines, if these are shorter than a row. */
  lemma {:induction false} ShortRows(lines: seq<seq<byte>>)
    requires forall l :: l in lines ==> |l| < COLS
    ensures Rows(lines) == |lines|
  {
    if lines != [] {
      ShortRows(lines[1..]);
    }
  }

  lemma NextRowAt(p: nat, n: nat, q: nat)
    requires p % COLS == 0 && NextRow(p + n, q)
    ensures q == p + COLS * (n / COLS + 1)
  {
    assert p == p / COLS * COLS && q == q / COLS * COLS;
  }

  /** Laying out several lines is laying out the first, and the others from the next row on. */
  lemma FirstLine(g: Grid, p: nat, lines: seq<seq<byte>>, attr: byte) returns (g': Grid, q: nat)
    requires |lines| > 1 && p % COLS == 0 && NEWLINE !in lines[0]
    ensures Stands(g, p, lines[0], attr, g') && q == p + COLS * (|lines[0]| / COLS + 1)
    ensures Laid(g, p, Joined(lines), attr) == Laid(g', q, Joined(lines[1..]), attr)
  {
    hide Stands, NextRow, Step;
    var rest := [NEWLINE] + Joined(lines[1..]);
    LineLaid(g, p, lines[0], attr);
    g' := Laid(g, p, lines[0], attr).0;
    LaidJoins(g, p, lines[0], rest, attr);
    assert lines[0] + rest == Joined(lines);
    OneLaid(g', p + |lines[0]|, NEWLINE, attr);
    q := Step(g', p + |lines[0]|, NEWLINE, attr).1;
    NextRowAt(p, |lines[0]|, q);
    assert rest[1..] == Joined(lines[1..]);
  }

  lemma JoinedOne(lines: seq<seq<byte>>)
    requires |lines| == 1
    ensures Joined(lines) == lines[0]
  {
  }

  lemma FirstStands(g: Grid, p: nat, text: seq<byte>, attr: byte, g': Grid)
    ensures Stands(g, p, text, attr, g') ==>
      forall i :: 0 <= i < |text| ==> CellAt(g', p + i) == Cell(text[i], attr)
  {
  }

  /** Each line of a text printed from column 0 on stands at column 0 of the row behind those that the lines in
      front of it take, and the text ends behind its last line. */
  lemma {:induction false} LinesLaid(g: Grid, p: nat, lines: seq<seq<byte>>, attr: byte, k: nat)
    requires p % COLS == 0 && k < |lines| && forall l :: l in lines ==> NEWLINE !in l
    ensures var (g', q) := Laid(g, p, Joined(lines), attr);
      && (forall i :: 0 <= i < |lines[k]| ==>
            CellAt(g', p + COLS * Rows(lines[..k]) + i) == Cell(lines[k][i], attr))
      && (k == |lines| - 1 ==> q == p + COLS * Rows(lines[..k]) + |lines[k]|)
    decreases |lines|
  {
    hide Laid, Joined, Stands;
    if |lines| == 1 {
      JoinedOne(lines);
      FirstStands(g, p, lines[0], attr, Laid(g, p, lines[0], attr).0);
      LineLaid(g, p, lines[0], attr);
    } else {
      var g1, p1 := FirstLine(g, p, lines, attr);
      if k == 0 {
        FirstStands(g, p, lines[0], attr, g1);
        LaidKeeps(g1, p1, Joined(lines[1..]), attr);
      } else {
        assert lines[..k][1..] == lines[1..][..k - 1];
        LinesLaid(g1, p1, lines[1..], attr, k - 1);
      }
    }
  }

  /** A cell in which none of the lines stands is left alone. */
  lemma {:induction false} OthersKept(g: Grid, p: nat, lines: seq<seq<byte>>, attr: byte, j: nat)
    requires p % COLS == 0 && lines != [] && forall l :: l in lines ==> NEWLINE !in l
    requires forall k :: 0 <= k < |lines| ==>
      !(p + COLS * Rows(lines[..k]) <= j < p + COLS * Rows(lines[..k]) + |lines[k]|)
    ensures CellAt(Laid(g, p, Joined(lines), attr).0, j) == CellAt(g, j)
    decreases |lines|
  {
    assert lines[..0] == [] && Rows(lines[..0]) == 0;
    if |lines| == 1 {
      LineLaid(g, p, lines[0], attr);
    } else {
      var g1, p1 := FirstLine(g, p, lines, attr);
      forall k | 0 <= k < |lines[1..]|
        ensures !(p1 + COLS * Rows(lines[1..][..k]) <= j < p1 + COLS * Rows(lines[1..][..k]) + |lines[1..][k]|)
      {
        assert lines[..k + 1][1..] == lines[1..][..k];
      }
      OthersKept(g1, p1, lines[1..], attr, j);
    }
  }

  // ---------------------------------------------------------------------------------------------
  // The window

  /** The 25 rows from row top on. */
  function Window(g: Grid, top: nat): (w: seq<Cell>)
    ensures |w| == SCREEN && forall k :: 0 <= k < SCREEN ==> w[k] == CellAt(g, top * COLS + k)
  {
    seq(SCREEN, k requires 0 <= k < SCREEN => CellAt(g, top * COLS + k))
  }

  /** How far the window has moved when position p has been reached. */
  function Scrolled(top: nat, p: nat): nat {
    if p < (top + ROWS) * COLS then top else p / COLS + 1 - ROWS
  }

  /** The window moves down only, only as far as it must, and then shows the position reached. */
  lemma ScrolledJustFar(top: nat, p: nat)
    ensures var s := Scrolled(top, p);
      top <= s && p < (s + ROWS) * COLS && (s > top ==> (s - 1 + ROWS) * COLS <= p)
  {
  }

  lemma ScrolledTwice(top: nat, p: nat, q: nat)
    requires p <= q
    ensures Scrolled(Scrolled(top, p), q) == Scrolled(top, q)
  {
  }

  // ---------------------------------------------------------------------------------------------
  // Printing at a place

  /** The grid, the first row in the window, and the position of the cursor on the grid. */
  datatype Console = Console(grid: Grid, top: nat, at: nat)

  const COMPLAINT := Cell('E' as int as byte, RED_ON_WHITE)

  /** The complaint about a place off the screen: an E in the last cell, while the cursor stays. */
  function Complained(k: Console): Console {
    k.(grid := Put(k.grid, k.top * COLS + (SCREEN - 1), COMPLAINT))
  }

  /** The complaint fills the last cell of the last row in the window, and moves nothing. */
  lemma ComplaintStands(k: Console)
    ensures var k' := Complained(k);
      && Stands(k.grid, (k.top + ROWS) * COLS - 1, ['E' as int as byte], RED_ON_WHITE, k'.grid)
      && k'.top == k.top && k'.at == k.at
  {
  }

  /** A character at cell l of the window. */
  function Typed(k: Console, l: nat, c: byte, attr: byte): Console {
    var (g, q) := Step(k.grid, k.top * COLS + l, c, attr);
    Console(g, Scrolled(k.top, q), q)
  }

  /** A text from cell l of the window on. If the place asked for is off the screen the first character is a
      complaint, and the next place is where the same offset leads. */
  function Printed(k: Console, l: nat, off: bool, text: seq<byte>): Console
    decreases |text|
  {
    if text == [] then k
    else if off then Printed(Complained(k), l, l >= SCREEN, text[1..])
    else
      var k' := Typed(k, l, text[0], WHITE_ON_BLACK);
      Printed(k', if k'.top * COLS <= k'.at then k'.at - k'.top * COLS else 0, false, text[1..])
  }

  /** On the screen, printing is laying out: whatever scrolls by, the grid is that of the text laid out without
      scrolling, and the window has moved just far enough to show the end. */
  lemma {:induction false} PrintedIsLaid(k: Console, l: nat, text: seq<byte>)
    requires l < SCREEN && text != []
    ensures var (g, q) := Laid(k.grid, k.top * COLS + l, text, WHITE_ON_BLACK);
      Printed(k, l, false, text) == Console(g, Scrolled(k.top, q), q)
    decreases |text|
  {
    var k' := Typed(k, l, text[0], WHITE_ON_BLACK);
    if |text| > 1 {
      var l' := k'.at - k'.top * COLS;
      assert 0 <= l' < SCREEN;
      PrintedIsLaid(k', l', text[1..]);
      LaidKeeps(k'.grid, k'.at, text[1..], WHITE_ON_BLACK);
      ScrolledTwice(k.top, k'.at, Laid(k'.grid, k'.at, text[1..], WHITE_ON_BLACK).1);
    }
  }

  lemma ComplainedTwice(k: Console)
    ensures Complained(Complained(k)) == Complained(k)
  {
  }

  /** From a place below the screen every character is a complaint; from one right of it only the first, and the rest
      is laid out from the row after. */
  lemma {:induction false} PrintedOff(k: Console, l: nat, text: seq<byte>)
    requires text != []
    ensures l >= SCREEN || |text| == 1 ==> Printed(k, l, true, text) == Complained(k)
    ensures l < SCREEN && |text| > 1 ==> Printed(k, l, true, text) == Printed(Complained(k), l, false, text[1..])
    decreases |text|
  {
    if |text| > 1 && l >= SCREEN {
      PrintedOff(Complained(k), l, text[1..]);
      ComplainedTwice(k);
    }
  }
}
