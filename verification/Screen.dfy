/** The text console of drivers/screen.c: 25 rows of 80 cells in video memory that scroll, proved to be a window on
    the grid on which the text is laid out without scrolling. */
module Screen {
  import opened Machine
  import opened TextGrid

  const BYTES: nat := 2 * SCREEN  // bytes of video memory

  /** The cells in video memory: a character and an attribute each. */
  function Cells(v: seq<byte>): (r: seq<Cell>)
    requires |v| == BYTES
    ensures |r| == SCREEN && forall k :: 0 <= k < SCREEN ==> r[k] == Cell(v[2 * k], v[2 * k + 1])
  {
    seq(SCREEN, k requires 0 <= k < SCREEN => Cell(v[2 * k], v[2 * k + 1]))
  }

  function GetOffset(col: int, row: int): int {
    2 * (row * COLS + col)
  }

  /** Division in C truncates. */
  function Quotient(a: int, b: nat): int
    requires b > 0
  {
    if a >= 0 then a / b else -(-a / b)
  }

  function GetOffsetRow(offset: int): int {
    Quotient(offset, 2 * COLS)
  }

  function GetOffsetCol(offset: int): int {
    Quotient(offset - GetOffsetRow(offset) * 2 * COLS, 2)
  }

  /** Row and column of an offset on the screen lead back to the offset. */
  lemma OffsetParts(offset: int)
    requires 0 <= offset && offset % 2 == 0
    ensures GetOffset(GetOffsetCol(offset), GetOffsetRow(offset)) == offset
    ensures 0 <= GetOffsetCol(offset) < COLS && 0 <= GetOffsetRow(offset)
    ensures offset < BYTES <==> GetOffsetRow(offset) < ROWS
  {
  }

  method Memcpy(mem: array<byte>, source: nat, dest: nat, n: nat)
    requires dest + n <= source && source + n <= mem.Length
    modifies mem
    ensures forall k :: dest <= k < dest + n ==> mem[k] == old(mem[k - dest + source])
    ensures forall k :: 0 <= k < mem.Length && !(dest <= k < dest + n) ==> mem[k] == old(mem[k])
  {
    var i := 0;
    while i < n
      invariant 0 <= i <= n
      invariant forall k :: dest <= k < dest + i ==> mem[k] == old(mem[k - dest + source])
      invariant forall k :: 0 <= k < mem.Length && !(dest <= k < dest + i) ==> mem[k] == old(mem[k])
    {
      mem[dest + i] := mem[source + i];
      i := i + 1;
    }
  }

  /** Moves every row up by one and blanks the last. */
  method Scroll(vid: array<byte>)
    requires vid.Length == BYTES
    modifies vid
    ensures vid[..] == old(vid[2 * COLS..]) + seq(2 * COLS, _ => 0)
  {
    ghost var was := vid[..];
    var i := 1;
    while i < ROWS
      invariant 1 <= i <= ROWS
      invariant forall k :: 0 <= k < 2 * COLS * (i - 1) ==> vid[k] == was[k + 2 * COLS]
      invariant forall k :: 2 * COLS * (i - 1) <= k < BYTES ==> vid[k] == was[k]
    {
      Memcpy(vid, GetOffset(0, i), GetOffset(0, i - 1), COLS * 2);
      i := i + 1;
    }
    var lastLine := GetOffset(0, ROWS - 1);
    i := 0;
    while i < COLS * 2
      invariant 0 <= i <= COLS * 2
      invariant forall k :: 0 <= k < lastLine ==> vid[k] == was[k + 2 * COLS]
      invariant forall k :: lastLine <= k < lastLine + i ==> vid[k] == 0
    {
      vid[lastLine + i] := 0;
      i := i + 1;
    }
  }

  /** The next row on the screen is the next row on the grid. */
  lemma NewRow(top: nat, offset: nat)
    requires offset % 2 == 0
    ensures top * COLS + GetOffset(0, GetOffsetRow(offset) + 1) / 2 == ((top * COLS + offset / 2) / COLS + 1) * COLS
  {
  }

  lemma WriteCell(v: seq<byte>, v': seq<byte>, k: nat, x: Cell)
    requires |v| == BYTES && k < SCREEN && v' == v[2 * k := x.c][2 * k + 1 := x.attr]
    ensures Cells(v') == Cells(v)[k := x]
  {
  }

  /** A cell written in the window is a cell written on the grid. */
  lemma WindowPut(g: Grid, top: nat, k: nat, x: Cell)
    requires k < SCREEN
    ensures Window(Put(g, top * COLS + k, x), top) == Window(g, top)[k := x]
  {
  }

  /** Scrolling the screen is moving the window, as long as nothing has been written behind it. */
  lemma WindowScroll(g: Grid, top: nat, v: seq<byte>, v': seq<byte>)
    requires |v| == BYTES && Cells(v) == Window(g, top) && |g| <= (top + ROWS) * COLS
    requires v' == v[2 * COLS..] + seq(2 * COLS, _ => 0)
    ensures Cells(v') == Window(g, top + 1)
  {
    forall k | 0 <= k < SCREEN ensures Cells(v')[k] == Window(g, top + 1)[k] {
      if k < SCREEN - COLS {
        assert Cells(v')[k] == Cells(v)[k + COLS];
      } else {
        assert CellAt(g, (top + 1) * COLS + k) == BLANK;
      }
    }
  }

  class Screen {
    const vid: array<byte>
    var high: byte
    var low: byte
    ghost var grid: Grid
    ghost var top: nat

    /** The cell that the cursor registers name. */
    function Cursor(): nat
      reads this
    {
      high * 0x100 + low
    }

    /** The screen shows the window from row top on of the grid, nothing is written behind it, and the cursor is
        on the screen. */
    ghost predicate Valid()
      reads this, vid
    {
      && vid.Length == BYTES && Cells(vid[..]) == Window(grid, top)
      && |grid| <= (top + ROWS) * COLS && Cursor() < SCREEN
    }

    ghost function State(): Console
      reads this
    {
      Console(grid, top, top * COLS + Cursor())
    }

    constructor (vid: array<byte>)
      requires vid.Length == BYTES
      ensures Valid() && this.vid == vid && Cursor() == 0 && top == 0
    {
      this.vid := vid;
      high, low, top := 0, 0, 0;
      grid := Cells(vid[..]);
    }

    method GetCursorOffset() returns (offset: int)
      ensures offset == 2 * Cursor()
    {
      offset := high * 0x100;
      offset := offset + low;
      offset := offset * 2;
    }

    /** The registers take the low 16 bits of the cell number. */
    method SetCursorOffset(offset: int)
      modifies this`high, this`low
      ensures Cursor() == Quotient(offset, 2) % 0x1_0000
    {
      var cell := Quotient(offset, 2);
      high := cell / 0x100 % 0x100;
      low := cell % 0x100;
    }

    /** A character and its attribute are stored at a cell. */
    method Store(k: nat, x: Cell)
      requires Valid() && k < SCREEN
      modifies this`grid, vid
      ensures Valid() && grid == Put(old(grid), top * COLS + k, x)
      ensures Cells(vid[..]) == old(Cells(vid[..]))[k := x]
    {
      ghost var v := vid[..];
      vid[2 * k] := x.c;
      vid[2 * k + 1] := x.attr;
      WriteCell(v, vid[..], k, x);
      WindowPut(grid, top, k, x);
      grid := Put(grid, top * COLS + k, x);
    }

    /** Scrolls if the offset is behind the screen. */
    method ScrollTo(start: int) returns (offset: int)
      requires vid.Length == BYTES && Cells(vid[..]) == Window(grid, top) && |grid| <= (top + ROWS) * COLS
      requires 0 <= start < BYTES + 2 * COLS && start % 2 == 0
      modifies this`top, this`high, this`low, vid
      ensures Valid() && offset == 2 * Cursor()
      ensures State() == Console(grid, Scrolled(old(top), old(top) * COLS + start / 2),
                                                                      old(top) * COLS + start / 2)
    {
      offset := start;
      if offset >= ROWS * COLS * 2 {
        WindowScroll(grid, top, vid[..], vid[2 * COLS..] + seq(2 * COLS, _ => 0));
        Scroll(vid);
        offset := offset - 2 * COLS;
        top := top + 1;
      }
      SetCursorOffset(offset);
    }

    /** The part of print_char that is done on the screen. */
    method TypeAt(start: int, c: byte, attr: byte) returns (offset: int)
      requires Valid() && 0 <= start < BYTES && start % 2 == 0
      modifies this`grid, this`top, this`high, this`low, vid
      ensures Valid() && State() == Typed(old(State()), start / 2, c, attr) && offset == 2 * Cursor()
      ensures Entered(old(grid), old(top) * COLS + start / 2, c, attr, grid, top * COLS + Cursor())
    {
      OneLaid(grid, top * COLS + start / 2, c, attr);
      offset := start;
      if c == NEWLINE {
        NewRow(top, start);
        var row := GetOffsetRow(offset);
        offset := GetOffset(0, row + 1);
      } else {
        Store(offset / 2, Cell(c, attr));
        offset := offset + 2;
      }
      offset := ScrollTo(offset);
    }

    /** print_char. Off the screen to the right or below it complains; a negative place means the cursor. */
    method PrintChar(c: byte, col: int, row: int, attr: byte) returns (offset: int)
      requires Valid()
      modifies this`grid, this`top, this`high, this`low, vid
      ensures Valid()
      ensures var a := if attr == 0 then WHITE_ON_BLACK else attr;
        State() ==
          if col >= COLS || row >= ROWS then Complained(old(State()))
          else Typed(old(State()), if col >= 0 && row >= 0 then row * COLS + col else old(Cursor()), c, a)
      ensures offset == if col >= COLS || row >= ROWS then GetOffset(col, row) else 2 * Cursor()
      ensures col >= COLS || row >= ROWS ==>
        && Stands(old(grid), (top + ROWS) * COLS - 1, ['E' as int as byte], RED_ON_WHITE, grid)
        && top == old(top) && Cursor() == old(Cursor())
      ensures col < COLS && row < ROWS ==>
        Entered(old(grid), old(top) * COLS + if col >= 0 && row >= 0 then row * COLS + col else old(Cursor()),
          c, if attr == 0 then WHITE_ON_BLACK else attr, grid, top * COLS + Cursor())
    {
      var a := if attr == 0 then WHITE_ON_BLACK else attr;
      if col >= COLS || row >= ROWS {
        ComplaintStands(State());
        Store(SCREEN - 1, COMPLAINT);
        return GetOffset(col, row);
      }
      if col >= 0 && row >= 0 {
        offset := GetOffset(col, row);
      } else {
        offset := GetCursorOffset();
      }
      offset := TypeAt(offset, c, a);
    }

    /** One round of the loop of kprint_at: a character, and the place for the next one. */
    method PrintNext(c: byte, col: nat, row: nat, ghost rest: seq<byte>) returns (x: nat, y: nat)
      requires Valid()
      modifies this`grid, this`top, this`high, this`low, vid
      ensures Valid()
      ensures Printed(State(), y * COLS + x, x >= COLS || y >= ROWS, rest) ==
        Printed(old(State()), row * COLS + col, col >= COLS || row >= ROWS, [c] + rest)
    {
      hide Entered, Stands;
      assert ([c] + rest)[1..] == rest;
      var offset := PrintChar(c, col, row, WHITE_ON_BLACK);
      OffsetParts(offset);
      y := GetOffsetRow(offset);
      x := GetOffsetCol(offset);
    }

    /** kprint_at: from the place given or, if that is negative, from the cursor. The text ends at its NUL. */
    method KprintAt(message: seq<byte>, col: int, row: int)
      requires Valid() && |message| > 0 && message[|message| - 1] == 0 && 0 !in message[..|message| - 1]
      modifies this`grid, this`top, this`high, this`low, vid
      ensures Valid()
      ensures State() ==
        if col >= 0 && row >= 0 then
          Printed(old(State()), row * COLS + col, col >= COLS || row >= ROWS, message[..|message| - 1])
        else
          Printed(old(State()), old(Cursor()), false, message[..|message| - 1])
    {
      hide Typed, Complained, Scrolled, Window;
      var x, y := col, row;
      if !(x >= 0 && y >= 0) {
        var offset := GetCursorOffset();
        OffsetParts(offset);
        y := GetOffsetRow(offset);
        x := GetOffsetCol(offset);
      }
      ghost var n := |message| - 1;
      ghost var end := Printed(State(), y * COLS + x, x >= COLS || y >= ROWS, message[..n]);
      var i := 0;
      assert forall j :: 0 <= j < n ==> message[j] == message[..n][j] != 0;
      while message[i] != 0
        invariant 0 <= i <= n && Valid() && 0 <= x && 0 <= y
        invariant Printed(State(), y * COLS + x, x >= COLS || y >= ROWS, message[i..n]) == end
        decreases n - i
      {
        assert message[i..n] == [message[i]] + message[i + 1..n];
        x, y := PrintNext(message[i], x, y, message[i + 1..n]);
        i := i + 1;
      }
    }

    method Kprint(message: seq<byte>)
      requires Valid() && |message| > 0 && message[|message| - 1] == 0 && 0 !in message[..|message| - 1]
      modifies this`grid, this`top, this`high, this`low, vid
      ensures Valid()
      ensures var text := message[..|message| - 1];
        var (g, q) := Laid(old(grid), old(top) * COLS + old(Cursor()), text, WHITE_ON_BLACK);
        State() == Console(g, Scrolled(old(top), q), q)
      ensures NEWLINE !in message ==>
        && Stands(old(grid), old(top * COLS + Cursor()), message[..|message| - 1], WHITE_ON_BLACK, grid)
        && top * COLS + Cursor() == old(top * COLS + Cursor()) + |message| - 1
    {
      hide Stands, Window, CellAt;
      ghost var k := State();
      if NEWLINE !in message {
        LineLaid(grid, top * COLS + Cursor(), message[..|message| - 1], WHITE_ON_BLACK);
      }
      KprintAt(message, -1, -1);
      if message[..|message| - 1] != [] {
        PrintedIsLaid(k, k.at - k.top * COLS, message[..|message| - 1]);
      }
    }

    method BlankBehind(col: int, row: nat)
      requires Valid() && row < ROWS
      requires if Cursor() == 0 then col == -1 else 0 <= col < COLS && row * COLS + col == Cursor() - 1
      modifies this`grid, this`top, this`high, this`low, vid
      ensures Valid() && top == old(top) && Cursor() == Max(old(Cursor()), 1)
      ensures grid == Put(old(grid), top * COLS + Max(old(Cursor()) - 1, 0), Cell(' ' as int as byte, WHITE_ON_BLACK))
    {
      hide Entered, Stands;
      var next := PrintChar(' ' as int as byte, col, row, WHITE_ON_BLACK);
    }

    /** kprint_backspace: blanks the cell in front of the cursor and steps back to it, unless that would enter the
        prompt of a row that begins with '>'. With the cursor on the first cell it blanks that one instead and
        leaves the cursor far off the screen. */
    method KprintBackspace()
      requires Valid()
      modifies this`grid, this`top, this`high, this`low, vid
      ensures Valid() <==> old(Cursor()) > 0
      ensures top == old(top)
      ensures grid == Put(old(grid), top * COLS + Max(old(Cursor()) - 1, 0), Cell(' ' as int as byte, WHITE_ON_BLACK))
      ensures old(Cursor()) > 0 ==>
        var c := old(Cursor()) - 1;
        Cursor() == if c % COLS == 1 && CellAt(grid, top * COLS + c - 1).c == '>' as int then c + 1 else c
      ensures old(Cursor()) == 0 ==> Cursor() == 0xFFFF
    {
      var offset := GetCursorOffset();
      offset := offset - 2;
      var row := GetOffsetRow(offset);
      var col := GetOffsetCol(offset);
      BackOne(Cursor());
      BlankBehind(col, row);
      RowStart(vid[..], grid, top, row);
      StepBack(offset, col, row);
    }

    /** The cursor goes to the cell blanked, but not into the prompt. */
    method StepBack(offset: int, col: int, row: nat)
      requires vid.Length == BYTES && row < ROWS && -2 <= offset < BYTES && offset % 2 == 0
      modifies this`high, this`low
      ensures Cursor() ==
        if col > 1 || vid[2 * row * COLS] != '>' as int then (if offset < 0 then 0xFFFF else offset / 2)
        else old(Cursor())
    {
      if col > 1 || vid[GetOffset(0, row)] != '>' as int {
        SetCursorOffset(offset);
      }
    }

    /** clear_screen: every cell of the window becomes a space. */
    method ClearScreen()
      requires Valid()
      modifies this`grid, this`high, this`low, vid
      ensures Valid() && Cursor() == 0
      ensures forall k :: 0 <= k < SCREEN ==> Cells(vid[..])[k] == Cell(' ' as int as byte, WHITE_ON_BLACK)
      ensures forall k: nat :: k < top * COLS ==> CellAt(grid, k) == CellAt(old(grid), k)
    {
      var screenSize := COLS * ROWS;
      ghost var was := grid;
      var i := 0;
      while i < screenSize
        invariant 0 <= i <= screenSize && Valid()
        invariant forall k :: 0 <= k < i ==> Cells(vid[..])[k] == Cell(' ' as int as byte, WHITE_ON_BLACK)
        invariant forall k: nat :: k < top * COLS ==> CellAt(grid, k) == CellAt(was, k)
      {
        Store(i, Cell(' ' as int as byte, WHITE_ON_BLACK));
        i := i + 1;
      }
      SetCursorOffset(GetOffset(0, 0));
    }
  }

  /** Row and column of the cell in front of the cursor, in C's arithmetic. */
  lemma BackOne(cursor: nat)
    requires cursor < SCREEN
    ensures var row, col := GetOffsetRow(2 * cursor - 2), GetOffsetCol(2 * cursor - 2);
      if cursor == 0 then row == 0 && col == -1
      else col == (cursor - 1) % COLS && 0 <= row < ROWS && row * COLS + col == cursor - 1
  {
    if cursor > 0 {
      OffsetParts(2 * cursor - 2);
    }
  }

  /** The first character of a row. */
  lemma RowStart(v: seq<byte>, g: Grid, top: nat, row: nat)
    requires |v| == BYTES && Cells(v) == Window(g, top) && row < ROWS
    ensures GetOffset(0, row) < BYTES && v[GetOffset(0, row)] == CellAt(g, top * COLS + row * COLS).c
  {
    assert Cells(v)[row * COLS] == CellAt(g, top * COLS + row * COLS);
  }
}
