/** The console as a page without bottom: what conio.c prints, before any scrolling. */
module Pages {

  import opened Words

  const CON_WIDTH: nat := 80
  const CON_HEIGHT: nat := 25
  const NEWLINE: Byte := 10

  datatype Cell = Cell(ch: Byte, col: Byte)

  type Row = r: seq<Cell> | |r| == 80 witness seq(80, _ => Cell(0, 0))

  /** All rows ever begun, and the cursor on them; the screen is the last 25. */
  datatype Page = Page(rows: seq<Row>, x: nat, y: nat)
  {
    predicate Ok() {
      25 <= |rows| && x < 80 && |rows| - 25 <= y < |rows|
    }

    /** The cells in reading order. */
    function Offset(): nat {
      80 * y + x
    }
  }

  function BlankRow(col: Byte): Row {
    seq(80, _ => Cell(0, col))
  }

  /** A row below the last takes over the colour of the last row's last cell. */
  function WithRow(p: Page): (r: Page)
    requires 25 <= |p.rows| && p.x < 80 && |p.rows| - 25 <= p.y <= |p.rows|
    ensures r.Ok() && r.x == p.x && r.y == p.y && |r.rows| == (if p.y == |p.rows| then |p.rows| + 1 else |p.rows|)
  {
    if p.y == |p.rows| then p.(rows := p.rows + [BlankRow(p.rows[|p.rows| - 1][79].col)]) else p
  }

  function PutChar(p: Page, ch: Byte, col: Byte): (r: Page)
    requires p.Ok()
    ensures r.Ok()
  {
    if ch == NEWLINE then WithRow(p.(x := 0, y := p.y + 1))
    else
      var row: Row := p.rows[p.y][p.x := Cell(ch, col)];
      var q := p.(rows := p.rows[p.y := row]);
      if p.x + 1 < 80 then q.(x := p.x + 1) else WithRow(q.(x := 0, y := p.y + 1))
  }

  function PutAll(p: Page, s: seq<Byte>, col: Byte): (r: Page)
    requires p.Ok()
    ensures r.Ok()
    decreases |s|
  {
    if s == [] then p else PutAll(PutChar(p, s[0], col), s[1..], col)
  }

  // ----- the layout of a text -----

  /** Where the cursor stands after a text, on a page of which only the width matters. */
  function Layout(x: nat, y: nat, s: seq<Byte>): (r: (nat, nat))
    decreases |s|
  {
    if s == [] then (x, y)
    else if s[0] == NEWLINE || x + 1 >= 80 then Layout(0, y + 1, s[1..])
    else Layout(x + 1, y, s[1..])
  }

  lemma {:induction false} LayoutConcat(x: nat, y: nat, s: seq<Byte>, t: seq<Byte>)
    ensures Layout(x, y, s + t) == Layout(Layout(x, y, s).0, Layout(x, y, s).1, t)
    decreases |s|
  {
    if s == [] {
      assert s + t == t;
    } else {
      assert (s + t)[1..] == s[1..] + t;
      if s[0] == NEWLINE || x + 1 >= 80 { LayoutConcat(0, y + 1, s[1..], t); } else { LayoutConcat(x + 1, y, s[1..], t); }
    }
  }

  lemma {:induction false} LayoutInRow(x: nat, y: nat, s: seq<Byte>)
    requires x < 80
    ensures Layout(x, y, s).0 < 80 && Layout(x, y, s).1 >= y
    decreases |s|
  {
    if s != [] {
      if s[0] == NEWLINE || x + 1 >= 80 { LayoutInRow(0, y + 1, s[1..]); } else { LayoutInRow(x + 1, y, s[1..]); }
    }
  }

  /** A text without a line feed, byte 10, moves the cursor on by its length in reading order. */
  lemma {:induction false} LayoutOfLine(x: nat, y: nat, s: seq<Byte>)
    requires x < 80 && 10 !in s
    ensures Layout(x, y, s) == ((x + |s|) % 80, y + (x + |s|) / 80)
    decreases |s|
  {
    if s != [] {
      if x + 1 >= 80 { LayoutOfLine(0, y + 1, s[1..]); } else { LayoutOfLine(x + 1, y, s[1..]); }
    }
  }

  /** A line feed, byte 10, moves it to column 0 of the row below; the rest is laid out from there. */
  lemma LayoutAfterLineFeed(x: nat, y: nat, s: seq<Byte>, line: seq<Byte>)
    requires 10 !in line
    ensures Layout(x, y, s + [10] + line) == (|line| % 80, Layout(x, y, s).1 + 1 + |line| / 80)
  {
    LayoutConcat(x, y, s + [10], line);
    LayoutConcat(x, y, s, [10]);
    LayoutOfLine(0, Layout(x, y, s).1 + 1, line);
  }

  /** Printing moves the cursor as the layout says, and begins just the rows needed to hold it. */
  lemma {:induction false} PrintingFollowsLayout(p: Page, s: seq<Byte>, col: Byte)
    requires p.Ok()
    ensures var r := PutAll(p, s, col);
            && (r.x, r.y) == Layout(p.x, p.y, s)
            && |r.rows| == (if r.y < |p.rows| then |p.rows| else r.y + 1) && p.y <= r.y
    decreases |s|
  {
    if s != [] {
      PrintingFollowsLayout(PutChar(p, s[0], col), s[1..], col);
    }
  }

  /** A single character changes no cell before or after the cursor on the rows there are. */
  lemma PutCharTouchesCursor(p: Page, ch: Byte, col: Byte, r: nat, c: nat)
    requires p.Ok() && r < |p.rows| && c < 80 && (80 * r + c != p.Offset() || ch == 10)
    ensures r < |PutChar(p, ch, col).rows| && PutChar(p, ch, col).rows[r][c] == p.rows[r][c]
  {
    if ch != NEWLINE {
      assert !(r == p.y && c == p.x);
      var row: Row := p.rows[p.y][p.x := Cell(ch, col)];
      var rows: seq<Row> := p.rows[p.y := row];
      assert rows[r][c] == p.rows[r][c];
    }
  }

  lemma PutCharMovesOn(p: Page, ch: Byte, col: Byte)
    requires p.Ok()
    ensures PutChar(p, ch, col).Offset() > p.Offset() && |PutChar(p, ch, col).rows| >= |p.rows|
  {
  }

  /** What is printed stays: no later character reaches a cell before the cursor. */
  lemma {:induction false} PrintingKeepsWhatIsAbove(p: Page, s: seq<Byte>, col: Byte, r: nat, c: nat)
    requires p.Ok() && r < |p.rows| && c < 80 && 80 * r + c < p.Offset()
    ensures r < |PutAll(p, s, col).rows| && PutAll(p, s, col).rows[r][c] == p.rows[r][c]
    decreases |s|
  {
    if s != [] {
      PutCharTouchesCursor(p, s[0], col, r, c);
      PutCharMovesOn(p, s[0], col);
      PrintingKeepsWhatIsAbove(PutChar(p, s[0], col), s[1..], col, r, c);
    }
  }

  /** Every printed character stands, in its colour, where the layout of the text before it ends. */
  lemma {:induction false} CharacterAtItsPlace(p: Page, s: seq<Byte>, col: Byte, i: nat)
    requires p.Ok() && i < |s| && s[i] != 10
    ensures var (x, y) := Layout(p.x, p.y, s[..i]); var r := PutAll(p, s, col);
            x < 80 && y < |r.rows| && r.rows[y][x] == Cell(s[i], col)
    decreases |s|
  {
    var q := PutChar(p, s[0], col);
    if i == 0 {
      var row: Row := p.rows[p.y][p.x := Cell(s[0], col)];
      var rows: seq<Row> := p.rows[p.y := row];
      assert rows[p.y][p.x] == Cell(s[0], col);
      PutCharMovesOn(p, s[0], col);
      PrintingKeepsWhatIsAbove(q, s[1..], col, p.y, p.x);
    } else {
      assert s[..i][1..] == s[1..][..i - 1];
      CharacterAtItsPlace(q, s[1..], col, i - 1);
    }
  }

  /** The text puts a character at offset k. */
  predicate Writes(x: nat, y: nat, s: seq<Byte>, k: nat) {
    exists i :: 0 <= i < |s| && s[i] != 10 && k == 80 * Layout(x, y, s[..i]).1 + Layout(x, y, s[..i]).0
  }

  lemma WritesFirst(p: Page, s: seq<Byte>, col: Byte, k: nat)
    requires p.Ok() && s != []
    ensures s[0] != 10 ==> Writes(p.x, p.y, s, p.Offset())
    ensures Writes(PutChar(p, s[0], col).x, PutChar(p, s[0], col).y, s[1..], k) ==> Writes(p.x, p.y, s, k)
  {
    var q := PutChar(p, s[0], col);
    assert Layout(p.x, p.y, s[..0]) == (p.x, p.y);
    if Writes(q.x, q.y, s[1..], k) {
      var i :| 0 <= i < |s[1..]| && s[1..][i] != 10
               && k == 80 * Layout(q.x, q.y, s[1..][..i]).1 + Layout(q.x, q.y, s[1..][..i]).0;
      assert s[..i + 1][1..] == s[1..][..i];
      assert Layout(p.x, p.y, s[..i + 1]) == Layout(q.x, q.y, s[1..][..i]);
      assert s[i + 1] != 10;
    }
  }

  /** And nothing else changes: a cell the text does not write keeps what it held, or if its row is new
      is blank, in the colour that the last cell of the row above has. */
  lemma {:induction false} OtherCellsUntouched(p: Page, s: seq<Byte>, col: Byte, r: nat, c: nat)
    requires p.Ok() && c < 80 && r < |PutAll(p, s, col).rows| && !Writes(p.x, p.y, s, 80 * r + c)
    ensures if r < |p.rows| then PutAll(p, s, col).rows[r][c] == p.rows[r][c]
            else PutAll(p, s, col).rows[r][c] == Cell(0, PutAll(p, s, col).rows[r - 1][79].col)
    decreases |s|
  {
    if s != [] {
      var q := PutChar(p, s[0], col);
      WritesFirst(p, s, col, 80 * r + c);
      OtherCellsUntouched(q, s[1..], col, r, c);
      if r < |p.rows| {
        PutCharTouchesCursor(p, s[0], col, r, c);
      } else if r < |q.rows| {
        NewRow(p, s[0], col, c);
        PrintingKeepsWhatIsAbove(q, s[1..], col, r - 1, 79);
      }
    }
  }

  /** A row is begun under the cursor, in the colour of the cell before it. */
  lemma NewRow(p: Page, ch: Byte, col: Byte, c: nat)
    requires p.Ok() && c < 80 && |PutChar(p, ch, col).rows| > |p.rows|
    ensures var q := PutChar(p, ch, col); var r := |p.rows|;
            |q.rows| == r + 1 && q.y == r && q.rows[r][c] == Cell(0, q.rows[r - 1][79].col)
  {
  }
}
