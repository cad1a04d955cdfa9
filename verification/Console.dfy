/** kernel/src/bios/vga.c and kernel/src/lib/conio.c on the 80x25 text memory: a window on a page. */
module Console {
  import opened Pages
  import opened Words

  /** The bytes of the last 25 rows, character and colour alternating. */
  function Screen(rows: seq<Row>): (v: seq<Byte>)
    requires |rows| >= 25
    ensures |v| == 4000
  {
    seq(4000, i requires 0 <= i < 4000 =>
      var cell := rows[|rows| - 25 + i / 160][i % 160 / 2];
      if i % 2 == 0 then cell.ch else cell.col)
  }

  /** VGA_scroll_down as a function: rows up by one, the last row blank in the colour of the last cell. */
  function Scrolled(v: seq<Byte>): (r: seq<Byte>)
    requires |v| == 4000
    ensures |r| == 4000
  {
    v[160..] + seq(160, i => if i % 2 == 0 then 0 else v[3999])
  }

  lemma ScreenByte(rows: seq<Row>, i: nat)
    requires |rows| >= 25 && i < 4000
    ensures var cell := rows[|rows| - 25 + i / 160][i % 160 / 2];
            Screen(rows)[i] == if i % 2 == 0 then cell.ch else cell.col
  {
  }

  lemma RowsMovedUp(rows: seq<Row>, longer: seq<Row>, i: nat)
    requires |rows| >= 25 && |longer| == |rows| + 1 && longer[..|rows|] == rows && i < 3840
    ensures Screen(longer)[i] == Screen(rows)[i + 160]
  {
    ScreenByte(longer, i);
    ScreenByte(rows, i + 160);
    assert (i + 160) / 160 == i / 160 + 1 && (i + 160) % 160 == i % 160;
    var k := |rows| - 24 + i / 160;
    assert longer[k] == longer[..|rows|][k];
  }

  lemma LastRowShown(rows: seq<Row>, i: nat)
    requires |rows| >= 25 && 3840 <= i < 4000
    ensures var cell := rows[|rows| - 1][i % 160 / 2];
            Screen(rows)[i] == if i % 2 == 0 then cell.ch else cell.col
  {
    ScreenByte(rows, i);
    assert i / 160 == 24;
  }

  lemma BlankRowShown(rows: seq<Row>, col: Byte, i: nat)
    requires |rows| >= 25 && 3840 <= i < 4000
    ensures Screen(rows + [BlankRow(col)])[i] == if i % 2 == 0 then 0 else col
  {
    LastRowShown(rows + [BlankRow(col)], i);
  }

  lemma ScrolledByte(v: seq<Byte>, i: nat)
    requires |v| == 4000 && i < 4000
    ensures Scrolled(v)[i] == if i < 3840 then v[i + 160] else if i % 2 == 0 then 0 else v[3999]
  {
    if i >= 3840 { assert Scrolled(v)[i] == seq(160, k => if k % 2 == 0 then 0 else v[3999])[i - 3840]; }
  }

  /** Scrolling the screen is starting a row on the page. */
  lemma ScrollIsNewRow(rows: seq<Row>)
    requires |rows| >= 25
    ensures Screen(rows + [BlankRow(rows[|rows| - 1][79].col)]) == Scrolled(Screen(rows))
  {
    var col := rows[|rows| - 1][79].col;
    var longer: seq<Row> := rows + [BlankRow(col)];
    assert Screen(rows)[3999] == col by { LastRowShown(rows, 3999); }
    forall i: nat | i < 4000 ensures Screen(longer)[i] == Scrolled(Screen(rows))[i] {
      ScrolledByte(Screen(rows), i);
      if i < 3840 {
        RowsMovedUp(rows, longer, i);
      } else {
        BlankRowShown(rows, col, i);
      }
    }
  }

  lemma WithRowOnScreen(p: Page)
    requires 25 <= |p.rows| && p.x < 80 && |p.rows| - 25 <= p.y <= |p.rows|
    ensures Screen(WithRow(p).rows) == if p.y == |p.rows| then Scrolled(Screen(p.rows)) else Screen(p.rows)
  {
    if p.y == |p.rows| { ScrollIsNewRow(p.rows); }
  }

  /** Writing a cell of the screen is writing the cell of the page. */
  lemma WriteIsCell(rows: seq<Row>, x: nat, y: nat, ch: Byte, col: Byte)
    requires |rows| >= 25 && x < 80 && y < 25
    ensures var a := |rows| - 25 + y; var row: Row := rows[a][x := Cell(ch, col)]; var off := 2 * (80 * y + x);
            off + 1 < 4000 && Screen(rows[a := row]) == Screen(rows)[off := ch][off + 1 := col]
  {
    var a := |rows| - 25 + y;
    var row: Row := rows[a][x := Cell(ch, col)];
    var changed: seq<Row> := rows[a := row];
    var off := 2 * (80 * y + x);
    forall i | 0 <= i < 4000 ensures Screen(changed)[i] == Screen(rows)[off := ch][off + 1 := col][i] {
      ByteParts(i);
      CellOfByte(i / 160, i % 160 / 2, i % 2, x, y);
      if i / 160 == y {
        assert changed[|rows| - 25 + i / 160] == row;
        if i % 160 / 2 == x {
          assert row[i % 160 / 2] == Cell(ch, col);
        } else {
          assert row[i % 160 / 2] == rows[a][i % 160 / 2];
        }
      } else {
        assert changed[|rows| - 25 + i / 160] == rows[|rows| - 25 + i / 160];
      }
    }
  }

  lemma ByteParts(i: nat)
    ensures i == 160 * (i / 160) + 2 * (i % 160 / 2) + i % 2 && i % 160 / 2 < 80
  {
    var q, r := i / 160, i % 160;
    EvenPart(80 * q, r / 2, r % 2);
  }

  lemma EvenPart(a: nat, c: nat, b: nat)
    requires b < 2
    ensures (2 * a + 2 * c + b) % 2 == b
  {
    var k := a + c;
    assert 2 * a + 2 * c + b == 2 * k + b;
  }

  /** Byte b of cell (c, q) is a byte of cell (x, y) only for the same cell. */
  lemma CellOfByte(q: nat, c: nat, b: nat, x: nat, y: nat)
    requires c < 80 && b < 2 && x < 80
    ensures q == y && c == x <==> 160 * q + 2 * c + b == 2 * (80 * y + x) || 160 * q + 2 * c + b == 2 * (80 * y + x) + 1
    ensures 160 * q + 2 * c + b == 2 * (80 * y + x) ==> b == 0
    ensures 160 * q + 2 * c + b == 2 * (80 * y + x) + 1 ==> b == 1
  {
  }

  /** Conversion to uint16_t. */
  function Wrap16(v: nat): (w: nat)
    ensures w < 0x1_0000 && (v < 0x1_0000 ==> w == v)
  {
    v % 0x1_0000
  }

  lemma PositionFits(x: nat, y: nat)
    requires x < 80 && y < 25
    ensures Wrap16(y * 80 + x) == y * 80 + x
  {
  }

  class Console {
    const video: array<Byte>   // the text memory at 0xB8000
    var curX: Byte
    var curY: Byte
    var col: Byte
    var cursorHigh: Byte       // VGA registers 0x0E and 0x0F
    var cursorLow: Byte
    ghost var page: Page
    ghost var scrolls: nat

    /** The screen shows the bottom of the page, the cursor is in range and the VGA knows it. */
    ghost predicate Valid()
      reads this, video
    {
      && video.Length == 4000 && page.Ok() && video[..] == Screen(page.rows)
      && curX == page.x && curY == page.y - (|page.rows| - 25)
      && 0x100 * (cursorHigh as int) + cursorLow == curY * 80 + curX
    }

    constructor (video: array<Byte>, ghost rows: seq<Row>)
      requires video.Length == 4000 && |rows| == 25 && video[..] == Screen(rows)
      ensures Valid() && this.video == video && page == Page(rows, 0, 0) && scrolls == 0 && col == 7
    {
      this.video := video;
      curX, curY, col := 0, 0, 7;
      cursorHigh, cursorLow := 0, 0;
      page, scrolls := Page(rows, 0, 0), 0;
    }

    /** VGA_WriteChar: a position off the screen is ignored. */
    method WriteChar(x: nat, y: nat, ch: Byte, col: Byte)
      requires video.Length == 4000
      modifies video
      ensures var off := (y * 80 + x) * 2;
              video[..] == if off <= 3998 then old(video[..])[off := ch][off + 1 := col] else old(video[..])
    {
      var off := (y * CON_WIDTH + x) * 2;
      if off < 0 || off > (CON_WIDTH * CON_HEIGHT - 1) * 2 {
        return;
      }
      video[off] := ch;
      video[off + 1] := col;
    }

    /** VGA_scroll_down: the copy runs upwards in place over its own source. */
    method ScrollDown()
      requires video.Length == 4000
      modifies video
      ensures video[..] == Scrolled(old(video[..]))
      ensures forall k :: 0 <= k < 3840 ==> video[k] == old(video[k + 160])
      ensures forall k :: 3840 <= k < 4000 ==> video[k] == if k % 2 == 0 then 0 else old(video[3999])
    {
      var c := video[CON_WIDTH * CON_HEIGHT * 2 - 1];
      var i := 0;
      while i < CON_WIDTH * (CON_HEIGHT - 1) * 2
        invariant 0 <= i <= 3840
        invariant forall k :: 0 <= k < i ==> video[k] == old(video[k + 160])
        invariant forall k :: i <= k < 4000 ==> video[k] == old(video[k])
      {
        video[i] := video[i + CON_WIDTH * 2];
        i := i + 1;
      }
      while i < CON_WIDTH * CON_HEIGHT * 2
        invariant 3840 <= i <= 4000 && i % 2 == 0
        invariant forall k :: 0 <= k < 3840 ==> video[k] == old(video[k + 160])
        invariant forall k :: 3840 <= k < i ==> video[k] == if k % 2 == 0 then 0 else c
      {
        video[i] := 0;
        video[i + 1] := c;
        i := i + 2;
      }
    }

    /** VGA_update_cursor: the low byte and the high byte of a 16-bit position. */
    method UpdateCursor(x: nat, y: nat)
      modifies this`cursorHigh, this`cursorLow
      ensures 0x100 * (cursorHigh as int) + cursorLow == Wrap16(y * 80 + x)
    {
      var pos := Wrap16(y * CON_WIDTH + x);
      cursorLow := pos % 0x100;
      cursorHigh := pos / 0x100;
    }

    /** _AdjScrollDrown, after the cursor moved one place on.  `p` is the page with its cursor there;
        it gets its next row if the cursor stands below the last. */
    method Adjust(ghost p: Page)
      requires video.Length == 4000 && |p.rows| >= 25 && video[..] == Screen(p.rows)
      requires if curX == 80 then curY < 25 && p.x == 0 && p.y == |p.rows| - 25 + curY + 1
               else curX < 80 && curY <= 25 && p.x == curX && p.y == |p.rows| - 25 + curY
      modifies this`curX, this`curY, this`cursorHigh, this`cursorLow, this`page, this`scrolls, video
      ensures Valid() && page == WithRow(p)
      ensures scrolls == old(scrolls) + |page.rows| - |p.rows|
    {
      if curX >= CON_WIDTH {
        curX := 0;
        curY := curY + 1;
      }
      Settle(p);
    }

    /** The second half: scroll when the cursor left the screen, then tell the VGA. */
    method Settle(ghost p: Page)
      requires video.Length == 4000 && |p.rows| >= 25 && video[..] == Screen(p.rows)
      requires curX < 80 && curY <= 25 && p.x == curX && p.y == |p.rows| - 25 + curY
      modifies this`curY, this`cursorHigh, this`cursorLow, this`page, this`scrolls, video
      ensures Valid() && page == WithRow(p)
      ensures scrolls == old(scrolls) + |page.rows| - |p.rows|
    {
      WithRowOnScreen(p);
      if curY >= CON_HEIGHT {
        ScrollDown();
        scrolls := scrolls + 1;
        curY := curY - 1;
      }
      page := WithRow(p);
      PositionFits(curX, curY);
      UpdateCursor(curX, curY);
    }

    /** CON_newline */
    method Newline()
      requires Valid()
      modifies this`curX, this`curY, this`cursorHigh, this`cursorLow, this`page, this`scrolls, video
      ensures Valid() && page == PutChar(old(page), NEWLINE, col)
      ensures scrolls == old(scrolls) + |page.rows| - |old(page).rows|
    {
      UpdateCursor(0, curY + 1);            // CON_gotoXY
      curX := 0;
      curY := curY + 1;
      Adjust(page.(x := 0, y := page.y + 1));
    }

    /** The cell under the cursor, on the screen and in the rows of the page. */
    method PutCell(ch: Byte) returns (ghost rows: seq<Row>)
      requires Valid()
      modifies video
      ensures |page.rows[page.y]| == 80 && page.x < 80
      ensures |rows| == |page.rows| && rows == page.rows[page.y := page.rows[page.y][page.x := Cell(ch, col)]]
      ensures video[..] == Screen(rows)
    {
      WriteIsCell(page.rows, curX, curY, ch, col);
      WriteChar(curX, curY, ch, col);
      ghost var row: Row := page.rows[page.y][page.x := Cell(ch, col)];
      rows := page.rows[page.y := row];
    }

    /** CON_putc */
    method Putc(ch: Byte)
      requires Valid()
      modifies this`curX, this`curY, this`cursorHigh, this`cursorLow, this`page, this`scrolls, video
      ensures Valid() && page == PutChar(old(page), ch, col)
      ensures scrolls == old(scrolls) + |page.rows| - |old(page).rows|
      ensures video[..] == Screen(page.rows) && curX == page.x && curY == page.y - (|page.rows| - 25)
      ensures 0x100 * (cursorHigh as int) + cursorLow == curY * 80 + curX
    {
      if ch == NEWLINE {
        Newline();
        return;
      }
      ghost var rows := PutCell(ch);
      curX := curX + 1;
      Adjust(if curX < 80 then Page(rows, page.x + 1, page.y) else Page(rows, 0, page.y + 1));
    }

    /** The loop of CON_puts: characters up to the terminator. */
    method PutUntilNul(str: seq<Byte>)
      requires Valid() && 0 in str
      modifies this`curX, this`curY, this`cursorHigh, this`cursorLow, this`page, this`scrolls, video
      ensures Valid() && page == PutAll(old(page), CText(str), col)
      ensures scrolls == old(scrolls) + |page.rows| - |old(page).rows|
    {
      ghost var start, text := page, CText(str);
      ScanText(str);
      var i := 0;
      while str[i] != 0
        invariant 0 <= i <= |text| < |str| && Valid()
        invariant PutAll(start, text, col) == PutAll(page, text[i..], col)
        invariant scrolls == old(scrolls) + |page.rows| - |start.rows|
        decreases |text| - i
      {
        assert text[i..][0] == str[i] && text[i..][1..] == text[i + 1..];
        Putc(str[i]);
        i := i + 1;
      }
    }

    /** CON_puts: the page is the old one with the text before the terminator printed on it; the screen
        scrolled once for every row the layout of the text needs beyond the rows there were.  A text
        without a line feed moves the cursor on by its length; behind a last line feed it stands as far
        from column 0 as the characters there take it. */
    method Puts(str: seq<Byte>)
      requires Valid() && 0 in str
      modifies this`curX, this`curY, this`cursorHigh, this`cursorLow, this`page, this`scrolls, video
      ensures Valid() && page == PutAll(old(page), CText(str), col)
      ensures var y := Layout(old(curX), old(curY), CText(str)).1;
              scrolls == old(scrolls) + (if y > 24 then y - 24 else 0)
      ensures 10 !in CText(str) ==> page.Offset() == old(page).Offset() + |CText(str)|
      ensures forall s, line :: LastLine(CText(str), s, line) ==>
                page.x == |line| % 80 && page.y == Layout(old(page).x, old(page).y, s).1 + 1 + |line| / 80
      ensures video[..] == Screen(page.rows) && curX == page.x && curY == page.y - (|page.rows| - 25)
      ensures 0x100 * (cursorHigh as int) + cursorLow == curY * 80 + curX
    {
      ghost var start := page;
      PutUntilNul(str);
      RowsBegun(start, CText(str), col);
      CursorAfterText(start, CText(str), col);
    }
  }

  /** The text is s, a line feed, and a line without one. */
  predicate LastLine(t: seq<Byte>, s: seq<Byte>, line: seq<Byte>) {
    t == s + [10] + line && 10 !in line
  }

  /** The characters in front of the terminator. */
  function CText(str: seq<Byte>): (t: seq<Byte>)
    requires 0 in str
  {
    if str[0] == 0 then [] else [str[0]] + CText(str[1..])
  }

  lemma {:induction false} ScanText(str: seq<Byte>)
    requires 0 in str
    ensures 0 !in CText(str) && |CText(str)| < |str| && CText(str) == str[..|CText(str)|] && str[|CText(str)|] == 0
  {
    if str[0] != 0 {
      ScanText(str[1..]);
      assert str == [str[0]] + str[1..];
    }
  }

  lemma RowsBegun(p: Page, t: seq<Byte>, col: Byte)
    requires p.Ok()
    ensures var y := Layout(p.x, p.y - (|p.rows| - 25), t).1;
            |PutAll(p, t, col).rows| == |p.rows| + (if y > 24 then y - 24 else 0)
  {
    PrintingFollowsLayout(p, t, col);
    LayoutShift(p.x, p.y - (|p.rows| - 25), t, |p.rows| - 25);
  }

  lemma CursorAfterText(p: Page, t: seq<Byte>, col: Byte)
    requires p.Ok()
    ensures var r := PutAll(p, t, col);
            && (10 !in t ==> r.Offset() == p.Offset() + |t|)
            && forall s, line :: LastLine(t, s, line) ==>
                 r.x == |line| % 80 && r.y == Layout(p.x, p.y, s).1 + 1 + |line| / 80
  {
    PrintingFollowsLayout(p, t, col);
    if 10 !in t {
      LayoutOfLine(p.x, p.y, t);
      var n := p.x + |t|;
      assert n == 80 * (n / 80) + n % 80;
    }
    forall s, line | LastLine(t, s, line)
      ensures Layout(p.x, p.y, t) == (|line| % 80, Layout(p.x, p.y, s).1 + 1 + |line| / 80)
    {
      LayoutAfterLineFeed(p.x, p.y, s, line);
    }
  }

  /** The layout does not depend on where the page's rows are counted from. */
  lemma {:induction false} LayoutShift(x: nat, y: nat, s: seq<Byte>, k: nat)
    ensures Layout(x, y + k, s) == (Layout(x, y, s).0, Layout(x, y, s).1 + k)
    decreases |s|
  {
    if s != [] {
      if s[0] == NEWLINE || x + 1 >= 80 { LayoutShift(0, y + 1, s[1..], k); } else { LayoutShift(x + 1, y, s[1..], k); }
    }
  }
}
