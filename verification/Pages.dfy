/** What the terminal leaves on the screen: printed lines, scrolling, and the last 25 messages. */
module Pages {
  import opened Bytes
  import opened Screen

  const SPACE: byte := 32

  /** The framebuffer and prompt_y; -1 is above the first row, where a cleared screen starts. */
  datatype Page = Page(fb: seq<byte>, row: int) {
    predicate Valid() {
      |fb| == FRAME_BYTES && -1 <= row < ROWS
    }
  }

  /** The screen part of new_prompt. */
  function NextRow(pg: Page, color: byte): (pg': Page)
    requires pg.Valid()
    ensures pg'.Valid() && 0 <= pg'.row
  {
    if pg.row + 1 > ROWS - 1 then Page(Colored(Scrolled(pg.fb), 0, COLUMNS * ROWS, color), ROWS - 1)
    else Page(pg.fb, pg.row + 1)
  }

  /** Character i of a message goes to column i of the current row. */
  function PutAt(pg: Page, c: byte, i: nat, color: byte): (pg': Page)
    requires pg.Valid()
    ensures pg'.Valid() && pg'.row == pg.row
  {
    Page(Cell(pg.fb, GetPosition(i % COLUMNS, pg.row), c, color), pg.row)
  }

  /** The loop of writeline from character i on. */
  function WriteFrom(pg: Page, msg: seq<byte>, i: nat, color: byte): (pg': Page)
    requires pg.Valid() && i <= |msg|
    ensures pg'.Valid()
    decreases |msg| - i
  {
    if i == |msg| then pg
    else
      var pg1 := PutAt(pg, msg[i], i, color);
      WriteFrom(if i > 0 && i % (COLUMNS - 1) == 0 then NextRow(pg1, color) else pg1, msg, i + 1, color)
  }

  function WriteLine(pg: Page, msg: seq<byte>, color: byte): (pg': Page)
    requires pg.Valid()
    ensures pg'.Valid()
  {
    WriteFrom(NextRow(pg, color), msg, 0, color)
  }

  // ---------- reading the screen ----------

  /** The characters of row r. */
  function Row(fb: seq<byte>, r: nat): seq<byte>
    requires |fb| == FRAME_BYTES && r < ROWS
  {
    seq(COLUMNS, c requires 0 <= c < COLUMNS => fb[ROW_BYTES * r + 2 * c])
  }

  /** The row reads t: t in its first columns and only blanks behind it, NUL as it was cleared or space. */
  predicate Reads(row: seq<byte>, t: seq<byte>) {
    && |t| <= |row| && row[..|t|] == t
    && forall c :: |t| <= c < |row| ==> row[c] == 0 || row[c] == SPACE
  }

  /** Row r of a page that shows the end of the history hist: a message down to the current row, blank below it. */
  function Expected(hist: seq<seq<byte>>, row: int, r: nat): seq<byte>
    requires -1 <= row < |hist|
  {
    if r <= row then hist[|hist| - 1 - row + r] else []
  }

  ghost predicate Short(msg: seq<byte>) {
    |msg| < COLUMNS
  }

  /** The page shows exactly the last messages of hist, as many as there are rows. */
  ghost predicate Shows(pg: Page, hist: seq<seq<byte>>) {
    && pg.Valid()
    && (forall i :: 0 <= i < |hist| ==> Short(hist[i]))
    && pg.row == (if |hist| < ROWS then |hist| else ROWS) - 1
    && forall r :: 0 <= r < ROWS ==> Reads(Row(pg.fb, r), Expected(hist, pg.row, r))
  }

  // ---------- one line ----------

  /** Recoloring leaves the characters of a row. */
  lemma ColoredRow(fb: seq<byte>, color: byte, r: nat)
    requires |fb| == FRAME_BYTES && r < ROWS
    ensures Row(Colored(fb, 0, COLUMNS * ROWS, color), r) == Row(fb, r)
  {
    var g := Colored(fb, 0, COLUMNS * ROWS, color);
    forall c | 0 <= c < COLUMNS
      ensures Row(g, r)[c] == Row(fb, r)[c]
    {
      EvenColumn(r, c);
    }
  }

  lemma EvenColumn(r: nat, c: nat)
    ensures (ROW_BYTES * r + 2 * c) % 2 == 0
  {
    assert ROW_BYTES * r + 2 * c == 2 * (80 * r + c);
  }

  lemma ScrolledRows(fb: seq<byte>, color: byte, r: nat)
    requires |fb| == FRAME_BYTES && r < ROWS
    ensures var row := Row(Colored(Scrolled(fb), 0, COLUMNS * ROWS, color), r);
      if r + 1 < ROWS then row == Row(fb, r + 1) else Reads(row, [])
  {
    ColoredRow(Scrolled(fb), color, r);
    forall c | 0 <= c < COLUMNS
      ensures Row(Scrolled(fb), r)[c] == if r + 1 < ROWS then Row(fb, r + 1)[c] else 0
    {
    }
  }

  lemma ReadsPut(row: seq<byte>, msg: seq<byte>, i: nat)
    requires i < |msg| <= |row| && Reads(row, msg[..i])
    ensures Reads(row[i := msg[i]], msg[..i + 1])
  {
    assert row[i := msg[i]][..i + 1] == row[..i] + [msg[i]];
  }

  /** Below column 79 the loop of writeline only puts the next character. */
  lemma WriteFromStep(pg: Page, msg: seq<byte>, i: nat, color: byte)
    requires pg.Valid() && i < |msg| < COLUMNS
    ensures WriteFrom(pg, msg, i, color) == WriteFrom(PutAt(pg, msg[i], i, color), msg, i + 1, color)
  {
    assert i % (COLUMNS - 1) == i;
  }

  /** Printing short text touches the current row and no other. */
  lemma {:induction false} WriteFromRows(pg: Page, msg: seq<byte>, i: nat, color: byte, r: nat)
    requires pg.Valid() && 0 <= pg.row && i <= |msg| < COLUMNS && r < ROWS
    ensures WriteFrom(pg, msg, i, color).row == pg.row
    ensures r != pg.row ==> Row(WriteFrom(pg, msg, i, color).fb, r) == Row(pg.fb, r)
    ensures r == pg.row && Reads(Row(pg.fb, r), msg[..i]) ==> Reads(Row(WriteFrom(pg, msg, i, color).fb, r), msg)
    decreases |msg| - i
  {
    if i == |msg| {
      assert msg[..i] == msg;
    } else {
      WriteFromStep(pg, msg, i, color);
      PutAtRow(pg, msg[i], i, color, r);
      if r == pg.row && Reads(Row(pg.fb, r), msg[..i]) {
        ReadsPut(Row(pg.fb, r), msg, i);
      }
      WriteFromRows(PutAt(pg, msg[i], i, color), msg, i + 1, color, r);
    }
  }

  lemma PutAtRow(pg: Page, c: byte, i: nat, color: byte, r: nat)
    requires pg.Valid() && 0 <= pg.row && i < COLUMNS && r < ROWS
    ensures Row(PutAt(pg, c, i, color).fb, r) == if r == pg.row then Row(pg.fb, r)[i := c] else Row(pg.fb, r)
  {
    assert GetPosition(i, pg.row) == 2 * i + ROW_BYTES * pg.row;
  }

  /** One more short message keeps the screen showing the end of the history. */
  lemma WriteLineShows(pg: Page, hist: seq<seq<byte>>, msg: seq<byte>, color: byte)
    requires Shows(pg, hist) && Short(msg)
    ensures Shows(WriteLine(pg, msg, color), hist + [msg])
  {
    var next := NextRow(pg, color);
    var after := WriteLine(pg, msg, color);
    var all := hist + [msg];
    NextRowRow(pg, hist, color, 0);
    WriteFromRows(next, msg, 0, color, 0);
    forall r | 0 <= r < ROWS
      ensures after.row == next.row && Reads(Row(after.fb, r), Expected(all, after.row, r))
    {
      NextRowRow(pg, hist, color, r);
      WriteFromRows(next, msg, 0, color, r);
      assert msg[..0] == [];
    }
  }

  /** After new_prompt the rows above the current one show the end of the history, and the current one is blank. */
  lemma NextRowRow(pg: Page, hist: seq<seq<byte>>, color: byte, r: nat)
    requires Shows(pg, hist) && r < ROWS
    ensures var next := NextRow(pg, color);
      && next.row == (if |hist| + 1 < ROWS then |hist| + 1 else ROWS) - 1
      && (r < next.row ==>
            0 <= |hist| - next.row + r < |hist| && Reads(Row(next.fb, r), hist[|hist| - next.row + r]))
      && (r >= next.row ==> Reads(Row(next.fb, r), []))
  {
    if pg.row + 1 > ROWS - 1 {
      ScrolledRows(pg.fb, color, r);
    }
    assert Reads(Row(pg.fb, r), Expected(hist, pg.row, r));
  }

  // ---------- any line, cell by cell ----------

  /** How often writeline has gone to a new row before character i: behind character 79, 158 and so on. */
  function Wraps(i: nat): nat {
    if i == 0 then 0 else (i - 1) / 79
  }

  lemma WrapsStep(i: nat)
    ensures Wraps(i + 1) == Wraps(i) + if i > 0 && i % 79 == 0 then 1 else 0
  {
  }

  lemma WrapsGrow(i: nat, k: nat)
    requires i <= k
    ensures Wraps(i) <= Wraps(k)
  {
  }

  /** Two characters that are written between the same row changes go to different columns. */
  lemma ColumnsDiffer(i: nat, k: nat)
    requires i < k && Wraps(i) == Wraps(k)
    ensures i % 80 != k % 80
  {
    assert k - i < 80;
    assert k == 80 * (k / 80) + k % 80 && i == 80 * (i / 80) + i % 80;
  }

  /** The character and the color byte in a cell. */
  function At(fb: seq<byte>, r: nat, c: nat): (byte, byte)
    requires |fb| == FRAME_BYTES && r < ROWS && c < COLUMNS
  {
    (fb[ROW_BYTES * r + 2 * c], fb[ROW_BYTES * r + 2 * c + 1])
  }

  lemma PutAtCell(pg: Page, x: byte, i: nat, color: byte, r: nat, c: nat)
    requires pg.Valid() && 0 <= pg.row && r < ROWS && c < COLUMNS
    ensures At(PutAt(pg, x, i, color).fb, r, c) == if r == pg.row && c == i % 80 then (x, color) else At(pg.fb, r, c)
  {
    assert GetPosition(i % COLUMNS, pg.row) == 2 * (i % COLUMNS) + ROW_BYTES * pg.row;
  }

  lemma NextRowCell(pg: Page, color: byte, r: nat, c: nat)
    requires pg.Valid() && r < ROWS && c < COLUMNS
    ensures NextRow(pg, color).row == if pg.row < 24 then pg.row + 1 else 24
    ensures At(NextRow(pg, color).fb, r, c) ==
      if pg.row < 24 then At(pg.fb, r, c) else (if r < 24 then At(pg.fb, r + 1, c).0 else 0, color)
  {
    if pg.row >= 24 {
      var q := ROW_BYTES * r + 2 * c;
      assert q == 2 * (80 * r + c);
      ColoredCell(Scrolled(pg.fb), 0, COLUMNS * ROWS, color, 80 * r + c);
      ScrolledByte(pg.fb, q);
    }
  }

  /** Character k ends in this cell, when the rows are counted from top. */
  ghost predicate Lands(top: int, k: nat, r: nat, c: nat) {
    top + Wraps(k) == r && k % 80 == c
  }

  /** What is left of a cell after s scrolls: the character from s rows below, in the present color. */
  function After(fb: seq<byte>, s: nat, color: byte, r: nat, c: nat): (byte, byte)
    requires |fb| == FRAME_BYTES && r < ROWS && c < COLUMNS
  {
    if s == 0 then At(fb, r, c) else (if r + s < ROWS then At(fb, r + s, c).0 else 0, color)
  }

  /** Where the rows of a line are counted from: the line starts in row, and its last row is on the screen. */
  function Top(row: int, n: nat): int {
    if row < 24 - Wraps(n) then row else 24 - Wraps(n)
  }

  /** The cell holds what the characters of the line from i on leave there, after s scrolls. */
  ghost predicate CellHolds(fb: seq<byte>, msg: seq<byte>, i: nat, color: byte, top: int, s: nat, fb': seq<byte>,
                            r: nat, c: nat)
    requires |fb| == |fb'| == FRAME_BYTES && r < ROWS && c < COLUMNS
  {
    && (forall k :: i <= k < |msg| && Lands(top, k, r, c) ==> At(fb', r, c) == (msg[k], color))
    && ((forall k :: i <= k < |msg| ==> !Lands(top, k, r, c)) ==> At(fb', r, c) == After(fb, s, color, r, c))
  }

  /** The page after character i of a line has been put, and the new row behind it if there is one. */
  function PutNext(pg: Page, x: byte, i: nat, color: byte): (pg': Page)
    requires pg.Valid() && 0 <= pg.row
    ensures pg'.Valid() && 0 <= pg'.row
  {
    var pg1 := PutAt(pg, x, i, color);
    if i > 0 && i % (COLUMNS - 1) == 0 then NextRow(pg1, color) else pg1
  }

  lemma PutNextCell(pg: Page, x: byte, i: nat, color: byte, r: nat, c: nat)
    requires pg.Valid() && 0 <= pg.row && r < ROWS && c < COLUMNS
    ensures var next, scrolled := PutNext(pg, x, i, color), pg.row == 24 && Wraps(i) < Wraps(i + 1);
      && next.row - Wraps(i + 1) == pg.row - Wraps(i) - (if scrolled then 1 else 0)
      && At(next.fb, r, c) ==
           if scrolled then (if r == 24 then (0, color) else if r == 23 && c == i % 80 then (x, color)
                             else (At(pg.fb, r + 1, c).0, color))
           else if r == pg.row && c == i % 80 then (x, color) else At(pg.fb, r, c)
  {
    hide At, NextRow, PutAt;
    var pg1 := PutAt(pg, x, i, color);
    WrapsStep(i);
    PutAtRowStays(pg, x, i, color);
    NextRowCell(pg1, color, r, c);
    PutAtCell(pg, x, i, color, r, c);
    if r < 24 {
      PutAtCell(pg, x, i, color, r + 1, c);
    }
  }

  lemma PutAtRowStays(pg: Page, x: byte, i: nat, color: byte)
    requires pg.Valid() && 0 <= pg.row
    ensures PutAt(pg, x, i, color).Valid() && PutAt(pg, x, i, color).row == pg.row
  {
  }

  lemma OneCell(pg: Page, msg: seq<byte>, i: nat, color: byte, after: Page, top: int, r: nat, c: nat)
    requires pg.Valid() && 0 <= pg.row && i < |msg| && r < ROWS && c < COLUMNS && after.Valid()
    requires top == Top(pg.row - Wraps(i), |msg|) == Top(PutNext(pg, msg[i], i, color).row - Wraps(i + 1), |msg|)
    requires 0 <= pg.row - Wraps(i) - top
    requires var next := PutNext(pg, msg[i], i, color);
      && 0 <= next.row - Wraps(i + 1) - top
      && CellHolds(next.fb, msg, i + 1, color, top, next.row - Wraps(i + 1) - top, after.fb, r, c)
    ensures CellHolds(pg.fb, msg, i, color, top, pg.row - Wraps(i) - top, after.fb, r, c)
  {
    hide PutNext, At, Wraps, Top;
    var next := PutNext(pg, msg[i], i, color);
    var s := next.row - Wraps(i + 1) - top;
    if r + s < ROWS {
      PutNextCell(pg, msg[i], i, color, r + s, c);
    }
    PutNextCell(pg, msg[i], i, color, r, c);
    if Lands(top, i, r, c) {
      forall k | i < k < |msg|
        ensures !Lands(top, k, r, c)
      {
        if Wraps(k) == Wraps(i) { ColumnsDiffer(i, k); }
      }
    }
  }

  lemma WriteFromNext(pg: Page, msg: seq<byte>, i: nat, color: byte)
    requires pg.Valid() && 0 <= pg.row && i < |msg|
    ensures PutNext(pg, msg[i], i, color).Valid() && 0 <= PutNext(pg, msg[i], i, color).row
    ensures WriteFrom(pg, msg, i, color) == WriteFrom(PutNext(pg, msg[i], i, color), msg, i + 1, color)
    ensures WriteFrom(pg, msg, i, color).Valid()
  {
  }

  lemma WriteFromDone(pg: Page, msg: seq<byte>, color: byte, top: int, r: nat, c: nat)
    requires pg.Valid() && r < ROWS && c < COLUMNS
    ensures WriteFrom(pg, msg, |msg|, color) == pg && CellHolds(pg.fb, msg, |msg|, color, top, 0, pg.fb, r, c)
  {
  }

  lemma {:induction false} WriteFromCells(pg: Page, msg: seq<byte>, i: nat, color: byte, r: nat, c: nat)
    requires pg.Valid() && 0 <= pg.row && i <= |msg| && r < ROWS && c < COLUMNS
    ensures var top, after := Top(pg.row - Wraps(i), |msg|), WriteFrom(pg, msg, i, color);
      && 0 <= pg.row - Wraps(i) - top && after.row == top + Wraps(|msg|)
      && CellHolds(pg.fb, msg, i, color, top, pg.row - Wraps(i) - top, after.fb, r, c)
    decreases |msg| - i
  {
    hide At, Wraps, WriteFrom, PutNext, CellHolds, After;
    WrapsGrow(i, |msg|);
    if i == |msg| {
      WriteFromDone(pg, msg, color, Top(pg.row - Wraps(i), |msg|), r, c);
    } else {
      WriteFromNext(pg, msg, i, color);
      var next := PutNext(pg, msg[i], i, color);
      WrapsStep(i);
      WrapsGrow(i + 1, |msg|);
      PutNextCell(pg, msg[i], i, color, r, c);
      WriteFromCells(next, msg, i + 1, color, r, c);
      OneCell(pg, msg, i, color, WriteFrom(next, msg, i + 1, color), Top(pg.row - Wraps(i), |msg|), r, c);
    }
  }

  /**
   * writeline on any line of any length: character k goes to column k % 80 of its row, and every cell of the screen
   * holds the character that ends there, in the present color, or what was there before the screen scrolled.
   */
  lemma LineCells(pg: Page, msg: seq<byte>, color: byte, r: nat, c: nat)
    requires pg.Valid() && r < ROWS && c < COLUMNS
    ensures var top, after := Top(pg.row + 1, |msg|), WriteLine(pg, msg, color);
      && 0 <= pg.row + 1 - top && after.row == top + Wraps(|msg|)
      && CellHolds(pg.fb, msg, 0, color, top, pg.row + 1 - top, after.fb, r, c)
  {
    hide WriteFrom;
    var next, top := NextRow(pg, color), Top(pg.row + 1, |msg|);
    WriteFromCells(next, msg, 0, color, r, c);
    NextRowCell(pg, color, r, c);
    if r + (next.row - top) < ROWS {
      NextRowCell(pg, color, r + (next.row - top), c);
    }
  }

  /** Character k of any line, when its row is still on the screen: both bytes of its cell. */
  lemma LineBytes(pg: Page, msg: seq<byte>, color: byte, k: nat)
    requires pg.Valid() && k < |msg| && 0 <= Top(pg.row + 1, |msg|) + Wraps(k)
    ensures var row, fb := Top(pg.row + 1, |msg|) + Wraps(k), WriteLine(pg, msg, color).fb;
      row < ROWS && fb[160 * row + 2 * (k % 80)] == msg[k] && fb[160 * row + 2 * (k % 80) + 1] == color
  {
    hide WriteLine, CellHolds;
    WrapsGrow(k, |msg|);
    var top := Top(pg.row + 1, |msg|);
    LineCells(pg, msg, color, top + Wraps(k), k % 80);
    CharacterHeld(pg.fb, msg, 0, color, top, pg.row + 1 - top, WriteLine(pg, msg, color).fb, top + Wraps(k), k % 80, k);
  }

  lemma CharacterHeld(fb: seq<byte>, msg: seq<byte>, i: nat, color: byte, top: int, s: nat, fb': seq<byte>,
                      r: nat, c: nat, k: nat)
    requires |fb| == |fb'| == FRAME_BYTES && r < ROWS && c < COLUMNS && CellHolds(fb, msg, i, color, top, s, fb', r, c)
    requires i <= k < |msg| && top + Wraps(k) == r && k % 80 == c
    ensures fb'[160 * r + 2 * c] == msg[k] && fb'[160 * r + 2 * c + 1] == color
  {
    assert Lands(top, k, r, c);
  }

  /**
   * A short line, byte by byte: its characters and their colors stand side by side in the new row; every other byte is
   * as it was, or after a scroll what stood a row below, recolored.
   */
  lemma ShortLineBytes(pg: Page, msg: seq<byte>, color: byte, q: nat)
    requires pg.Valid() && |msg| <= 79 && q < 4000
    ensures var after := WriteLine(pg, msg, color); var row := after.row;
      && row == (if pg.row < 24 then pg.row + 1 else 24)
      && after.fb[q] ==
           if 160 * row <= q < 160 * row + 2 * |msg| then (if q % 2 == 0 then msg[(q - 160 * row) / 2] else color)
           else if pg.row < 24 then pg.fb[q]
           else if q % 2 == 1 then color
           else if q + 160 < 4000 then pg.fb[q + 160] else 0
  {
    hide WriteLine, CellHolds;
    var r, c := q / 160, q % 160 / 2;
    CellOf(q);
    var top := Top(pg.row + 1, |msg|);
    LineCells(pg, msg, color, r, c);
    ShortCell(pg.fb, msg, color, top, pg.row + 1 - top, WriteLine(pg, msg, color).fb, r, c);
  }

  lemma CellOf(q: nat)
    ensures q == 160 * (q / 160) + 2 * (q % 160 / 2) + q % 2 && q % 160 / 2 < 80
  {
    var r, c, x := q / 160, q % 160 / 2, q % 160 % 2;
    assert q == 160 * r + (2 * c + x);
    Odd(80 * r + c, x);
  }

  lemma Odd(h: nat, x: nat)
    requires x < 2
    ensures (2 * h + x) % 2 == x
  {
  }

  lemma ShortCell(fb: seq<byte>, msg: seq<byte>, color: byte, top: int, s: nat, fb': seq<byte>, r: nat, c: nat)
    requires |fb| == |fb'| == FRAME_BYTES && r < ROWS && c < COLUMNS && |msg| <= 79
    requires CellHolds(fb, msg, 0, color, top, s, fb', r, c)
    ensures At(fb', r, c) == if r == top && c < |msg| then (msg[c], color) else After(fb, s, color, r, c)
  {
    hide At;
    assert forall k :: 0 <= k < |msg| ==> Wraps(k) == 0 && k % 80 == k;
    if r == top && c < |msg| {
      assert Lands(top, c, r, c);
    }
  }

  // ---------- any number of lines ----------

  function WriteLines(pg: Page, msgs: seq<seq<byte>>, color: byte): (pg': Page)
    requires pg.Valid()
    ensures pg'.Valid()
  {
    if msgs == [] then pg else WriteLine(WriteLines(pg, msgs[..|msgs| - 1], color), msgs[|msgs| - 1], color)
  }

  /** The page cls leaves: no character, every cell recolored, and the current row above the first. */
  function ClearedPage(color: byte): (pg: Page)
    ensures pg.Valid()
  {
    Page(Colored(seq(FRAME_BYTES, _ => 0), 0, COLUMNS * ROWS, color), -1)
  }

  lemma ClearedShows(color: byte)
    ensures Shows(ClearedPage(color), [])
  {
    forall r | 0 <= r < ROWS
      ensures Reads(Row(ClearedPage(color).fb, r), [])
    {
      ColoredRow(seq(FRAME_BYTES, _ => 0), color, r);
    }
  }

  /** A change of color leaves every row of characters as it was. */
  lemma RecoloredShows(pg: Page, hist: seq<seq<byte>>, color: byte)
    requires Shows(pg, hist)
    ensures Shows(Page(Colored(pg.fb, 0, COLUMNS * ROWS, color), pg.row), hist)
  {
    forall r | 0 <= r < ROWS
      ensures Row(Colored(pg.fb, 0, COLUMNS * ROWS, color), r) == Row(pg.fb, r)
    {
      ColoredRow(pg.fb, color, r);
    }
  }

  /**
   * From any page that shows the end of a history, any sequence of short lines leaves exactly the last 25 lines of
   * the longer history, in order, one a row.
   */
  lemma {:induction false} LastLines(pg: Page, hist: seq<seq<byte>>, msgs: seq<seq<byte>>, color: byte)
    requires Shows(pg, hist) && forall i :: 0 <= i < |msgs| ==> Short(msgs[i])
    ensures Shows(WriteLines(pg, msgs, color), hist + msgs)
  {
    if msgs == [] {
      assert hist + msgs == hist;
    } else {
      var front, last := msgs[..|msgs| - 1], msgs[|msgs| - 1];
      LastLines(pg, hist, front, color);
      WriteLineShows(WriteLines(pg, front, color), hist + front, last, color);
      assert hist + msgs == hist + front + [last];
    }
  }

  /** In particular the lines printed after the screen was cleared, whatever color it was cleared in. */
  lemma LinesAfterClear(msgs: seq<seq<byte>>, cleared: byte, color: byte)
    requires forall i :: 0 <= i < |msgs| ==> Short(msgs[i])
    ensures Shows(WriteLines(ClearedPage(cleared), msgs, color), msgs)
  {
    ClearedShows(cleared);
    LastLines(ClearedPage(cleared), [], msgs, color);
    assert [] + msgs == msgs;
  }

  /** The row never moves up while a line is written. */
  lemma {:induction false} RowsGrow(pg: Page, msg: seq<byte>, i: nat, color: byte)
    requires pg.Valid() && i <= |msg|
    ensures pg.row <= WriteFrom(pg, msg, i, color).row
    ensures i <= COLUMNS - 1 < |msg| && pg.row < ROWS - 1 && 0 < i ==> pg.row < WriteFrom(pg, msg, i, color).row
    decreases |msg| - i
  {
    if i < |msg| {
      var pg1 := PutAt(pg, msg[i], i, color);
      RowsGrow(if i > 0 && i % (COLUMNS - 1) == 0 then NextRow(pg1, color) else pg1, msg, i + 1, color);
    }
  }

  /** Away from the bottom a line takes a single row exactly when it is short. */
  lemma OneRowExactlyWhenShort(pg: Page, msg: seq<byte>, color: byte)
    requires pg.Valid() && pg.row + 2 < ROWS
    ensures WriteLine(pg, msg, color).row == pg.row + 1 <==> Short(msg)
  {
    var next := NextRow(pg, color);
    if Short(msg) {
      WriteFromRows(next, msg, 0, color, 0);
    } else {
      RowsGrow(PutAt(next, msg[0], 0, color), msg, 1, color);
    }
  }
}
