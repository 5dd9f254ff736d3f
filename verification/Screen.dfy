/** The text-mode screen of graphics.c: a 4000-byte framebuffer written through a moving pointer. */
module Screen {
  import opened Bytes
  import opened RawMemory
  import opened Numerals
  import opened CStrings

  const COLUMNS: nat := 80
  const ROWS: nat := 25
  const ROW_BYTES: nat := 160
  const FRAME_BYTES: nat := 4000
  const NEWLINE: byte := 10

  // ---------- positions ----------

  function Clamp(x: int, low: int, high: int): int {
    if x > high then high else if x < low then low else x
  }

  /** get_position: the byte offset of a cell, clamped into the framebuffer; x may run on into later rows. */
  function GetPosition(x: int, y: int): (p: nat)
    ensures p % 2 == 0 && p + 2 <= FRAME_BYTES
    ensures 0 <= y < ROWS && 0 <= x < COLUMNS * (ROWS - y) ==> p == 2 * x + ROW_BYTES * y
  {
    var y' := Clamp(y, 0, ROWS - 1);
    var x' := Clamp(x, 0, COLUMNS * (ROWS - y') - 1);
    2 * x' + 160 * y'
  }

  /** A position outside the screen counts as the nearest one: first or last row, start of the row, last cell of all. */
  lemma PositionOutside(x: int, y: int)
    ensures y < 0 ==> GetPosition(x, y) == GetPosition(x, 0)
    ensures y >= ROWS ==> GetPosition(x, y) == GetPosition(x, ROWS - 1)
    ensures x < 0 ==> GetPosition(x, y) == GetPosition(0, y)
    ensures 0 <= y < ROWS && x >= COLUMNS * (ROWS - y) ==> GetPosition(x, y) == 3998
  {
    var y' := Clamp(y, 0, ROWS - 1);
    assert 2 * (COLUMNS * (ROWS - y') - 1) + 160 * y' == 3998;
  }

  // ---------- printing as a function of the text ----------

  /** Where the pointer goes after character c at p. */
  function Advance(p: nat, c: byte): nat {
    if c == NEWLINE then p + (ROW_BYTES - p % ROW_BYTES) else p + 2
  }

  /** One cell set to c and color. */
  function Cell(fb: seq<byte>, p: nat, c: byte, color: byte): seq<byte>
    requires p + 1 < |fb|
  {
    fb[p := c][p + 1 := color]
  }

  function Glyph(fb: seq<byte>, p: nat, c: byte, color: byte): (fb': seq<byte>)
    requires p + 1 < |fb|
    ensures |fb'| == |fb|
  {
    if c == NEWLINE then fb else Cell(fb, p, c, color)
  }

  /** The framebuffer after text is printed from p on, up to its NUL or the end of the screen. */
  function Layout(fb: seq<byte>, p: nat, text: seq<byte>, color: byte): (fb': seq<byte>)
    requires |fb| == FRAME_BYTES && p % 2 == 0
    ensures |fb'| == FRAME_BYTES
    decreases |text|
  {
    if text == [] || text[0] == 0 || p >= FRAME_BYTES then fb
    else AdvanceEven(p, text[0]); Layout(Glyph(fb, p, text[0], color), Advance(p, text[0]), text[1..], color)
  }

  lemma AdvanceEven(p: nat, c: byte)
    requires p % 2 == 0
    ensures Advance(p, c) % 2 == 0 && p < Advance(p, c)
    ensures c == NEWLINE ==> Advance(p, c) % ROW_BYTES == 0 && Advance(p, c) <= p + ROW_BYTES
  {
    if c == NEWLINE {
      NextRowStart(p);
      EvenMultiple(p / ROW_BYTES + 1);
    }
  }

  lemma NextRowStart(p: nat)
    ensures p + (ROW_BYTES - p % ROW_BYTES) == ROW_BYTES * (p / ROW_BYTES + 1)
  {
  }

  lemma EvenMultiple(row: nat)
    ensures ROW_BYTES * row % 2 == 0 && ROW_BYTES * row % ROW_BYTES == 0
  {
    assert ROW_BYTES * row == 2 * (80 * row);
  }

  /** The offset at which character k of the text lands. */
  function Landing(p: nat, text: seq<byte>, k: nat): nat
    requires k <= |text|
  {
    if k == 0 then p else Advance(Landing(p, text, k - 1), text[k - 1])
  }

  /** A loop over the text from p on has met no NUL in i characters, and the next goes to q on the screen. */
  ghost predicate Running(p: nat, text: seq<byte>, i: nat, q: int)
    requires i <= |text|
  {
    0 !in text[..i] && q == Landing(p, text, i) < FRAME_BYTES
  }

  lemma RunningStarts(p: nat, text: seq<byte>)
    requires p < FRAME_BYTES
    ensures Running(p, text, 0, p) && text[0..] == text
  {
  }

  /** Such a loop has not run off the text. */
  lemma TextLasts(p: nat, text: seq<byte>, c: int, i: nat)
    requires c <= |text| || 0 in text || FRAME_BYTES <= Landing(p, text, |text|)
    requires i <= |text| && i < c && 0 !in text[..i] && Landing(p, text, i) < FRAME_BYTES
    ensures i < |text|
  {
    assert text[..|text|] == text;
  }

  /** Character k is printed: no NUL comes before it or at it, and it lands on the screen. */
  ghost predicate Shown(p: nat, text: seq<byte>, k: nat) {
    k < |text| && (forall j :: 0 <= j <= k ==> text[j] != 0) && Landing(p, text, k) < FRAME_BYTES
  }

  lemma {:induction false} LandingTail(p: nat, text: seq<byte>, k: nat)
    requires 1 <= k <= |text|
    ensures Landing(p, text, k) == Landing(Advance(p, text[0]), text[1..], k - 1)
  {
    if k > 1 {
      LandingTail(p, text, k - 1);
      assert text[1..][k - 2] == text[k - 1];
    }
  }

  lemma {:induction false} LandingGrows(p: nat, text: seq<byte>, k: nat)
    requires k <= |text| && p % 2 == 0
    ensures p + 2 * k <= Landing(p, text, k) && Landing(p, text, k) % 2 == 0
  {
    if k > 0 {
      hide Advance;
      LandingGrows(p, text, k - 1);
      AdvanceEven(Landing(p, text, k - 1), text[k - 1]);
    }
  }

  lemma ShownTail(p: nat, text: seq<byte>, k: nat)
    requires 1 <= k && Shown(p, text, k)
    ensures Shown(Advance(p, text[0]), text[1..], k - 1)
  {
    LandingTail(p, text, k);
    assert forall j :: 0 <= j <= k - 1 ==> text[1..][j] == text[j + 1];
  }

  /** Every printed character that is no newline stands in the cell where it lands, with the color beside it. */
  lemma {:induction false} LayoutShows(fb: seq<byte>, p: nat, text: seq<byte>, color: byte, k: nat)
    requires |fb| == FRAME_BYTES && p % 2 == 0 && Shown(p, text, k) && text[k] != NEWLINE
    ensures var q := Landing(p, text, k);
      && q + 1 < FRAME_BYTES
      && Layout(fb, p, text, color)[q] == text[k] && Layout(fb, p, text, color)[q + 1] == color
    decreases k
  {
    LandingGrows(p, text, k);
    AdvanceEven(p, text[0]);
    if k == 0 {
      LayoutKeeps(Glyph(fb, p, text[0], color), Advance(p, text[0]), text[1..], color, p);
      LayoutKeeps(Glyph(fb, p, text[0], color), Advance(p, text[0]), text[1..], color, p + 1);
    } else {
      FirstShown(p, text, k);
      LandingTail(p, text, k);
      ShownTail(p, text, k);
      LayoutShows(Glyph(fb, p, text[0], color), Advance(p, text[0]), text[1..], color, k - 1);
    }
  }

  lemma {:induction false} FirstShown(p: nat, text: seq<byte>, k: nat)
    requires Shown(p, text, k) && p % 2 == 0
    ensures text[0] != 0 && p < FRAME_BYTES
  {
    LandingGrows(p, text, k);
  }

  /** Nothing in front of the starting position changes. */
  lemma {:induction false} LayoutKeeps(fb: seq<byte>, p: nat, text: seq<byte>, color: byte, q: nat)
    requires |fb| == FRAME_BYTES && p % 2 == 0 && q < p && q < FRAME_BYTES
    ensures Layout(fb, p, text, color)[q] == fb[q]
    decreases |text|
  {
    if text != [] && text[0] != 0 && p < FRAME_BYTES {
      AdvanceEven(p, text[0]);
      LayoutKeeps(Glyph(fb, p, text[0], color), Advance(p, text[0]), text[1..], color, q);
    }
  }

  lemma TailShown(p: nat, text: seq<byte>, k: nat)
    requires text != [] && text[0] != 0 && p % 2 == 0 && p < FRAME_BYTES && Shown(Advance(p, text[0]), text[1..], k)
    ensures Shown(p, text, k + 1) && Landing(p, text, k + 1) == Landing(Advance(p, text[0]), text[1..], k)
  {
    LandingTail(p, text, k + 1);
    assert forall j :: 1 <= j <= k + 1 ==> text[j] == text[1..][j - 1];
  }

  lemma TailElsewhere(p: nat, text: seq<byte>, q: nat)
    requires text != [] && text[0] != 0 && p % 2 == 0 && p < FRAME_BYTES
    requires forall k: nat :: Shown(p, text, k) && text[k] != NEWLINE ==>
      q != Landing(p, text, k) && q != Landing(p, text, k) + 1
    ensures forall k: nat :: Shown(Advance(p, text[0]), text[1..], k) && text[1..][k] != NEWLINE ==>
      q != Landing(Advance(p, text[0]), text[1..], k) && q != Landing(Advance(p, text[0]), text[1..], k) + 1
  {
    forall k: nat | Shown(Advance(p, text[0]), text[1..], k) && text[1..][k] != NEWLINE
      ensures q != Landing(Advance(p, text[0]), text[1..], k) && q != Landing(Advance(p, text[0]), text[1..], k) + 1
    {
      TailShown(p, text, k);
      assert text[k + 1] != NEWLINE;
    }
  }

  /** A cell on which no printed character lands keeps both of its bytes. */
  lemma {:induction false} LayoutElsewhere(fb: seq<byte>, p: nat, text: seq<byte>, color: byte, q: nat)
    requires |fb| == FRAME_BYTES && p % 2 == 0 && q < FRAME_BYTES
    requires forall k: nat :: Shown(p, text, k) && text[k] != NEWLINE ==>
      q != Landing(p, text, k) && q != Landing(p, text, k) + 1
    ensures Layout(fb, p, text, color)[q] == fb[q]
    decreases |text|
  {
    if text != [] && text[0] != 0 && p < FRAME_BYTES {
      AdvanceEven(p, text[0]);
      assert Shown(p, text, 0) && Landing(p, text, 0) == p;
      TailElsewhere(p, text, q);
      LayoutElsewhere(Glyph(fb, p, text[0], color), Advance(p, text[0]), text[1..], color, q);
    }
  }

  // ---------- kputstring ----------

  /** The framebuffer after at most n characters are put from p on; the NUL that ends the text is put as well. */
  function PutN(fb: seq<byte>, p: nat, text: seq<byte>, n: nat, color: byte): (fb': seq<byte>)
    requires |fb| == FRAME_BYTES && p % 2 == 0
    ensures |fb'| == FRAME_BYTES
    decreases n
  {
    if n == 0 || text == [] || p >= FRAME_BYTES then fb
    else if text[0] == 0 then Glyph(fb, p, 0, color)
    else AdvanceEven(p, text[0]); PutN(Glyph(fb, p, text[0], color), Advance(p, text[0]), text[1..], n - 1, color)
  }

  lemma PutNothing(fb: seq<byte>, p: nat, text: seq<byte>, color: byte)
    requires |fb| == FRAME_BYTES && p % 2 == 0
    ensures PutN(fb, p, text, 0, color) == fb
  {
  }

  /** One turn of the loop: character i is put, and the rest goes behind it. */
  lemma PutNStep(fb: seq<byte>, p: nat, text: seq<byte>, i: nat, c: nat, color: byte)
    requires |fb| == FRAME_BYTES && p % 2 == 0 && p < FRAME_BYTES && i < c && i < |text|
    ensures text[i] == 0 ==> PutN(fb, p, text[i..], c - i, color) == Glyph(fb, p, 0, color)
    ensures text[i] != 0 ==>
      && Advance(p, text[i]) % 2 == 0
      && PutN(fb, p, text[i..], c - i, color)
         == PutN(Glyph(fb, p, text[i], color), Advance(p, text[i]), text[i + 1..], c - (i + 1), color)
  {
    AdvanceEven(p, text[i]);
    assert text[i..][1..] == text[i + 1..];
  }

  /** Without a NUL among the first n characters, kputstring is kprint of those characters. */
  lemma {:induction false} PutNIsLayout(fb: seq<byte>, p: nat, text: seq<byte>, n: nat, color: byte)
    requires |fb| == FRAME_BYTES && p % 2 == 0 && n <= |text| && forall k :: 0 <= k < n ==> text[k] != 0
    ensures PutN(fb, p, text, n, color) == Layout(fb, p, text[..n], color)
    decreases n
  {
    if n > 0 && p < FRAME_BYTES {
      AdvanceEven(p, text[0]);
      PutNIsLayout(Glyph(fb, p, text[0], color), Advance(p, text[0]), text[1..], n - 1, color);
      assert text[..n][1..] == text[1..][..n - 1];
    }
  }

  /** A NUL met at character z blanks one more cell than kprint does, when that cell is on the screen. */
  lemma {:induction false} PutNBlanks(fb: seq<byte>, p: nat, text: seq<byte>, n: nat, color: byte, z: nat)
    requires |fb| == FRAME_BYTES && p % 2 == 0 && z < n <= |text|
    requires text[z] == 0 && forall k :: 0 <= k < z ==> text[k] != 0
    ensures PutN(fb, p, text, n, color) ==
      var fb', q := Layout(fb, p, text, color), Landing(p, text, z);
      if q + 1 < FRAME_BYTES then Cell(fb', q, 0, color) else fb'
    decreases z
  {
    if p >= FRAME_BYTES {
      LandingGrows(p, text, z);
    } else if z > 0 {
      AdvanceEven(p, text[0]);
      LandingTail(p, text, z);
      PutNBlanks(Glyph(fb, p, text[0], color), Advance(p, text[0]), text[1..], n - 1, color, z - 1);
    }
  }

  // ---------- whole-screen changes ----------

  /** Every row moves up by one and the last one is blank. */
  function Scrolled(fb: seq<byte>): (fb': seq<byte>)
    requires |fb| == FRAME_BYTES
    ensures |fb'| == FRAME_BYTES
  {
    fb[ROW_BYTES..] + seq(ROW_BYTES, _ => 0)
  }

  /** The color bytes of n cells from pos on become color, as far as the screen goes. */
  function Colored(fb: seq<byte>, pos: nat, n: int, color: byte): (fb': seq<byte>)
    ensures |fb'| == |fb|
  {
    seq(|fb|, k requires 0 <= k < |fb| => if pos <= k && k % 2 == 1 && k < pos + 2 * n then color else fb[k])
  }

  /** Cell by cell: the characters stay, and the n cells from pos on take the color. */
  lemma ColoredCell(fb: seq<byte>, pos: nat, n: int, color: byte, cell: nat)
    requires pos % 2 == 0 && 2 * cell + 1 < |fb|
    ensures Colored(fb, pos, n, color)[2 * cell] == fb[2 * cell]
    ensures Colored(fb, pos, n, color)[2 * cell + 1] ==
      if pos / 2 <= cell < pos / 2 + n then color else fb[2 * cell + 1]
  {
    assert pos == 2 * (pos / 2);
  }

  /** Byte by byte: what stood a row below, and zeros in the last row. */
  lemma ScrolledByte(fb: seq<byte>, q: nat)
    requires |fb| == FRAME_BYTES && q < FRAME_BYTES
    ensures Scrolled(fb)[q] == if q + 160 < FRAME_BYTES then fb[q + 160] else 0
  {
  }

  // ---------- the driver ----------

  class Display {
    const fb: array<byte>
    const nb: array<byte>   // the chunk for numbers
    var vidptr: int         // offset of the video pointer from the start of the framebuffer

    ghost predicate Valid() {
      fb.Length == FRAME_BYTES && nb.Length == MAX_INT_CHARS && fb != nb
    }

    /** graphics_init */
    constructor ()
      ensures Valid() && fresh(fb) && fresh(nb) && vidptr == 0
    {
      fb := new byte[FRAME_BYTES](_ => 0);
      nb := new byte[MAX_INT_CHARS](_ => 0);
      vidptr := 0;
    }

    /** handle_newline */
    method HandleNewline()
      requires 0 <= vidptr
      modifies `vidptr
      ensures vidptr == Advance(old(vidptr), NEWLINE)
    {
      var i := vidptr % (COLUMNS * 2);
      vidptr := vidptr + COLUMNS * 2 - i;
    }

    /** The character c and its color go to the pointer, which moves on; a newline only moves it. */
    method Emit(c: byte, color: byte)
      requires Valid() && 0 <= vidptr && vidptr + 1 < FRAME_BYTES
      modifies `vidptr, fb
      ensures fb[..] == Glyph(old(fb[..]), old(vidptr), c, color) && vidptr == Advance(old(vidptr), c)
    {
      if c != NEWLINE {
        fb[vidptr] := c;
        vidptr := vidptr + 1;
        fb[vidptr] := color;
        vidptr := vidptr + 1;
      } else {
        HandleNewline();
      }
    }

    /** kputchar */
    method KPutChar(pos: nat, c: byte, color: byte)
      requires Valid() && pos + 1 < FRAME_BYTES
      modifies `vidptr, fb
      ensures fb[..] == Cell(old(fb[..]), pos, c, color)
    {
      vidptr := pos;
      fb[vidptr] := c;
      vidptr := vidptr + 1;
      fb[vidptr] := color;
    }

    /** kprint: the text up to its NUL or the end of the screen, from any even position on the screen. */
    method KPrint(pos: nat, text: seq<byte>, color: byte)
      requires Valid() && pos % 2 == 0 && pos < FRAME_BYTES
      requires 0 in text || FRAME_BYTES <= Landing(pos, text, |text|)
      modifies `vidptr, fb
      ensures fb[..] == Layout(old(fb[..]), pos, text, color)
    {
      ghost var all, z := Layout(fb[..], pos, text, color), |text|;   // where the text ends at the latest
      if 0 in text {
        z :| 0 <= z < |text| && text[z] == 0;
      }
      vidptr := pos;
      var i := 0;
      assert text[0..] == text;
      while text[i] != 0
        invariant i < |text| && i <= z
        invariant 0 <= vidptr && vidptr % 2 == 0 && vidptr < FRAME_BYTES && vidptr == Landing(pos, text, i)
        invariant Layout(fb[..], vidptr, text[i..], color) == all
        decreases |text| - i
      {
        var done := PrintOne(text, i, color);
        if done {
          return;
        }
        i := i + 1;
      }
    }

    /** One turn of the loop of kprint; done when the screen ends. */
    method PrintOne(text: seq<byte>, i: nat, color: byte) returns (done: bool)
      requires Valid() && 0 <= vidptr < FRAME_BYTES && vidptr % 2 == 0 && i < |text| && text[i] != 0
      modifies `vidptr, fb
      ensures vidptr == Advance(old(vidptr), text[i]) && (done <==> FRAME_BYTES <= vidptr)
      ensures done ==> fb[..] == Layout(old(fb[..]), old(vidptr), text[i..], color)
      ensures !done ==> 0 <= vidptr && vidptr % 2 == 0
      ensures !done ==>
        Layout(fb[..], vidptr, text[i + 1..], color) == Layout(old(fb[..]), old(vidptr), text[i..], color)
    {
      AdvanceEven(vidptr, text[i]);
      assert text[i..][1..] == text[i + 1..];
      Emit(text[i], color);
      done := vidptr >= FRAME_BYTES;
    }

    /** kputstring: at most c characters of the text, from any even position on the screen. */
    method KPutString(pos: nat, text: seq<byte>, c: int, color: byte)
      requires Valid() && pos % 2 == 0 && pos < FRAME_BYTES
      requires c <= |text| || 0 in text || FRAME_BYTES <= Landing(pos, text, |text|)
      modifies `vidptr, fb
      ensures fb[..] == PutN(old(fb[..]), pos, text, if c < 0 then 0 else c, color)
    {
      hide PutN, Running;
      ghost var n := if c < 0 then 0 else c;
      ghost var all := PutN(fb[..], pos, text, n, color);
      vidptr := pos;
      var i := 0;
      RunningStarts(pos, text);
      while i < c
        invariant 0 <= i <= n && i <= |text| && Running(pos, text, i, vidptr) && 0 <= vidptr && vidptr % 2 == 0
        invariant PutN(fb[..], vidptr, text[i..], n - i, color) == all
      {
        var done := PutOne(pos, text, i, color, n);
        if done {
          return;
        }
        i := i + 1;
      }
      PutNothing(fb[..], vidptr, text[i..], color);
    }

    /** One turn of the loop of kputstring; done when the text or the screen ends. */
    method PutOne(ghost pos: nat, text: seq<byte>, i: nat, color: byte, ghost n: nat) returns (done: bool)
      requires Valid() && 0 <= vidptr && vidptr % 2 == 0 && i < n && i <= |text| && Running(pos, text, i, vidptr)
      requires n <= |text| || 0 in text || FRAME_BYTES <= Landing(pos, text, |text|)
      modifies `vidptr, fb
      ensures i < |text|
      ensures done ==> fb[..] == PutN(old(fb[..]), old(vidptr), text[i..], n - i, color)
      ensures !done ==> 0 <= vidptr && vidptr % 2 == 0 && Running(pos, text, i + 1, vidptr)
      ensures !done ==>
        PutN(fb[..], vidptr, text[i + 1..], n - (i + 1), color)
        == PutN(old(fb[..]), old(vidptr), text[i..], n - i, color)
    {
      TextLasts(pos, text, n, i);
      PutNStep(fb[..], vidptr, text, i, n, color);
      assert text[..i + 1] == text[..i] + [text[i]];
      Emit(text[i], color);
      done := text[i] == 0 || vidptr >= FRAME_BYTES;
    }

    /** kprintnum */
    method KPrintNum(pos: nat, num: int, color: byte, base: nat)
      requires Valid() && pos % 2 == 0 && pos < FRAME_BYTES
      requires INT_MIN < num <= INT_MAX && ValidBase(base) && |IntText(num, base)| < MAX_INT_CHARS
      modifies `vidptr, fb, nb
      ensures fb[..] == Layout(old(fb[..]), pos, IntText(num, base) + [0], color)
    {
      ghost var before, t := fb[..], IntText(num, base);
      ghost var junk := nb[..][|t| + 1..];
      TextThenJunk(nb[..], t);
      ToString(nb, 0, num, base);
      KPrint(pos, nb[..], color);
      LayoutStops(before, pos, t, junk, color);
    }

    /** kccolor */
    method KCColor(pos: nat, n: int, color: byte)
      requires Valid() && pos % 2 == 0 && pos < FRAME_BYTES
      modifies `vidptr, fb
      ensures fb[..] == Colored(old(fb[..]), pos, n, color)
    {
      vidptr := pos;
      vidptr := vidptr + 1;
      var i := 0;
      while i < n
        invariant 0 <= i && vidptr == pos + 1 + 2 * i < FRAME_BYTES + 1
        invariant i <= n || (n < 0 && i == 0)
        invariant fb[..] == Colored(old(fb[..]), pos, i, color)
        decreases n - i
      {
        fb[vidptr] := color;
        ColoredStep(old(fb[..]), pos, i, color);
        vidptr := vidptr + 2;
        if vidptr > FRAME_BYTES {
          ColoredEnd(old(fb[..]), pos, i + 1, n, color);
          return;
        }
        i := i + 1;
      }
    }

    /** kclear */
    method KClear()
      requires Valid()
      modifies fb
      ensures fb[..] == seq(FRAME_BYTES, _ => 0)
    {
      MemSet(fb, 0, 0, FRAME_BYTES);
    }

    /** kscroll: row copies downwards through the frame, and a blank last row. */
    method KScroll()
      requires Valid()
      modifies fb
      ensures fb[..] == Scrolled(old(fb[..]))
    {
      var i := 0;
      while i < ROWS - 1
        invariant 0 <= i <= ROWS - 1
        invariant fb[..] == Lifted(old(fb[..]), ROW_BYTES * i)
      {
        ghost var m := fb[..];
        MemCpy(fb, GetPosition(0, i), GetPosition(0, i + 1), COLUMNS * 2);
        RowMoved(old(fb[..]), m, fb[..], ROW_BYTES * i);
        i := i + 1;
      }
      MemSet(fb, GetPosition(0, ROWS - 1), 0, COLUMNS * 2);
    }
  }

  /** fb with its first n bytes replaced by those one row further down. */
  function Lifted(fb: seq<byte>, n: nat): seq<byte>
    requires ROW_BYTES + n <= |fb|
  {
    fb[ROW_BYTES..ROW_BYTES + n] + fb[n..]
  }

  lemma LiftedAt(fb: seq<byte>, n: nat, k: nat)
    requires ROW_BYTES + n <= |fb| && k < |fb|
    ensures |Lifted(fb, n)| == |fb| && Lifted(fb, n)[k] == if k < n then fb[ROW_BYTES + k] else fb[k]
  {
  }

  lemma RowMoved(was: seq<byte>, m: seq<byte>, m': seq<byte>, n: nat)
    requires |was| == FRAME_BYTES && n + 2 * ROW_BYTES <= FRAME_BYTES && m == Lifted(was, n)
    requires |m| == |was| && m' == Copied(m, n, n + ROW_BYTES, ROW_BYTES)
    ensures m' == Lifted(was, n + ROW_BYTES)
  {
    var w := Lifted(was, n + ROW_BYTES);
    CopiedBytes(m, n, n + ROW_BYTES, ROW_BYTES);
    forall k | 0 <= k < FRAME_BYTES
      ensures |w| == |m'| && m'[k] == w[k]
    {
      LiftedAt(was, n, k);
      LiftedAt(was, n + ROW_BYTES, k);
      if n <= k < n + ROW_BYTES {
        LiftedAt(was, n, k + ROW_BYTES);
        assert m'[k] == m'[n..n + ROW_BYTES][k - n] == m[n + ROW_BYTES..n + 2 * ROW_BYTES][k - n];
      }
    }
  }

  lemma ColoredStep(fb: seq<byte>, pos: nat, i: nat, color: byte)
    requires pos % 2 == 0 && pos + 1 + 2 * i < |fb|
    ensures Colored(fb, pos, i, color)[pos + 1 + 2 * i := color] == Colored(fb, pos, i + 1, color)
  {
  }

  /** Past the end of the screen further cells make no difference. */
  lemma ColoredEnd(fb: seq<byte>, pos: nat, i: nat, n: nat, color: byte)
    requires i <= n && |fb| <= pos + 2 * i
    ensures Colored(fb, pos, i, color) == Colored(fb, pos, n, color)
  {
  }

  lemma TextThenJunk(m: seq<byte>, t: seq<byte>)
    requires |t| < |m|
    ensures WithText(m, 0, t) == t + [0] + m[|t| + 1..] && 0 in WithText(m, 0, t)
  {
    WithTextAt(m, 0, t, |t|);
  }

  /** What follows the NUL is never printed. */
  lemma {:induction false} LayoutStops(fb: seq<byte>, p: nat, t: seq<byte>, junk: seq<byte>, color: byte)
    requires |fb| == FRAME_BYTES && p % 2 == 0
    ensures Layout(fb, p, t + [0] + junk, color) == Layout(fb, p, t + [0], color)
    decreases |t|
  {
    if t != [] && t[0] != 0 && p < FRAME_BYTES {
      AdvanceEven(p, t[0]);
      LayoutStops(Glyph(fb, p, t[0], color), Advance(p, t[0]), t[1..], junk, color);
      assert (t + [0] + junk)[1..] == t[1..] + [0] + junk;
      assert (t + [0])[1..] == t[1..] + [0];
    }
  }
}
