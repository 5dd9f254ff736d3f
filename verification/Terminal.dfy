/** The command line of terminal.c: prompt, input buffer, cursor, printed lines, commands and command history. */
module Terminal {
  import opened Bytes
  import opened Blocks
  import opened HeapState
  import opened HeapView
  import opened KernelHeap
  import opened Numerals
  import opened CStrings
  import opened DynString
  import opened StringRuns
  import opened LinkedList
  import opened Desk
  import opened Screen
  import opened Pages
  import opened Sessions
  import opened Filing

  const PROMPT_START_ROW: nat := 14

  // ---------- cursor arithmetic ----------

  /** cursor_x after a backspace: one less, but not, as an unsigned number, below the prompt. */
  function BackCursor(cursorX: int, promptLength: nat): int
    requires -WORD_LIMIT < cursorX
  {
    if Wrap(cursorX - 1) < promptLength then promptLength else cursorX - 1
  }

  /** On an empty line the cursor stays behind the prompt exactly when there is a prompt. */
  lemma CursorNeedsPrompt(promptLength: nat)
    requires promptLength < 0x8000_0000
    ensures BackCursor(promptLength, promptLength) == promptLength <==> 0 < promptLength
  {
    assert Wrap(-1) == WORD_LIMIT - 1;
  }

  class Console {
    const heap: Heap
    const scr: Display
    const commands: seq<Command>
    const numbuffer: word    // where string_addnum writes digits; graphics_init has set it
    const lit: Literals      // ". " and the names of the commands
    var promptX: int
    var promptY: int
    var promptString: word
    var promptLength: nat
    var cursorX: int
    var cursorY: int
    var input: word
    var inputPtr: int
    var terminalColor: byte
    var cmdhistory: word
    var aliases: word
    var endterm: bool
    ghost var d: Papers

    constructor (heap: Heap, scr: Display, commands: seq<Command>, numbuffer: word, lit: Literals)
      ensures this.heap == heap && this.scr == scr && this.commands == commands
      ensures this.numbuffer == numbuffer && this.lit == lit
    {
      this.heap, this.scr, this.commands, this.numbuffer, this.lit := heap, scr, commands, numbuffer, lit;
      promptX, promptY, promptString, promptLength := 0, 0, 0, 0;
      cursorX, cursorY, input, inputPtr, terminalColor := 0, 0, 0, 0, 0;
      cmdhistory, aliases, endterm := 0, 0, false;
      d := Papers([], [], [], [], map[]);
    }

    ghost function Keys(): Pointers
      reads this
    {
      Pointers(input, promptString, promptLength, cmdhistory)
    }

    /** The heap holds what the terminal's pointers say. */
    ghost predicate Tidy()
      reads this, heap, heap.mem
    {
      && heap.Valid()
      && Filed(heap.view, d, Keys())
      && AliasAt(d.rest, aliases)
      && FixedText(heap.mem[..], lit, numbuffer) && Tabled(lit.names, commands)
    }

    ghost predicate Valid()
      reads this, heap, heap.mem, scr
    {
      && Tidy() && scr.Valid() && heap.mem != scr.fb && heap.mem != scr.nb
      && -1 <= promptY < ROWS
    }

    /** No line is being parsed. */
    ghost predicate Idle()
      requires HISTORY <= |d.vals|
      reads this
    {
      d.vals[COMMAND].Gone? && d.vals[PARAMS].Gone? && d.vals[BUFFER].Gone?
    }

    /** Between keys: the counters agree with the line, and the buffer has room for every key to come. */
    ghost predicate Ready()
      reads this, heap, heap.mem, scr
    {
      && Valid() && Idle()
      && 0 < promptLength < 0x4000_0000 && 0 <= promptY
      && inputPtr == |d.Line()| <= INPUT_SIZE
      && cursorX == promptLength + inputPtr && cursorY == promptY
      && d.vals[LINE].size in {INPUT_SIZE + 1, INPUT_SIZE + 3}
      && (|d.Line()| == INPUT_SIZE ==> d.vals[LINE].size == INPUT_SIZE + 3)
    }

    ghost function Screenful(): Page
      reads `promptY, scr.fb
    {
      Page(scr.fb[..], promptY)
    }

    ghost function Now(): Shell
      reads this, scr, scr.fb
    {
      Shell(d.Line(), d.hist, d.Text(PROMPT), terminalColor, Screenful(), endterm)
    }

    ghost function Setting(): Setup
      reads this
    {
      Setup(promptX, commands)
    }

    /** The screen part of new_prompt: the next row, scrolling at the bottom. */
    method AdvanceRow()
      requires scr.Valid() && -1 <= promptY < ROWS
      modifies `promptY, scr, scr.fb
      ensures Screenful() == NextRow(old(Screenful()), terminalColor)
    {
      promptY := promptY + 1;
      while promptY > ROWS - 1
        invariant promptY <= ROWS && scr.Valid()
        invariant promptY > ROWS - 1 ==> Page(scr.fb[..], promptY - 1) == old(Screenful())
        invariant promptY <= ROWS - 1 ==> Screenful() == NextRow(old(Screenful()), terminalColor)
        decreases promptY
      {
        scr.KScroll();
        scr.KCColor(GetPosition(0, 0), COLUMNS * ROWS, terminalColor);
        promptY := promptY - 1;
      }
    }

    /** The editor part of new_prompt: an empty line. */
    method ClearLine()
      requires Valid()
      modifies `cursorX, `cursorY, `inputPtr, `d, heap, heap.mem
      ensures Valid() && d == old(d).WithLine([], old(d).vals[LINE].size) && heap.bs == old(heap.bs)
      ensures inputPtr == 0 && cursorX == promptLength && cursorY == promptY
    {
      cursorY := promptY;
      cursorX := promptLength;
      ghost var v, m, n := heap.view, heap.mem[..], d.vals[LINE].size;
      LineHeld(v, d, Keys());
      Clear(heap, input, d.Line(), n);
      inputPtr := 0;
      FixedTextSame(m, heap.mem[..], lit, numbuffer);
      LineStep(v, heap.view, d, Keys(), [], n);
      d := d.WithLine([], n);
    }

    /** new_prompt */
    method NewPrompt()
      requires Valid()
      modifies `promptY, `cursorX, `cursorY, `inputPtr, `d, heap, heap.mem, scr, scr.fb
      ensures Valid() && d == old(d).WithLine([], old(d).vals[LINE].size) && heap.bs == old(heap.bs)
      ensures Screenful() == NextRow(old(Screenful()), terminalColor)
      ensures Now() == NewLine(old(Now()))
      ensures inputPtr == 0 && cursorX == promptLength && cursorY == promptY
    {
      AdvanceRow();
      ClearLine();
    }

    /** writeline: a new row, the characters, and a new row after every column 79. */
    method WriteMessage(msg: seq<byte>, ghost t: seq<byte>)
      requires Valid() && CStrAt(msg, 0, t)
      modifies `promptY, `cursorX, `cursorY, `inputPtr, `d, heap, heap.mem, scr, scr.fb
      ensures Valid() && d == old(d).WithLine([], old(d).vals[LINE].size) && heap.bs == old(heap.bs)
      ensures Screenful() == WriteLine(old(Screenful()), t, terminalColor)
      ensures inputPtr == 0 && cursorX == promptLength && cursorY == promptY
    {
      var i := 0;
      NewPrompt();
      ghost var d1 := d;
      CStrByte(msg, 0, t, 0);
      while msg[i] != 0
        invariant i <= |t| && i < |msg| && Valid() && d == d1 && heap.bs == old(heap.bs)
        invariant inputPtr == 0 && cursorX == promptLength && cursorY == promptY
        invariant WriteFrom(Screenful(), t, i, terminalColor) == WriteLine(old(Screenful()), t, terminalColor)
        decreases |t| - i
      {
        CStrByte(msg, 0, t, i);
        CStrByte(msg, 0, t, i + 1);
        scr.KPutChar(GetPosition(i % COLUMNS, promptY), msg[i], terminalColor);
        if i > 0 && i % (COLUMNS - 1) == 0 {
          NewPrompt();
        }
        i := i + 1;
      }
      CStrByte(msg, 0, t, i);
    }

    /** The backspace branch of handle_input. */
    method Backspace()
      requires Ready()
      modifies `cursorX, `inputPtr, `d, heap, heap.mem, scr, scr.fb
      ensures Ready() && Now() == Rubout(old(Now()), Setting())
      ensures d.rest == old(d).rest && heap.bs == old(heap.bs)
      ensures cursorX == BackCursor(old(cursorX), promptLength)
    {
      hide FixedText, Tabled, AliasAt, Cell, IsList;
      cursorX := cursorX - 1;
      if Wrap(cursorX) < promptLength {
        cursorX := promptLength;
      }
      if inputPtr > 0 {
        inputPtr := inputPtr - 1;
        EraseAt(inputPtr);
        scr.KPutChar(GetPosition(promptX + promptLength + inputPtr, promptY), SPACE, terminalColor);
      }
    }

    /** input->data[k] = 0, over the last character of the line. */
    method EraseAt(k: nat)
      requires Tidy() && |d.Line()| == k + 1
      modifies `d, heap, heap.mem
      ensures Tidy() && heap.bs == old(heap.bs)
      ensures d == old(d).WithLine(old(d).Line()[..k], old(d).vals[LINE].size)
    {
      ghost var v, m, t, n := heap.view, heap.mem[..], d.Line(), d.vals[LINE].size;
      LineHeld(v, d, Keys());
      WriteAt(heap, input, k, 0);
      FixedTextSame(m, heap.mem[..], lit, numbuffer);
      Shortened(v, input, t, n, heap.view);
      LineStep(v, heap.view, d, Keys(), t[..k], n);
      d := d.WithLine(t[..k], n);
    }

    /** string_addchar on the line, which has room for it without a new block. */
    method AppendChar(t: byte)
      requires Tidy() && t != 0
      requires |d.Line()| + 2 < d.vals[LINE].size || d.vals[LINE].size + 1 < INPUT_SIZE + 4
      modifies `d, heap, heap.mem
      ensures Tidy() && heap.bs == old(heap.bs)
      ensures d == old(d).WithLine(old(d).Line() + [t], CharCapacity(|old(d).Line()|, old(d).vals[LINE].size))
    {
      ghost var v, m, line, n := heap.view, heap.mem[..], d.Line(), d.vals[LINE].size;
      ghost var n' := CharCapacity(|line|, n);
      LineHeld(v, d, Keys());
      var halted := AddChar(heap, input, t, line, n);
      FixedTextSame(m, heap.mem[..], lit, numbuffer);
      LineStep(v, heap.view, d, Keys(), line + [t], n');
      d := d.WithLine(line + [t], n');
    }

    /** The last branch of handle_input: a character is typed, as long as there is room for one. */
    method TypeChar(t: byte)
      requires Ready() && t != NEWLINE && t != BACKSPACE
      modifies `cursorX, `inputPtr, `d, heap, heap.mem
      ensures Ready() && Now() == Press(old(Now()), t, Setting())
      ensures d.rest == old(d).rest && heap.bs == old(heap.bs)
    {
      if inputPtr < INPUT_SIZE && t != 0 {
        cursorX := cursorX + 1;
        AppendChar(t);
        inputPtr := inputPtr + 1;
      }
    }

    // ---------- parse_input ----------

    /** string_newsz into one of the places for parsing. */
    method NewScratch(i: nat, size: word) returns (halted: bool, p: word)
      requires Tidy() && COMMAND <= i <= BUFFER && d.vals[i].Gone? && size < MAX_REQUEST
      modifies `d, heap, heap.mem
      ensures !halted ==> Tidy()
      ensures !halted ==> d == old(d).(strs := old(d).strs[i := p], vals := old(d).vals[i := Str([], size + 1)])
      ensures Spends(old(heap.bs), heap.bs, halted, StringCost(size + 1))
    {
      hide Room, Takes, StringStarved, StringSlot, Is, FixedText;
      ghost var v, m := heap.view, heap.mem[..];
      StringSpends(heap.bs, size + 1);
      halted, p := NewSz(heap, size);
      if !halted {
        FixedTextSame(m, heap.mem[..], lit, numbuffer);
        ScratchFill(v, heap.view, d, Keys(), i, p, Str([], size + 1));
        d := d.(strs := d.strs[i := p], vals := d.vals[i := Str([], size + 1)]);
      }
    }

    /** string_free of one of the strings for parsing. */
    method FreeScratch(ghost i: nat, p: word)
      requires Tidy() && COMMAND <= i <= BUFFER && d.vals[i].Str? && p == d.strs[i]
      modifies `d, heap, heap.mem
      ensures Tidy() && Spends(old(heap.bs), heap.bs, false, 0)
      ensures d == old(d).(strs := old(d).strs[i := 0], vals := old(d).vals[i := Gone])
    {
      hide Room, Is, FixedText;
      ghost var v, m := heap.view, heap.mem[..];
      FreeSpends(heap.bs, Data(v, p), p);
      StringHeld(v, d, Keys(), i);
      ScratchDrop(v, d, Keys(), i);
      FreeString(heap, p, d.vals[i].text, d.vals[i].size);
      FixedTextSame(m, heap.mem[..], lit, numbuffer);
      d := d.(strs := d.strs[i := 0], vals := d.vals[i := Gone]);
    }

    /** string_addchar to one of the strings for parsing. */
    method AddScratch(ghost i: nat, p: word, c: byte) returns (halted: bool)
      requires Tidy() && COMMAND <= i <= BUFFER && Snug(d.vals[i]) && p == d.strs[i] && c != 0
      modifies `d, heap, heap.mem
      ensures !halted ==> Tidy() && Scratch(old(d), d, i, old(d).vals[i].text + [c]) && Snug(d.vals[i])
      ensures Spends(old(heap.bs), heap.bs, halted, Takes(|old(d).vals[i].text| + 4))
    {
      hide Room, Takes, Stuck, Regrown, Frame, Is, FixedText, Tabled;
      ghost var v, m, t, n := heap.view, heap.mem[..], d.vals[i].text, d.vals[i].size;
      ghost var n' := CharCapacity(|t|, n);
      StringHeld(v, d, Keys(), i);
      GrowthSpends(SlotOf(heap.bs, v, p), n, n', |t| + 4);
      halted := AddChar(heap, p, c, t, n);
      if !halted {
        FixedTextSame(m, heap.mem[..], lit, numbuffer);
        ScratchStep(v, heap.view, d, Keys(), i, t + [c], n');
        d := d.With(i, Str(t + [c], n'));
      }
    }

    /** input->data[s] */
    method LineByte(s: nat) returns (c: byte)
      requires Tidy() && s <= |d.Line()|
      ensures s < |d.Line()| ==> c == d.Line()[s] != 0
      ensures s == |d.Line()| ==> c == 0
    {
      StringHeld(heap.view, d, Keys(), LINE);
      var data := heap.PeekWord(input, 0);
      CStrByte(heap.view[data], 0, d.Line(), s);
      c := heap.Peek(data, s);
    }

    /** The text of a string, read from its buffer. */
    method ReadText(ghost i: nat, p: word) returns (t: seq<byte>)
      requires Tidy() && i < |d.vals| && d.vals[i].Str? && p == d.strs[i]
      ensures t == d.vals[i].text && NoNul(t)
    {
      ghost var u := d.vals[i].text;
      StringHeld(heap.view, d, Keys(), i);
      var data := heap.PeekWord(p, 0);
      t := [];
      CStrByte(heap.view[data], 0, u, 0);
      var c := heap.Peek(data, 0);
      while c != 0
        invariant |t| <= |u| && t == u[..|t|]
        invariant (|t| < |u| ==> c == u[|t|] != 0) && (|t| == |u| ==> c == 0)
        decreases |u| - |t|
      {
        CStrByte(heap.view[data], 0, u, |t| + 1);
        t := t + [c];
        c := heap.Peek(data, |t|);
      }
    }

    /** Both copying loops of parse_input: characters of the line from start on, up to NUL, or up to a space as well. */
    method CopyChars(ghost i: nat, p: word, start: nat, atSpace: bool) returns (halted: bool, s: nat)
      requires Tidy() && COMMAND <= i <= BUFFER && p == d.strs[i]
      requires d.vals[i] == Str([], 1) && start <= |d.Line()|
      modifies `d, heap, heap.mem
      ensures !halted ==> Tidy() && RunOf(old(d).Line(), start, s, atSpace)
      ensures !halted ==> Scratch(old(d), d, i, old(d).Line()[start..s])
      ensures start <= s <= |old(d).Line()| && (halted ==> s < |old(d).Line()|)
      ensures var line := old(d).Line();
        Spends(old(heap.bs), heap.bs, halted, CharsCost(if halted then s + 1 - start else s - start, line))
    {
      hide Room, Takes, FixedText, Tabled, AliasAt;
      ghost var d0, line, bs := d, d.Line(), heap.bs;
      s := start;
      halted := false;
      assert Scratch(d0, d, i, line[start..s]);
      var c := LineByte(s);
      while c != 0 && !(atSpace && c == SPACE)
        invariant start <= s <= |line| && (s < |line| ==> c == line[s] != 0) && (s == |line| ==> c == 0)
        invariant atSpace ==> forall k :: start <= k < s ==> line[k] != SPACE
        invariant Tidy() && Scratch(d0, d, i, line[start..s]) && Snug(d.vals[i])
        invariant Spends(bs, heap.bs, false, CharsCost(s - start, line))
        decreases |line| - s
      {
        ghost var d1, mid := d, heap.bs;
        halted := AddScratch(i, p, c);
        CharSpends(bs, mid, heap.bs, halted, s - start, line);
        if halted {
          return;
        }
        ScratchAgain(d0, d1, d, i, line[start..s], line[start..s] + [c]);
        assert line[start..s] + [c] == line[start..s + 1];
        s := s + 1;
        c := LineByte(s);
      }
    }

    /** The line is cut at its first space into the command and the rest. */
    method SplitInput(cmd: word, params: word) returns (halted: bool)
      requires Tidy() && cmd == d.strs[COMMAND] && params == d.strs[PARAMS]
      requires d.vals[COMMAND] == Str([], 1) && d.vals[PARAMS] == Str([], 1)
      modifies `d, heap, heap.mem
      ensures !halted ==> Tidy()
      ensures !halted ==> d.vals[COMMAND].Str? && d.vals[COMMAND].text == CommandOf(old(d).Line())
      ensures !halted ==> d.vals[PARAMS].Str? && d.vals[PARAMS].text == ParamsOf(old(d).Line())
      ensures !halted ==> d == old(d).With(COMMAND, d.vals[COMMAND]).With(PARAMS, d.vals[PARAMS])
      ensures Spends(old(heap.bs), heap.bs, halted, CharsCost(|old(d).Line()|, old(d).Line()))
    {
      hide Room, Takes, FixedText, Tabled, AliasAt;
      ghost var d0, bs, line := d, heap.bs, d.Line();
      var s, end;
      halted, s := CopyChars(COMMAND, cmd, 0, true);
      CharsSpend(bs, heap.bs, halted, if halted then s + 1 else s, line);
      if halted {
        return;
      }
      ghost var d1, mid := d, heap.bs;
      var c := LineByte(s);
      if c != 0 {
        halted, end := CopyChars(PARAMS, params, s + 1, false);
        PartsSpend(bs, mid, heap.bs, halted, s, if halted then end + 1 else end, line);
        if halted {
          return;
        }
      }
      BothParts(d0, d1, d, s);
    }

    /** A new string with the text of the line, not yet in the history list. */
    method CopyLine() returns (halted: bool, p: word)
      requires Tidy()
      modifies heap, heap.mem
      ensures !halted ==> heap.Valid() && SameLow(old(heap.mem[..]), heap.mem[..])
      ensures !halted ==> p != 0 && Roomy(heap.view, input)
      ensures !halted ==>
        Sealed(heap.view, d.strs + [p], d.vals + [Str(d.Line(), |d.Line()| + 1)], d.ns, d.Values(), d.rest)
      ensures Spends(old(heap.bs), heap.bs, halted, StringCost(1) + Takes(|d.Line()| + 1))
    {
      hide Room, Takes, Stuck, Regrown, StringStarved, StringSlot, Frame, Is;
      ghost var v, line, bs := heap.view, d.Line(), heap.bs;
      StringSpends(bs, 1);
      halted, p := NewSz(heap, 0);
      if halted { return; }
      NewBeside(heap, v, d, Keys(), p);
      ghost var v1, mid := heap.view, heap.bs;
      GrowthSpends(SlotOf(mid, v1, p), 1, |line| + 1, |line| + 1);
      var data := heap.PeekWord(input, 0);
      halted := Add(heap, p, data, [], 1, line, data);
      SpendsBoth(bs, mid, heap.bs, halted, StringCost(1), Takes(|line| + 1));
      if halted { return; }
      assert [] + line == line;
      LineCopied(v1, heap.view, d, Keys(), p);
    }

    /** The history part of parse_input: the entered line is kept at the end of the history list. */
    method RecordLine() returns (halted: bool)
      requires Tidy()
      modifies `d, heap, heap.mem
      ensures !halted ==> Tidy() && d.hist == old(d).hist + [old(d).Line()]
      ensures !halted ==> d.rest == old(d).rest
      ensures !halted ==> d.strs[..HISTORY] == old(d).strs[..HISTORY] && d.vals[..HISTORY] == old(d).vals[..HISTORY]
      ensures Spends(old(heap.bs), heap.bs, halted, RecordCost(old(d).Line()))
    {
      hide Room, Takes, FixedText, IsList, Others, Sealed, StringCost, AliasAt;
      ghost var m, line, xs, bs := heap.mem[..], d.Line(), d.Values(), heap.bs;
      RecordsOf(heap.view, d, Keys());
      var p;
      halted, p := CopyLine();
      if halted {
        return;
      }
      ghost var mid := heap.bs;
      NodeSpends(mid);
      ghost var v, strs, vals, ns := heap.view, d.strs + [p], d.vals + [Str(line, |line| + 1)], d.ns;
      FirstValue(v, d, p);
      var value := heap.PeekWord(cmdhistory, VALUE);
      if value == 0 {
        SetFirstValue(heap, cmdhistory, p, ns, xs);
        xs := [p];
      } else {
        ghost var node;
        halted, node := ListAdd(heap, cmdhistory, p, ns, xs, 0);
        SpendsBoth(bs, mid, heap.bs, halted, StringCost(1) + Takes(|line| + 1), Takes(NODE_SIZE));
        if halted {
          return;
        }
        ns, xs := ns + [node], xs + [p];
      }
      FixedTextSame(m, heap.mem[..], lit, numbuffer);
      Recorded(v, heap.view, d, Keys(), p, ns, xs);
      d := Papers(strs, vals, ns, d.hist + [line], d.rest);
    }

    /** parse_input */
    method ParseInput() returns (halted: bool)
      requires Ready()
      modifies `promptY, `promptLength, `cursorX, `cursorY, `inputPtr, `terminalColor, `endterm, `d
      modifies heap, heap.mem, scr, scr.fb
      ensures !halted ==> Ready() && Now() == Enter(old(Now()), Setting())
      ensures !halted ==> Left(old(d).rest, d.rest, LeftIn(Setting(), d.hist, |old(d).hist|))
      ensures old(d).Line() == [] ==> !halted && heap.bs == old(heap.bs)
      ensures old(d).Line() != [] ==>
        Spends(old(heap.bs), heap.bs, halted, LineCost(Setting(), old(d).hist + [old(d).Line()]))
    {
      hide Room, Takes, FixedText, Tabled, AliasAt, LineCost, Left, Commanded, NewLine, NextRow, LeftBy, Spends, Found;
      if inputPtr <= 0 {
        LeftNothing(d.rest, d.rest);
        NewPrompt();
        return false;
      }
      LeftOneMore(Setting(), d.hist, d.Line(), |d.hist|);
      ghost var entered := Now().(hist := d.hist + [d.Line()]);
      halted := ParseLine();
      if !halted {
        ghost var command, params := CommandOf(entered.line), ParamsOf(entered.line);
        NewLineSame(Now(), Commanded(entered, Answer(Setting(), |entered.hist|, entered.line), command, params));
        NewPrompt();
      }
    }

    /** parse_input for a line that is not empty, up to the last new_prompt. */
    method ParseLine() returns (halted: bool)
      requires Valid() && Idle() && |d.Line()| <= INPUT_SIZE && 0 < promptLength < 0x4000_0000
      modifies `promptY, `promptLength, `cursorX, `cursorY, `inputPtr, `terminalColor, `endterm, `d
      modifies heap, heap.mem, scr, scr.fb
      ensures !halted ==> Valid() && Idle() && d.hist == old(d).hist + [old(d).Line()]
      ensures !halted ==> d.vals[LINE].size == old(d).vals[LINE].size && 0 < promptLength < 0x4000_0000
      ensures !halted ==>
        Left(old(d).rest, d.rest, LeftBy(Answer(Setting(), |old(d).hist| + 1, old(d).Line())))
      ensures Spends(old(heap.bs), heap.bs, halted, LineCost(Setting(), old(d).hist + [old(d).Line()]))
      ensures !halted ==>
        var command, params := CommandOf(old(d).Line()), ParamsOf(old(d).Line());
        var before := old(Now()).(hist := old(d).hist + [old(d).Line()]);
        var r := Found(Setting(), |before.hist|, command, params);
        Now().(line := []) == Commanded(before, r, command, params).(line := [])
    {
      hide Tidy, Room, Takes, Left, LeftBy, Found, TakeCost, ResponseCost, Commanded, CommandOf, ParamsOf;
      ParamsFit(d.Line());
      var cmd, params;
      ghost var bs, line, st, entered := heap.bs, d.Line(), Setting(), Now().(hist := d.hist + [d.Line()]);
      halted, cmd, params := TakeLine();
      if halted { return; }
      ghost var mid, hist := heap.bs, d.hist;
      assert Now() == entered;
      halted := RunLine(cmd, params);
      SpendsBoth(bs, mid, heap.bs, halted, TakeCost(line),
                 ResponseCost(Answer(st, |hist|, line), hist, ParamsOf(line)));
    }

    /** The second half of parse_input: the command is run, and the strings for parsing are freed. */
    method RunLine(cmd: word, params: word) returns (halted: bool)
      requires Valid() && cmd == d.strs[COMMAND] && params == d.strs[PARAMS] && d.hist != []
      requires d.vals[COMMAND].Str? && d.vals[PARAMS].Str? && d.vals[BUFFER].Gone?
      requires |d.vals[PARAMS].text| <= INPUT_SIZE && 0 < promptLength < 0x4000_0000
      modifies `promptY, `promptLength, `cursorX, `cursorY, `inputPtr, `terminalColor, `endterm, `d
      modifies heap, heap.mem, scr, scr.fb
      ensures !halted ==> Valid() && Idle() && d.hist == old(d).hist
      ensures !halted ==> d.vals[LINE].size == old(d).vals[LINE].size && 0 < promptLength < 0x4000_0000
      ensures var command, text := old(d).vals[COMMAND].text, old(d).vals[PARAMS].text;
        var r := Found(Setting(), |old(d).hist|, command, text);
        && Spends(old(heap.bs), heap.bs, halted, ResponseCost(r, old(d).hist, text))
        && (!halted ==> Left(old(d).rest, d.rest, LeftBy(r)))
        && (!halted ==> Now().(line := []) == Commanded(old(Now()), r, command, text).(line := []))
    {
      hide Room, Takes, FixedText, Tabled, AliasAt, Left, LeftBy, Found, ResponseCost, Commanded;
      ghost var bs := heap.bs;
      halted := Execute(cmd, params);
      if !halted {
        FreeParts(cmd, params);
      }
    }

    /** string_free of command and parameters. */
    method FreeParts(cmd: word, params: word)
      requires Tidy() && cmd == d.strs[COMMAND] && params == d.strs[PARAMS]
      requires d.vals[COMMAND].Str? && d.vals[PARAMS].Str?
      modifies `d, heap, heap.mem
      ensures Tidy() && Spends(old(heap.bs), heap.bs, false, 0)
      ensures d == old(d).(strs := d.strs, vals := old(d).vals[COMMAND := Gone][PARAMS := Gone])
    {
      FreeScratch(COMMAND, cmd);
      FreeScratch(PARAMS, params);
    }

    /** The first half of parse_input: the line goes into the history, and its command and parameters into strings. */
    method TakeLine() returns (halted: bool, cmd: word, params: word)
      requires Tidy() && Idle()
      modifies `d, heap, heap.mem
      ensures !halted ==> Tidy() && d.hist == old(d).hist + [old(d).Line()] && d.rest == old(d).rest
      ensures !halted ==> d.vals[LINE] == old(d).vals[LINE] && d.vals[PROMPT] == old(d).vals[PROMPT]
      ensures !halted ==> d.Line() == old(d).Line() && d.Text(PROMPT) == old(d).Text(PROMPT)
      ensures !halted ==> cmd == d.strs[COMMAND] && params == d.strs[PARAMS] && d.vals[BUFFER].Gone?
      ensures !halted ==> d.vals[COMMAND].Str? && d.vals[COMMAND].text == CommandOf(old(d).Line())
      ensures !halted ==> d.vals[PARAMS].Str? && d.vals[PARAMS].text == ParamsOf(old(d).Line())
      ensures Spends(old(heap.bs), heap.bs, halted, TakeCost(old(d).Line()))
    {
      hide Room, Takes, FixedText, AliasAt, StringCost, RecordCost, CharsCost, CommandOf, ParamsOf;
      params := 0;
      ghost var bs0, line := heap.bs, d.Line();
      halted, cmd := NewScratch(COMMAND, 0);
      if halted { return; }
      ghost var bs1 := heap.bs;
      halted, params := NewScratch(PARAMS, 0);
      SpendsBoth(bs0, bs1, heap.bs, halted, StringCost(1), StringCost(1));
      if halted { return; }
      ghost var d1, bs2 := d, heap.bs;
      halted := RecordLine();
      SpendsBoth(bs0, bs2, heap.bs, halted, StringCost(1) + StringCost(1), RecordCost(line));
      if halted { return; }
      ghost var bs3 := heap.bs;
      SameStart(d1, d);
      halted := SplitInput(cmd, params);
      SpendsBoth(bs0, bs3, heap.bs, halted, StringCost(1) + StringCost(1) + RecordCost(line), CharsCost(|line|, line));
    }

    /** The command found is called with the parameters. */
    method Execute(cmd: word, params: word) returns (halted: bool)
      requires Valid() && cmd == d.strs[COMMAND] && params == d.strs[PARAMS] && d.hist != []
      requires d.vals[COMMAND].Str? && d.vals[PARAMS].Str? && d.vals[BUFFER].Gone?
      requires |d.vals[PARAMS].text| <= INPUT_SIZE && 0 < promptLength < 0x4000_0000
      modifies `promptY, `promptLength, `cursorX, `cursorY, `inputPtr, `terminalColor, `endterm, `d
      modifies heap, heap.mem, scr, scr.fb
      ensures !halted ==> Valid() && 0 < promptLength < 0x4000_0000
      ensures var command, text := old(d).vals[COMMAND].text, old(d).vals[PARAMS].text;
        var r := Found(Setting(), |old(d).hist|, command, text);
        && Spends(old(heap.bs), heap.bs, halted, ResponseCost(r, old(d).hist, text))
        && (!halted ==> Aside(old(d), d, LeftBy(r)))
        && (!halted ==> Now().(line := []) == Commanded(old(Now()), r, command, text).(line := []))
    {
      hide Room, Takes, StringCost, ResponseCost, Commanded, Aside, LeftBy, Lookup;
      var command := ReadText(COMMAND, cmd);
      var text := ReadText(PARAMS, params);
      var n := EntryCount();
      var i := FindCmd(cmd);
      var r := if i < |commands| then commands[i].call(n, text) else NotFound;
      halted := Respond(r, command, text, params);
    }

    /** find_cmd(cmd_string->data): the position in the table, or its length for NULL. */
    method FindCmd(cmd: word) returns (i: nat)
      requires Tidy() && d.vals[COMMAND].Str? && cmd == d.strs[COMMAND]
      ensures i == Lookup(commands, d.vals[COMMAND].text)
    {
      ghost var name := d.vals[COMMAND].text;
      StringHeld(heap.view, d, Keys(), COMMAND);
      BufferText(heap, cmd, name, d.vals[COMMAND].size);
      var data := heap.PeekWord(cmd, 0);
      i := 0;
      while i < |commands|
        invariant i <= |commands| && forall j :: 0 <= j < i ==> commands[j].name != name
      {
        assert NameAt(heap.mem[..], lit.names[i], numbuffer);
        var r := StrCmp(heap.mem, lit.names[i].addr, data, commands[i].name, name);
        CompareEqual(commands[i].name, name);
        if r == 0 {
          break;
        }
        i := i + 1;
      }
      assert i == Lookup(commands, name);
    }

    /** cmdptr->call(params->data), or the message that there is no such command. */
    method Respond(r: Response, command: Text, text: Text, params: word) returns (halted: bool)
      requires Valid() && d.hist != [] && d.vals[BUFFER].Gone? && 0 < promptLength < 0x4000_0000
      requires params == d.strs[PARAMS] && d.vals[PARAMS].Str? && d.vals[PARAMS].text == text && |text| <= INPUT_SIZE
      requires d.vals[COMMAND].Str?
      modifies `promptY, `promptLength, `cursorX, `cursorY, `inputPtr, `terminalColor, `endterm, `d
      modifies heap, heap.mem, scr, scr.fb
      ensures !halted ==> Valid() && 0 < promptLength < 0x4000_0000 && Aside(old(d), d, LeftBy(r))
      ensures !halted ==> Now().(line := []) == Commanded(old(Now()), r, command, text).(line := [])
      ensures Spends(old(heap.bs), heap.bs, halted, ResponseCost(r, old(d).hist, text))
    {
      hide Room, Takes, StringCost, EntriesCost, AliasAt, FixedText, Grown, Left;
      hide WriteLines, ClearedPage, Colored, HistoryLines;
      halted := false;
      LeftNothing(d.rest, d.rest);
      match r {
        case NotFound => NoCommand(command);
        case NewPromptText =>
          if text != [] {
            halted := ChangePrompt(params);
          } else {
            PrintAll([Ascii(BAD_PROMPT)]);
          }
        case ClearScreen => Cls();
        case Recolor(color) => Recolor(color);
        case History => halted := ShowHistory();
        case Shutdown => endterm := true;
        case Lines(msgs, left) => halted := PrintAndLeave(msgs, left);
      }
    }

    /** The lines of a command that leaves strings behind. */
    method PrintAndLeave(msgs: seq<Text>, left: nat) returns (halted: bool)
      requires Valid()
      modifies `promptY, `cursorX, `cursorY, `inputPtr, `d, heap, heap.mem, scr, scr.fb
      ensures !halted ==> Valid() && Aside(old(d), d, left) && d.vals[PROMPT] == old(d).vals[PROMPT]
      ensures !halted ==> Now().(line := []) == Printed(old(Now()), msgs).(line := [])
      ensures Spends(old(heap.bs), heap.bs, halted, left * StringCost(LEFT_SIZE + 1))
    {
      hide Room, Takes, FixedText, Tabled, AliasAt;
      halted := LeaveStrings(left);
      if !halted {
        PrintAll(msgs);
      }
    }

    /** Strings of LEFT_SIZE characters that are never freed. */
    method LeaveStrings(left: nat) returns (halted: bool)
      requires Tidy()
      modifies `d, heap, heap.mem
      ensures !halted ==> Tidy() && d == old(d).(rest := d.rest) && Left(old(d).rest, d.rest, left)
      ensures Spends(old(heap.bs), heap.bs, halted, left * StringCost(LEFT_SIZE + 1))
    {
      hide Room, Takes, FixedText, Tabled, AliasAt;
      ghost var cost := StringCost(LEFT_SIZE + 1);
      LeftNothing(d.rest, d.rest);
      halted := false;
      var i := 0;
      while i < left
        invariant i <= left && Tidy() && d == old(d).(rest := d.rest) && Left(old(d).rest, d.rest, i)
        invariant Spends(old(heap.bs), heap.bs, false, i * cost)
      {
        ghost var mid, rest := heap.bs, d.rest;
        halted := LeaveString();
        TimesMore(i, left, cost);
        SpendsBoth(old(heap.bs), mid, heap.bs, halted, i * cost, cost);
        if halted { return; }
        LeftTrans(old(d).rest, rest, d.rest, i, 1);
        i := i + 1;
      }
    }

    method LeaveString() returns (halted: bool)
      requires Tidy()
      modifies `d, heap, heap.mem
      ensures !halted ==> Tidy() && d == old(d).(rest := d.rest) && Left(old(d).rest, d.rest, 1)
      ensures Spends(old(heap.bs), heap.bs, halted, StringCost(LEFT_SIZE + 1))
    {
      hide Room, Takes, StringStarved, StringSlot, Is, FixedText;
      ghost var v, m := heap.view, heap.mem[..];
      StringSpends(heap.bs, LEFT_SIZE + 1);
      var p;
      halted, p := NewSz(heap, LEFT_SIZE);
      if !halted {
        FixedTextSame(m, heap.mem[..], lit, numbuffer);
        StringLeft(v, heap.view, d, Keys(), p, Str([], LEFT_SIZE + 1));
        d := d.(rest := WithString(d.rest, heap.view, p));
      }
    }

    /** Neither a command nor an alias has this name. */
    method NoCommand(command: Text)
      requires Valid()
      modifies `promptY, `cursorX, `cursorY, `inputPtr, `d, heap, heap.mem, scr, scr.fb
      ensures Valid() && Aside(old(d), d, 0) && d.vals[PROMPT] == old(d).vals[PROMPT] && heap.bs == old(heap.bs)
      ensures Now().(line := []) == Printed(old(Now()), [Ascii(NOT_FOUND), command]).(line := [])
    {
      var aliasptr := FindAlias();
      assert aliasptr == 0;
      PrintAll([Ascii(NOT_FOUND), command]);
    }

    /** The number of lines entered, the present one included. */
    method EntryCount() returns (n: nat)
      requires Tidy() && d.hist != []
      ensures n == |d.hist|
    {
      HistoryInMemory(heap.view, d, Keys());
      ListNode(heap.view, d.ns, d.Values(), 0);
      n := ListCount(heap, cmdhistory, d.ns, d.Values(), 0);
    }

    /** find_alias, on a list that holds no alias */
    method FindAlias() returns (aliasptr: word)
      requires Tidy()
      ensures aliasptr == 0
    {
      AliasList(heap.view, d, Keys(), aliases);
      var first := GetFirst(heap, aliases, [aliases], [0], 0);
      ListNode(heap.view, [aliases], [0], 0);
      aliasptr := heap.PeekWord(first, VALUE);
    }

    /** cls */
    method Cls()
      requires Valid()
      modifies `promptY, scr, scr.fb
      ensures Valid() && Now() == old(Now()).(page := ClearedPage(terminalColor))
    {
      scr.KClear();
      scr.KCColor(GetPosition(0, 0), COLUMNS * ROWS, terminalColor);
      promptY := -1;
    }

    /** tcolor, once both words have been understood */
    method Recolor(color: byte)
      requires Valid()
      modifies `terminalColor, scr, scr.fb
      ensures Valid()
      ensures var page := Page(Colored(old(scr.fb[..]), 0, COLUMNS * ROWS, color), promptY);
        Now() == old(Now()).(page := page, color := color)
    {
      terminalColor := color;
      scr.KCColor(GetPosition(0, 0), COLUMNS * ROWS, terminalColor);
    }

    /** One writeline a message. */
    method PrintAll(msgs: seq<Text>)
      requires Valid()
      modifies `promptY, `cursorX, `cursorY, `inputPtr, `d, heap, heap.mem, scr, scr.fb
      ensures Valid() && Aside(old(d), d, 0) && d.rest == old(d).rest && d.vals[PROMPT] == old(d).vals[PROMPT]
      ensures Now().(line := []) == Printed(old(Now()), msgs).(line := []) && heap.bs == old(heap.bs)
    {
      hide Room, Takes, FixedText, Tabled, AliasAt;
      var i := 0;
      LeftNothing(d.rest, d.rest);
      while i < |msgs|
        invariant i <= |msgs| && Valid() && Aside(old(d), d, 0) && d.vals[PROMPT] == old(d).vals[PROMPT]
        invariant d.rest == old(d).rest && heap.bs == old(heap.bs)
        invariant Screenful() == WriteLines(old(Screenful()), msgs[..i], terminalColor)
      {
        WriteMessage(msgs[i] + [0], msgs[i]);
        assert msgs[..i + 1][..i] == msgs[..i];
        i := i + 1;
      }
      assert msgs[..i] == msgs;
    }

    /** The first branch of cprompt. */
    method ChangePrompt(params: word) returns (halted: bool)
      requires Valid() && params == d.strs[PARAMS] && d.vals[PARAMS].Str? && 0 < |d.vals[PARAMS].text| <= INPUT_SIZE
      modifies `promptLength, `d, heap, heap.mem
      ensures !halted ==> Valid() && 0 < promptLength <= INPUT_SIZE && Aside(old(d), d, 0)
      ensures !halted ==> Now() == old(Now()).(prompt := old(d).vals[PARAMS].text)
      ensures Spends(old(heap.bs), heap.bs, halted, Takes(|old(d).vals[PARAMS].text| + 1))
    {
      hide Room, Takes, Stuck, Regrown, Frame, Is, FixedText, Tabled;
      LeftNothing(d.rest, d.rest);
      ghost var m, v, x, t, n := heap.mem[..], heap.view, d.vals[PARAMS].text, d.vals[PROMPT].text, d.vals[PROMPT].size;
      ArgumentHeld(heap, d, Keys(), PROMPT, PARAMS);
      GrowthSpends(SlotOf(heap.bs, v, promptString), n, |x| + 1, |x| + 1);
      var data := heap.PeekWord(params, 0);
      halted := Set(heap, promptString, data, t, n, x, data);
      if halted { return; }
      FixedTextSame(m, heap.mem[..], lit, numbuffer);
      PromptStep(v, heap.view, d, Keys(), x, Max(n, |x| + 1));
      d := d.With(PROMPT, Str(x, Max(n, |x| + 1)));
      promptLength := Length(heap, promptString, x, Max(n, |x| + 1));
    }

    // ---------- history ----------

    /** history: an empty line, every line entered with its number, and an empty line. */
    method ShowHistory() returns (halted: bool)
      requires Valid() && d.hist != [] && d.vals[BUFFER].Gone?
      modifies `promptY, `cursorX, `cursorY, `inputPtr, `d, heap, heap.mem, scr, scr.fb
      ensures !halted ==> Valid() && Aside(old(d), d, 0) && d.vals[PROMPT] == old(d).vals[PROMPT]
      ensures !halted ==> Now().(line := []) == Printed(old(Now()), HistoryLines(d.hist)).(line := [])
      ensures Spends(old(heap.bs), heap.bs, halted, StringCost(INPUT_SIZE + 1) + EntriesCost(old(d).hist))
    {
      hide Room, Takes, FixedText, EntriesCost, StringCost, HistoryLines, AliasAt;
      LeftNothing(d.rest, d.rest);
      var ptr := First();
      var buffer;
      ghost var bs, hist := heap.bs, d.hist;
      halted, buffer := NewScratch(BUFFER, INPUT_SIZE);
      if halted { return; }
      ghost var mid := heap.bs;
      halted := ShowLines(buffer, ptr);
      SpendsBoth(bs, mid, heap.bs, halted, StringCost(INPUT_SIZE + 1), EntriesCost(hist));
      if halted { return; }
      FreeScratch(BUFFER, buffer);
    }

    /** history between its first and its last writeline. */
    method ShowLines(buffer: word, first: word) returns (halted: bool)
      requires Valid() && |d.ns| == |d.hist| > 0 && first == d.ns[0] != 0
      requires d.vals[BUFFER].Str? && d.vals[BUFFER].text == [] && buffer == d.strs[BUFFER]
      modifies `promptY, `cursorX, `cursorY, `inputPtr, `d, heap, heap.mem, scr, scr.fb
      ensures !halted ==> Valid() && Cleaned(old(d), d)
      ensures !halted ==> Screenful() == WriteLines(old(Screenful()), HistoryLines(old(d).hist), terminalColor)
      ensures Spends(old(heap.bs), heap.bs, halted, EntriesCost(old(d).hist))
    {
      hide Room, Takes, FixedText, WriteLines, WriteLine, HistoryLines, Entries, EntriesCost, AliasAt;
      WriteMessage([0], []);
      halted := ShowEntries(buffer, first);
      if halted { return; }
      WriteMessage([0], []);
      HistoryPages(old(Screenful()), d.hist, terminalColor);
    }

    /** The loop of history. */
    method ShowEntries(buffer: word, first: word) returns (halted: bool)
      requires Valid() && |d.ns| == |d.hist| > 0 && first == d.ns[0] != 0
      requires d.vals[BUFFER].Str? && d.vals[BUFFER].text == [] && buffer == d.strs[BUFFER]
      modifies `promptY, `cursorX, `cursorY, `inputPtr, `d, heap, heap.mem, scr, scr.fb
      ensures !halted ==> Valid() && Cleaned(old(d), d)
      ensures !halted ==> Screenful() == WriteLines(old(Screenful()), Entries(old(d).hist), terminalColor)
      ensures Spends(old(heap.bs), heap.bs, halted, EntriesCost(old(d).hist))
    {
      hide Room, Takes, FixedText, WriteLines, WriteLine, EntriesCost, EntryCost, AliasAt;
      ghost var pg, lines, hist, bs := Screenful(), Entries(d.hist), d.hist, heap.bs;
      var i, ptr := 1, first;
      halted, ptr := ShowEntry(buffer, i, ptr);
      EntrySpends(bs, bs, heap.bs, halted, hist, 0);
      if halted { return; }
      LinesStep(pg, lines, 0, terminalColor);
      while ptr != 0
        invariant 1 <= i <= |lines| == |d.ns| == |d.hist| && (ptr == 0 <==> i == |lines|)
        invariant ptr != 0 ==> ptr == d.ns[i]
        invariant Valid() && Cleaned(old(d), d) && buffer == d.strs[BUFFER]
        invariant Screenful() == WriteLines(pg, lines[..i], terminalColor)
        invariant Spends(bs, heap.bs, false, EntriesCost(hist[..i]))
        decreases |lines| - i
      {
        ghost var mid := heap.bs;
        i := i + 1;
        halted, ptr := ShowEntry(buffer, i, ptr);
        EntrySpends(bs, mid, heap.bs, halted, hist, i - 1);
        if halted { return; }
        LinesStep(pg, lines, i - 1, terminalColor);
      }
      assert lines[..i] == lines && hist[..i] == hist;
    }

    /** get_first(cmdhistory) */
    method First() returns (ptr: word)
      requires Tidy() && d.hist != []
      ensures ptr == d.ns[0] != 0 && |d.ns| == |d.hist|
    {
      HistoryInMemory(heap.view, d, Keys());
      ListNode(heap.view, d.ns, d.Values(), 0);
      ptr := GetFirst(heap, cmdhistory, d.ns, d.Values(), 0);
    }

    /** One turn of the loop of history: the entry is put together, printed, and the buffer cleared for the next. */
    method ShowEntry(buffer: word, i: nat, ptr: word) returns (halted: bool, next: word)
      requires Valid() && 1 <= i <= |d.hist| && |d.ns| == |d.hist| && ptr == d.ns[i - 1]
      requires d.vals[BUFFER].Str? && d.vals[BUFFER].text == [] && buffer == d.strs[BUFFER]
      modifies `promptY, `cursorX, `cursorY, `inputPtr, `d, heap, heap.mem, scr, scr.fb
      ensures !halted ==> Valid() && Cleaned(old(d), d)
      ensures !halted ==> (next == 0 <==> i == |d.ns|) && (i < |d.ns| ==> next == d.ns[i])
      ensures !halted ==>
        Screenful() == WriteLine(old(Screenful()), HistoryLine(i - 1, old(d).hist[i - 1]), terminalColor)
      ensures Spends(old(heap.bs), heap.bs, halted, EntryCost(old(d).hist[i - 1]))
    {
      hide Room, Takes, FixedText, Tabled, AliasAt;
      next := 0;
      var strptr := EntryString(i, ptr);
      halted := ComposeEntry(buffer, i, strptr);
      if halted { return; }
      PrintBuffer(buffer);
      next := NextEntry(i, ptr);
    }

    /** historyptr->value */
    method EntryString(ghost i: nat, ptr: word) returns (strptr: word)
      requires Tidy() && 1 <= i <= |d.hist| && |d.ns| == |d.hist| && ptr == d.ns[i - 1]
      ensures strptr == d.strs[HISTORY + i - 1]
    {
      HistoryInMemory(heap.view, d, Keys());
      ListNode(heap.view, d.ns, d.Values(), i - 1);
      strptr := heap.PeekWord(ptr, VALUE);
      assert d.strs[HISTORY..][i - 1] == d.strs[HISTORY + i - 1];
    }

    /** historyptr->next */
    method NextEntry(ghost i: nat, ptr: word) returns (next: word)
      requires Tidy() && 1 <= i <= |d.ns| && ptr == d.ns[i - 1]
      ensures (next == 0 <==> i == |d.ns|) && (i < |d.ns| ==> next == d.ns[i])
    {
      HistoryInMemory(heap.view, d, Keys());
      ListNodes(heap.view, d.ns, d.Values());
      ListNode(heap.view, d.ns, d.Values(), i - 1);
      next := heap.PeekWord(ptr, NEXT);
    }

    /** writeline of the buffer of history, which is cleared for the next entry. */
    method PrintBuffer(buffer: word)
      requires Valid() && d.vals[BUFFER].Str? && buffer == d.strs[BUFFER]
      modifies `promptY, `cursorX, `cursorY, `inputPtr, `d, heap, heap.mem, scr, scr.fb
      ensures Valid() && heap.bs == old(heap.bs)
      ensures d == old(d).WithLine([], old(d).vals[LINE].size).With(BUFFER, Str([], old(d).vals[BUFFER].size))
      ensures Screenful() == WriteLine(old(Screenful()), old(d).vals[BUFFER].text, terminalColor)
    {
      var text := ReadText(BUFFER, buffer);
      WriteMessage(text + [0], text);
      ClearScratch(BUFFER, buffer);
    }

    /** The number, ". " and the line of entry i. */
    method ComposeEntry(buffer: word, i: nat, strptr: word) returns (halted: bool)
      requires Tidy() && 1 <= i <= |d.hist| && strptr == d.strs[HISTORY + i - 1]
      requires d.vals[BUFFER].Str? && d.vals[BUFFER].text == [] && buffer == d.strs[BUFFER]
      modifies `d, heap, heap.mem
      ensures !halted ==> Tidy() && Scratch(old(d), d, BUFFER, HistoryLine(i - 1, old(d).hist[i - 1]))
      ensures Spends(old(heap.bs), heap.bs, halted, EntryCost(old(d).hist[i - 1]))
    {
      hide Room, Takes, IntText;
      ghost var d0, line, k, bs := d, d.hist[i - 1], HISTORY + i - 1, heap.bs;
      ghost var c0, c1, c2 := MAX_INT_CHARS, MAX_INT_CHARS + |DOT|, MAX_INT_CHARS + |DOT| + |line|;
      halted := AddNumber(buffer, i);
      if halted { return; }
      ghost var d1, bs1 := d, heap.bs;
      halted := AddText(BUFFER, buffer, lit.dot, DOT, 0, c1);
      SpendsBoth(bs, bs1, heap.bs, halted, Takes(c0), Takes(c1));
      if halted { return; }
      ghost var d2, bs2 := d, heap.bs;
      EntryHeld(heap.view, d, Keys(), i - 1);
      ArgumentHeld(heap, d, Keys(), BUFFER, k);
      var data := heap.PeekWord(strptr, 0);
      halted := AddText(BUFFER, buffer, data, line, data, c2);
      SpendsBoth(bs, bs2, heap.bs, halted, Takes(c0) + Takes(c1), Takes(c2));
      if halted { return; }
      ScratchAgain(d0, d1, d2, BUFFER, IntText(i, 10), IntText(i, 10) + DOT);
      ScratchAgain(d0, d2, d, BUFFER, IntText(i, 10) + DOT, HistoryLine(i - 1, line));
    }

    /** string_addnum to the buffer of history, which is empty. */
    method AddNumber(buffer: word, i: nat) returns (halted: bool)
      requires Tidy() && 1 <= i <= |d.hist|
      requires d.vals[BUFFER].Str? && d.vals[BUFFER].text == [] && buffer == d.strs[BUFFER]
      modifies `d, heap, heap.mem
      ensures |IntText(i, 10)| < MAX_INT_CHARS
      ensures !halted ==> Tidy() && Scratch(old(d), d, BUFFER, IntText(i, 10))
      ensures Spends(old(heap.bs), heap.bs, halted, Takes(MAX_INT_CHARS))
    {
      hide Room, Takes, Stuck, Regrown, Frame, Is, IntText;
      ghost var v, m, n, x := heap.view, heap.mem[..], d.vals[BUFFER].size, IntText(i, 10);
      FewEntries(heap, d, Keys());
      FitsNumberBuffer(10);
      StringHeld(v, d, Keys(), BUFFER);
      NotLive(heap, numbuffer);
      GrowthSpends(SlotOf(heap.bs, v, buffer), n, |x| + 1, MAX_INT_CHARS);
      var nb;
      halted, nb := AddNum(heap, buffer, i, 10, numbuffer, [], n);
      if halted { return; }
      NotLive(heap, numbuffer);
      assert [] + x == x;
      assert v - {nb} == v && heap.view - {nb} == heap.view;
      FixedTextKept(m, heap.mem[..], lit, numbuffer);
      ScratchStep(v, heap.view, d, Keys(), BUFFER, x, Max(n, |x| + 1));
      d := d.With(BUFFER, Str(x, Max(n, |x| + 1)));
    }

    /** string_add to one of the strings for parsing. */
    method AddText(ghost i: nat, p: word, src: word, ghost x: seq<byte>, ghost q: nat, ghost size: nat)
      returns (halted: bool)
      requires Tidy() && COMMAND <= i <= BUFFER && d.vals[i].Str? && p == d.strs[i]
      requires |d.vals[i].text| + |x| < size
      requires src != 0 && Argument(heap.mem[..], heap.view, src, x, q, p)
      modifies `d, heap, heap.mem
      ensures !halted ==> Tidy() && Scratch(old(d), d, i, old(d).vals[i].text + x)
      ensures Spends(old(heap.bs), heap.bs, halted, Takes(size))
    {
      hide Room, Takes, Stuck, Regrown, Frame, Is, FixedText, Tabled;
      ghost var v, m, t, n := heap.view, heap.mem[..], d.vals[i].text, d.vals[i].size;
      StringHeld(v, d, Keys(), i);
      GrowthSpends(SlotOf(heap.bs, v, p), n, |t| + |x| + 1, size);
      halted := Add(heap, p, src, t, n, x, q);
      if halted { return; }
      FixedTextSame(m, heap.mem[..], lit, numbuffer);
      ScratchStep(v, heap.view, d, Keys(), i, t + x, Max(n, |t| + |x| + 1));
      d := d.With(i, Str(t + x, Max(n, |t| + |x| + 1)));
    }

    /** string_clear of one of the strings for parsing. */
    method ClearScratch(ghost i: nat, p: word)
      requires Tidy() && COMMAND <= i <= BUFFER && d.vals[i].Str? && p == d.strs[i]
      modifies `d, heap, heap.mem
      ensures Tidy() && d == old(d).With(i, Str([], old(d).vals[i].size)) && heap.bs == old(heap.bs)
    {
      ghost var v, m, n := heap.view, heap.mem[..], d.vals[i].size;
      StringHeld(v, d, Keys(), i);
      Clear(heap, p, d.vals[i].text, n);
      FixedTextSame(m, heap.mem[..], lit, numbuffer);
      ScratchStep(v, heap.view, d, Keys(), i, [], n);
      d := d.With(i, Str([], n));
    }

    // ---------- run_terminal ----------

    /** draw_prompt */
    method DrawPrompt()
      requires Valid()
      modifies scr, scr.fb
      ensures Valid() && Now() == Drawn(old(Now()), Setting())
    {
      PrintString(PROMPT, promptString, promptX);
      PrintString(LINE, input, promptX + promptLength);
    }

    /** kprint of one of the strings, from column x of the current row on. */
    method PrintString(ghost i: nat, p: word, x: int)
      requires Valid() && i < |d.vals| && d.vals[i].Str? && p == d.strs[i]
      modifies scr, scr.fb
      ensures Valid()
      ensures scr.fb[..] == Layout(old(scr.fb[..]), GetPosition(x, promptY), d.vals[i].text + [0], terminalColor)
    {
      var text := ReadText(i, p);
      scr.KPrint(GetPosition(x, promptY), text + [0], terminalColor);
    }

    /** handle_input with the key that was read. */
    method HandleInput(t: byte) returns (halted: bool)
      requires Ready()
      modifies `promptY, `promptLength, `cursorX, `cursorY, `inputPtr, `terminalColor, `endterm, `d
      modifies heap, heap.mem, scr, scr.fb
      ensures !halted ==> Ready() && Now() == Press(old(Now()), t, Setting())
      ensures !halted ==> Left(old(d).rest, d.rest, LeftIn(Setting(), d.hist, |old(d).hist|))
      ensures t == NEWLINE && old(d).Line() != [] ==>
        Spends(old(heap.bs), heap.bs, halted, LineCost(Setting(), old(d).hist + [old(d).Line()]))
      ensures t != NEWLINE || old(d).Line() == [] ==> !halted && heap.bs == old(heap.bs)
    {
      halted := false;
      LeftNothing(d.rest, d.rest);
      if t == NEWLINE {
        halted := ParseInput();
      } else if t == BACKSPACE {
        Backspace();
      } else {
        TypeChar(t);
      }
    }

    /** One turn of the loop of run_terminal. */
    method TakeTurn(key: byte) returns (halted: bool)
      requires Ready()
      modifies `promptY, `promptLength, `cursorX, `cursorY, `inputPtr, `terminalColor, `endterm, `d
      modifies heap, heap.mem, scr, scr.fb
      ensures !halted ==> Ready() && Now().page.Valid()
      ensures Turned(old(Now()), key, Setting(), halted, Now(), old(d).rest, d.rest, old(heap.bs), heap.bs)
    {
      DrawPrompt();
      halted := HandleInput(key);
    }

    lemma ScreenIsPage()
      requires Ready()
      ensures Screenful().Valid()
    {
    }

    lemma BlocksCounted(rest: View, n: nat)
      requires Ready() && Left(rest, d.rest, n)
      ensures |heap.view| == |rest| + 2 * n + OwnBlocks(|d.hist|)
    {
      HeapCount(heap.view, d, Keys());
    }

    /** The loop of run_terminal. */
    method TypeKeys(keys: seq<byte>) returns (halted: bool, ghost i: nat)
      requires Ready()
      modifies `promptY, `promptLength, `cursorX, `cursorY, `inputPtr, `terminalColor, `endterm, `d
      modifies heap, heap.mem, scr, scr.fb
      ensures !halted ==> Ready() && Now().page.Valid() && i <= |keys| && (endterm || i == |keys|)
      ensures !halted ==>
        Typing(old(Now()), keys, i, Setting(), Now(), old(d).rest, d.rest, old(heap.bs), heap.bs)
      ensures halted ==> NEWLINE in keys
      ensures halted ==>
        Spends(old(heap.bs), heap.bs, true, CostIn(Setting(), Session(old(Now()), keys, Setting()).hist, |old(d).hist|))
    {
      hide Ready, Page.Valid, Typing, Turned, Spends, CostIn, Session, Screenful;
      ScreenIsPage();
      ghost var sh, st, rest, bs := Now(), Setting(), d.rest, heap.bs;
      TypingStarts(sh, keys, st, rest, bs);
      var k := 0;
      halted, i := false, 0;
      while !endterm && k < |keys|
        invariant k <= |keys| && Ready() && Now().page.Valid()
        invariant Typing(sh, keys, k, st, Now(), rest, d.rest, bs, heap.bs)
        decreases |keys| - k
      {
        ghost var now, mid, row := Now(), d.rest, heap.bs;
        halted := TakeTurn(keys[k]);
        if halted {
          TypingHalts(sh, keys, k, st, now, Now(), rest, mid, d.rest, bs, row, heap.bs);
          return;
        }
        TypingStep(sh, keys, k, st, now, Now(), rest, mid, d.rest, bs, row, heap.bs);
        k := k + 1;
      }
      i := k;
    }

    /**
     * run_terminal over any sequence of keys: line, history, prompt, color and screen are those of the terminal without
     * a heap. Outside the terminal no live block has changed, and the strings that the commands leave are the only new
     * ones: none exactly when no command entered leaves any. A largest free block of the cost of all lines suffices.
     */
    method RunTerminal(keys: seq<byte>) returns (halted: bool)
      requires Ready()
      modifies `promptY, `promptLength, `cursorX, `cursorY, `inputPtr, `terminalColor, `endterm, `d
      modifies heap, heap.mem, scr, scr.fb
      ensures !halted ==> Ready() && Now() == Session(old(Now()).(ended := false), keys, Setting())
      ensures !halted ==> Left(old(d).rest, d.rest, LeftIn(Setting(), d.hist, |old(d).hist|))
      ensures !halted ==> (d.rest == old(d).rest <==>
        forall i :: |old(d).hist| <= i < |d.hist| ==> LeftBy(Answer(Setting(), i + 1, d.hist[i])) == 0)
      ensures !halted ==>
        |heap.view| == |old(d).rest| + 2 * LeftIn(Setting(), d.hist, |old(d).hist|) + OwnBlocks(|d.hist|)
      ensures var hist := Session(old(Now()).(ended := false), keys, Setting()).hist;
        Spends(old(heap.bs), heap.bs, halted, CostIn(Setting(), hist, |old(d).hist|))
      ensures NEWLINE !in keys ==> !halted
    {
      hide Page.Valid, Typing, Spends, LeftIn, CostIn, Left, Answer, LeftBy, Session;
      ScreenIsPage();
      endterm := false;
      ghost var sh, rest, bs := Now(), d.rest, heap.bs;
      ghost var i;
      halted, i := TypeKeys(keys);
      if !halted {
        TypingEnds(sh, keys, i, Setting(), Now(), rest, d.rest, bs, heap.bs);
        BlocksCounted(rest, LeftIn(Setting(), d.hist, |old(d).hist|));
      }
    }

    // ---------- init_terminal ----------

    /** init_terminal: two lists, the input string, and the prompt copied from its literal. */
    method Init(literal: word, ghost text: seq<byte>, color: byte) returns (halted: bool)
      requires heap.Valid() && scr.Valid() && heap.mem != scr.fb && heap.mem != scr.nb
      requires Literal(heap.mem[..], literal, text) && 0 < |text| < 0x4000_0000
      requires FixedText(heap.mem[..], lit, numbuffer) && Tabled(lit.names, commands)
      modifies this, heap, heap.mem
      ensures !halted ==> Ready()
      ensures !halted ==> Grown(old(heap.view), d.rest) && d.rest.Keys == old(heap.view).Keys + {aliases as nat}
      ensures !halted ==> Now() == Shell([], [], text, color, Page(scr.fb[..], 14), old(endterm))
      ensures !halted ==> Setting() == Setup(0, commands)
      ensures Spends(old(heap.bs), heap.bs, halted, InitCost(text))
    {
      hide Ready, Filed, Spends, InitCost, AliasAt, FixedText, Grown, Literal, Is;
      halted := InitStrings(literal, text);
      if !halted {
        InitCounters(text, color);
      }
    }

    /** The rest of init_terminal. */
    method InitCounters(ghost text: seq<byte>, color: byte)
      requires heap.Valid() && scr.Valid() && heap.mem != scr.fb && heap.mem != scr.nb
      requires 0 < |text| < 0x4000_0000 && Is(heap.view, promptString, text, |text| + 1)
      requires Filed(heap.view, d, Pointers(input, promptString, |text|, cmdhistory))
      requires AliasAt(d.rest, aliases) && FixedText(heap.mem[..], lit, numbuffer) && Tabled(lit.names, commands)
      requires HISTORY <= |d.vals| && d.vals[LINE] == Str([], INPUT_SIZE + 1) && d.vals[PROMPT] == Str(text, |text| + 1)
      requires Idle() && d.hist == []
      modifies `inputPtr, `terminalColor, `promptLength, `promptX, `promptY, `cursorX, `cursorY
      ensures Ready() && Now() == Shell([], [], text, color, Page(scr.fb[..], PROMPT_START_ROW), endterm)
      ensures Setting() == Setup(0, commands)
    {
      hide Heap.Valid, Filed, AliasAt, FixedText, Tabled, Is;
      inputPtr, terminalColor := 0, color;
      promptLength := Length(heap, promptString, text, |text| + 1);
      promptX, promptY := 0, PROMPT_START_ROW;
      cursorX, cursorY := promptLength, promptY;
    }

    /** The part of init_terminal that works on the heap. */
    method InitStrings(literal: word, ghost text: seq<byte>) returns (halted: bool)
      requires heap.Valid() && Literal(heap.mem[..], literal, text) && FixedText(heap.mem[..], lit, numbuffer)
      modifies `cmdhistory, `aliases, `input, `promptString, `d, heap, heap.mem
      ensures !halted ==> heap.Valid() && FixedText(heap.mem[..], lit, numbuffer)
      ensures !halted ==> Is(heap.view, promptString, text, |text| + 1)
      ensures !halted ==> Filed(heap.view, d, Pointers(input, promptString, |text|, cmdhistory))
      ensures !halted ==> AliasAt(d.rest, aliases)
      ensures !halted ==> Grown(old(heap.view), d.rest) && d.rest.Keys == old(heap.view).Keys + {aliases as nat}
      ensures Spends(old(heap.bs), heap.bs, halted, InitCost(text))
      ensures !halted ==> d.vals == [Str([], INPUT_SIZE + 1), Str(text, |text| + 1), Gone, Gone, Gone] && d.hist == []
    {
      hide Filed, Sealed, Room, Takes, StringCost, AliasAt, FixedText, Grown, Is, Roomy;
      ghost var m, bs, cost := heap.mem[..], heap.bs, Takes(NODE_SIZE) + Takes(NODE_SIZE);
      halted := InitLists();
      if halted { return; }
      ghost var bs1 := heap.bs;
      halted, input := NewAt(LINE, INPUT_SIZE);
      SpendsBoth(bs, bs1, heap.bs, halted, cost, StringCost(INPUT_SIZE + 1));
      if halted { return; }
      ghost var bs2, v := heap.bs, heap.view;
      halted, promptString := NewAt(PROMPT, 0);
      SpendsBoth(bs, bs2, heap.bs, halted, cost + StringCost(INPUT_SIZE + 1), StringCost(1));
      if halted { return; }
      RoomyGrown(v, heap.view, input);
      ghost var bs3 := heap.bs;
      LiteralKept(m, heap.mem[..], literal, text);
      halted := SetPrompt(literal, text);
      SpendsBoth(bs, bs3, heap.bs, halted, cost + StringCost(INPUT_SIZE + 1) + StringCost(1), Takes(|text| + 1));
      FixedTextSame(m, heap.mem[..], lit, numbuffer);
    }

    /** The history list and the list of aliases, both of one NULL value. */
    method InitLists() returns (halted: bool)
      requires heap.Valid()
      modifies `cmdhistory, `aliases, `d, heap, heap.mem
      ensures heap.Valid() && SameLow(old(heap.mem[..]), heap.mem[..])
      ensures !halted ==> Sealed(heap.view, d.strs, d.vals, d.ns, [0], d.rest)
      ensures !halted ==> d == Papers([0, 0, 0, 0, 0], [Gone, Gone, Gone, Gone, Gone], [cmdhistory], [], d.rest)
      ensures !halted ==> AliasAt(d.rest, aliases)
      ensures !halted ==> Grown(old(heap.view), d.rest) && d.rest.Keys == old(heap.view).Keys + {aliases as nat}
      ensures Spends(old(heap.bs), heap.bs, halted, Takes(NODE_SIZE) + Takes(NODE_SIZE))
    {
      hide Room, Takes;
      ghost var v, bs := heap.view, heap.bs;
      NodeSpends(bs);
      halted, cmdhistory := ListNew(heap, 0);
      if halted { return; }
      ghost var w, mid := heap.view, heap.bs;
      NodeSpends(mid);
      halted, aliases := ListNew(heap, 0);
      SpendsBoth(bs, mid, heap.bs, halted, Takes(NODE_SIZE), Takes(NODE_SIZE));
      if halted { return; }
      TwoLists(v, w, heap.view, cmdhistory, aliases);
      EmptyDesk(heap.view, cmdhistory);
      d := Papers([0, 0, 0, 0, 0], [Gone, Gone, Gone, Gone, Gone], [cmdhistory], [], Others(heap.view, [cmdhistory]));
    }

    /** A new string in an empty place of the desk. */
    method NewAt(ghost i: nat, size: word) returns (halted: bool, p: word)
      requires heap.Valid() && size < MAX_REQUEST
      requires Sealed(heap.view, d.strs, d.vals, d.ns, [0], d.rest) && i < |d.vals| == |d.strs| && d.vals[i].Gone?
      modifies `d, heap, heap.mem
      ensures heap.Valid() && SameLow(old(heap.mem[..]), heap.mem[..])
      ensures !halted ==> Sealed(heap.view, d.strs, d.vals, d.ns, [0], d.rest) && Grown(old(heap.view), heap.view)
      ensures !halted ==> d == old(d).(strs := old(d).strs[i := p], vals := old(d).vals[i := Str([], size + 1)])
      ensures Spends(old(heap.bs), heap.bs, halted, StringCost(size + 1))
      ensures !halted && size == INPUT_SIZE ==> Roomy(heap.view, p) && p in heap.view && 4 <= |heap.view[p]|
    {
      hide Room, Takes, StringStarved, StringSlot, Is;
      ghost var v := heap.view;
      StringSpends(heap.bs, size + 1);
      halted, p := NewSz(heap, size);
      if !halted {
        RestGrown(v, heap.view, p);
        Unseal(v, d.strs, d.vals, d.ns, [0], d.rest);
        DeskFill(v, heap.view, d.strs, d.vals, d.ns, [0], d.rest, i, p, Str([], size + 1));
        d := d.(strs := d.strs[i := p], vals := d.vals[i := Str([], size + 1)]);
      }
    }

    /** string_set(prompt_string, ...) during initialization */
    method SetPrompt(literal: word, ghost text: seq<byte>) returns (halted: bool)
      requires heap.Valid() && Literal(heap.mem[..], literal, text)
      requires Sealed(heap.view, d.strs, d.vals, d.ns, [0], d.rest) && |d.vals| == |d.strs| == HISTORY
      requires d.strs[PROMPT] == promptString && d.vals[PROMPT] == Str([], 1) && d.vals[LINE].Str? && d.hist == []
      requires d.strs[LINE] == input && Roomy(heap.view, input) && d.ns != [] && d.ns[0] == cmdhistory
      modifies `d, heap, heap.mem
      ensures heap.Valid() && SameLow(old(heap.mem[..]), heap.mem[..])
      ensures !halted ==> d == old(d).With(PROMPT, Str(text, |text| + 1))
      ensures Spends(old(heap.bs), heap.bs, halted, Takes(|text| + 1))
      ensures !halted ==> Is(heap.view, promptString, text, |text| + 1)
      ensures !halted ==> Filed(heap.view, d, Pointers(input, promptString, |text|, cmdhistory))
    {
      hide Room, Stuck, Regrown, Takes, Frame, Argument;
      ghost var v := heap.view;
      Unseal(v, d.strs, d.vals, d.ns, [0], d.rest);
      assert Holds(v, d.strs[PROMPT], d.vals[PROMPT]);
      GrowthSpends(SlotOf(heap.bs, v, promptString), 1, |text| + 1, |text| + 1);
      halted := Set(heap, promptString, literal, [], 1, text, 0);
      if !halted {
        OtherKept(v, heap.view, d.strs, d.vals, PROMPT, LINE);
        DeskStep(v, heap.view, d.strs, d.vals, d.ns, [0], d.rest, PROMPT, Str(text, |text| + 1));
        d := d.With(PROMPT, Str(text, |text| + 1));
      }
    }
  }

  /** One more of the lines is printed. */
  lemma LinesStep(pg: Page, lines: seq<seq<byte>>, k: nat, color: byte)
    requires pg.Valid() && k < |lines|
    ensures WriteLines(pg, lines[..k + 1], color) == WriteLine(WriteLines(pg, lines[..k], color), lines[k], color)
    ensures k == 0 ==> WriteLines(pg, lines[..k], color) == pg
  {
    assert lines[..k + 1][..k] == lines[..k];
  }

  /** An empty line, the entries and an empty line, printed one after the other. */
  lemma HistoryPages(pg: Page, hist: seq<seq<byte>>, color: byte)
    requires pg.Valid()
    ensures WriteLines(pg, HistoryLines(hist), color)
         == WriteLine(WriteLines(WriteLine(pg, [], color), Entries(hist), color), [], color)
  {
    var none: seq<byte> := [];
    assert HistoryLines(hist)[..|hist| + 1] == [none] + Entries(hist);
    LinesBehind(pg, none, Entries(hist), color);
  }

  lemma {:induction false} LinesBehind(pg: Page, first: seq<byte>, lines: seq<seq<byte>>, color: byte)
    requires pg.Valid()
    ensures WriteLines(pg, [first] + lines, color) == WriteLines(WriteLine(pg, first, color), lines, color)
  {
    if lines == [] {
      assert [first] + lines == [first] && [first][..0] == [];
    } else {
      var front := lines[..|lines| - 1];
      LinesBehind(pg, first, front, color);
      assert ([first] + lines)[..|lines|] == [first] + front;
    }
  }

  /** d is d0 without the line, and with history's buffer empty. */
  ghost predicate Cleaned(d0: Papers, d: Papers) {
    && BUFFER < |d0.vals| == |d.vals| && d0.vals[LINE].Str?
    && d.vals[BUFFER].Str? && d.vals[BUFFER].text == []
    && d == d0.(vals := d0.vals[BUFFER := d.vals[BUFFER]][LINE := Str([], d0.vals[LINE].size)])
  }

  lemma NotLive(h: Heap, p: nat)
    requires h.Valid() && p < HEAP_START
    ensures p !in h.view
  {
    if p in h.view {
      BlockAddress(h, p);
    }
  }

  lemma TwoLists(v: View, w: View, x: View, c: word, a: word)
    requires IsList(w, [c], [0]) && c !in v && Others(w, [c]) == v
    requires IsList(x, [a], [0]) && a !in w && Others(x, [a]) == w
    ensures IsList(x, [c], [0]) && AliasAt(Others(x, [c]), a)
    ensures Grown(v, Others(x, [c])) && Others(x, [c]).Keys == v.Keys + {a}
  {
    OthersGrown(w, x, [a]);
    OthersGrown(v, w, [c]);
    ListGrown(w, x, [c], [0]);
    ListNode(x, [a], [0], 0);
    ListNode(w, [c], [0], 0);
    OthersAndOne(w, x, a);
    OthersAndOne(v, w, c);
  }

  lemma OthersAndOne(v: View, w: View, p: word)
    requires Others(w, [p]) == v && p in w
    ensures w.Keys == v.Keys + {p as nat}
  {
    forall q | q in w
      ensures q == p || q in v
    {
      assert q == p || q in Others(w, [p]);
    }
    forall q | q in v
      ensures q in w
    {
      assert q in Others(w, [p]);
    }
  }

  lemma OthersGrown(v: View, w: View, ns: seq<word>)
    requires Others(w, ns) == v
    ensures Grown(v, w)
  {
    forall q | q in v
      ensures q in w && w[q] == v[q]
    {
      assert q in Others(w, ns) && Others(w, ns)[q] == w[q];
    }
  }
}
