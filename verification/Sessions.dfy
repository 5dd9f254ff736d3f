/** The terminal without a heap: what keys do to the line, the lines entered before, the prompt and the screen. */
module Sessions {
  import opened Bytes
  import opened Numerals
  import opened CStrings
  import opened Screen
  import opened Pages

  const INPUT_SIZE: nat := 256
  const BACKSPACE: byte := 8

  // ---------- the reference editor ----------

  /** The line after one key: enter empties it, backspace drops the last, NUL does nothing, the rest is typed. */
  function AfterKey(line: seq<byte>, key: byte): seq<byte> {
    if key == NEWLINE then []
    else if key == BACKSPACE then (if line == [] then [] else line[..|line| - 1])
    else if |line| < INPUT_SIZE && key != 0 then line + [key]
    else line
  }

  function AfterKeys(line: seq<byte>, keys: seq<byte>): seq<byte>
    decreases |keys|
  {
    if keys == [] then line else AfterKeys(AfterKey(line, keys[0]), keys[1..])
  }

  /** Characters that are typed and neither erase nor enter anything. */
  predicate Typable(text: seq<byte>) {
    forall i :: 0 <= i < |text| ==> text[i] != 0 && text[i] != NEWLINE && text[i] != BACKSPACE
  }

  /** Typing appends, until the line has 256 characters; what is typed after that is lost. */
  lemma {:induction false} TypingFills(line: seq<byte>, text: seq<byte>)
    requires Typable(text) && |line| <= 256
    ensures AfterKeys(line, text) == if |line| + |text| <= 256 then line + text else line + text[..256 - |line|]
    decreases |text|
  {
    if text != [] {
      TypingFills(AfterKey(line, text[0]), text[1..]);
      if |line| < 256 {
        assert line + text == line + [text[0]] + text[1..];
        assert |line| + |text| > 256 ==> text[..256 - |line|] == [text[0]] + text[1..][..255 - |line|];
      }
    }
  }

  /** Each backspace takes the last character away, and on an empty line nothing. */
  lemma {:induction false} BackspacesErase(line: seq<byte>, k: nat)
    ensures AfterKeys(line, seq(k, _ => BACKSPACE)) == if k <= |line| then line[..|line| - k] else []
    decreases k
  {
    var keys := seq(k, _ => BACKSPACE);
    if k > 0 {
      assert keys[1..] == seq(k - 1, _ => BACKSPACE);
      BackspacesErase(AfterKey(line, BACKSPACE), k - 1);
    }
  }

  /** The non-empty lines entered while the keys are typed, oldest first. */
  function Entered(line: seq<byte>, keys: seq<byte>): seq<seq<byte>>
    decreases |keys|
  {
    if keys == [] then []
    else (if keys[0] == NEWLINE && line != [] then [line] else []) + Entered(AfterKey(line, keys[0]), keys[1..])
  }

  /** Position of the first space, or the length of the line. */
  function FirstSpace(line: seq<byte>): (k: nat)
    ensures k <= |line| && (forall i :: 0 <= i < k ==> line[i] != SPACE) && (k < |line| ==> line[k] == SPACE)
  {
    if line == [] || line[0] == SPACE then 0 else 1 + FirstSpace(line[1..])
  }

  lemma FirstSpaceIs(line: seq<byte>, k: nat)
    requires k <= |line| && (forall i :: 0 <= i < k ==> line[i] != SPACE) && (k < |line| ==> line[k] == SPACE)
    ensures FirstSpace(line) == k
  {
  }

  function CommandOf(line: seq<byte>): seq<byte> {
    line[..FirstSpace(line)]
  }

  function ParamsOf(line: seq<byte>): seq<byte> {
    if FirstSpace(line) == |line| then [] else line[FirstSpace(line) + 1..]
  }

  lemma ParamsFit(line: seq<byte>)
    ensures |ParamsOf(line)| <= |line|
  {
  }

  /** A line is its command, and behind the first space its parameters; the command has no space in it. */
  lemma CommandAndParams(line: seq<byte>, command: seq<byte>, params: seq<byte>)
    requires SPACE !in command
    ensures line == command + [SPACE] + params <==>
      SPACE in line && command == CommandOf(line) && params == ParamsOf(line)
  {
    if line == command + [SPACE] + params {
      FirstSpaceIs(line, |command|);
    }
  }

  // ---------- the reference terminal ----------

  /** Text without a NUL. */
  type Text = t: seq<byte> | NoNul(t) witness []

  /**
   * What a command does: nothing is found, or cprompt, cls, tcolor, history, shutdown, or lines are printed, and some
   * strings of the command stay allocated: disk and syslog leave one each.
   */
  datatype Response =
    | NotFound
    | NewPromptText
    | ClearScreen
    | Recolor(color: byte)
    | History
    | Shutdown
    | Lines(msgs: seq<Text>, left: nat)

  /** What a command that has been found can do. */
  type Action = r: Response | !r.NotFound? witness Shutdown

  /**
   * An entry of the command table: a name, and what the command does with its parameters in the n-th line entered, so
   * that what it prints may differ each time.
   */
  datatype Command = Command(name: seq<byte>, call: (nat, seq<byte>) -> Action)

  /** find_cmd: the first entry of this name, or the number of entries. */
  function Lookup(table: seq<Command>, name: seq<byte>): (i: nat)
    ensures i <= |table| && (i < |table| ==> table[i].name == name)
    ensures forall j :: 0 <= j < i ==> table[j].name != name
  {
    if table == [] || table[0].name == name then 0 else 1 + Lookup(table[1..], name)
  }

  /** What stays the same while the terminal runs: the prompt's column and the command table. */
  datatype Setup = Setup(x: int, commands: seq<Command>)

  /** The line being edited, the lines entered before, prompt, color, screen, and whether it was shut down. */
  datatype Shell = Shell(line: seq<byte>, hist: seq<seq<byte>>, prompt: seq<byte>, color: byte, page: Page,
                         ended: bool) {
    /** The prompt is not empty, and the line is one that keys can make. */
    predicate Sane() {
      && page.Valid() && 0 <= page.row && prompt != [] && |line| <= INPUT_SIZE
      && forall i :: 0 <= i < |line| ==> line[i] != 0 && line[i] != NEWLINE && line[i] != BACKSPACE
    }
  }

  /** The response to a command in the n-th line entered. */
  function Found(st: Setup, n: nat, command: seq<byte>, params: seq<byte>): Response {
    var i := Lookup(st.commands, command);
    if i < |st.commands| then st.commands[i].call(n, params) else NotFound
  }

  /** There is no response exactly when no command has this name. */
  lemma NotFoundExactly(st: Setup, n: nat, command: seq<byte>, params: seq<byte>)
    ensures Found(st, n, command, params).NotFound? <==> forall c :: c in st.commands ==> c.name != command
  {
    var i := Lookup(st.commands, command);
    if i < |st.commands| {
      assert st.commands[i] in st.commands;
    }
  }

  function Answer(st: Setup, n: nat, line: seq<byte>): Response {
    Found(st, n, CommandOf(line), ParamsOf(line))
  }

  /** The first command of a name is called with what stands behind the first space, and with nothing without one. */
  lemma CommandCalled(st: Setup, n: nat, i: nat, params: seq<byte>)
    requires i < |st.commands| && SPACE !in st.commands[i].name
    requires forall j :: 0 <= j < i ==> st.commands[j].name != st.commands[i].name
    ensures Answer(st, n, st.commands[i].name + [SPACE] + params) == st.commands[i].call(n, params)
    ensures Answer(st, n, st.commands[i].name) == st.commands[i].call(n, [])
  {
    var name := st.commands[i].name;
    CommandAndParams(name + [SPACE] + params, name, params);
    FirstSpaceIs(name, |name|);
    assert name[..|name|] == name;
  }

  function LeftBy(r: Response): nat {
    if r.Lines? then r.left else 0
  }

  /** The strings left behind by the commands in the lines of the history from a number on. */
  function LeftIn(st: Setup, hist: seq<seq<byte>>, from: nat): nat {
    if |hist| <= from then 0
    else LeftIn(st, hist[..|hist| - 1], from) + LeftBy(Answer(st, |hist|, hist[|hist| - 1]))
  }

  /** Nothing is left behind exactly when no command leaves anything. */
  lemma {:induction false} LeftNone(st: Setup, hist: seq<seq<byte>>, from: nat)
    ensures LeftIn(st, hist, from) == 0 <==>
      forall i :: from <= i < |hist| ==> LeftBy(Answer(st, i + 1, hist[i])) == 0
  {
    hide Answer, LeftBy;
    if from < |hist| {
      var front := hist[..|hist| - 1];
      LeftNone(st, front, from);
      assert forall i :: 0 <= i < |front| ==> front[i] == hist[i];
    }
  }

  lemma LeftOneMore(st: Setup, hist: seq<seq<byte>>, line: seq<byte>, from: nat)
    requires from <= |hist|
    ensures LeftIn(st, hist + [line], from) == LeftIn(st, hist, from) + LeftBy(Answer(st, |hist| + 1, line))
  {
    assert (hist + [line])[..|hist|] == hist;
  }

  function Ascii(s: string): (t: seq<byte>)
    ensures |t| == |s| && NoNul(t)
  {
    seq(|s|, i requires 0 <= i < |s| => if 0 < s[i] as int < 0x80 then s[i] as int else 63)
  }

  const NOT_FOUND: string := "Cannot find file or command:"
  const BAD_PROMPT: string := "Invalid prompt."
  const DOT: seq<byte> := [46, 32]

  /** The line history prints for entry i of the history. */
  function HistoryLine(i: nat, line: seq<byte>): seq<byte> {
    IntText(i + 1, 10) + DOT + line
  }

  /** One line for every entry, with its number in front. */
  function Entries(hist: seq<seq<byte>>): seq<seq<byte>> {
    seq(|hist|, i requires 0 <= i < |hist| => HistoryLine(i, hist[i]))
  }

  function HistoryLines(hist: seq<seq<byte>>): seq<seq<byte>> {
    [[]] + Entries(hist) + [[]]
  }

  /**
   * history prints one line more at each end than there are entries. Line k + 1 is the number k + 1 in decimal, a dot,
   * a space and entry k; the number is what stands in front of the first dot.
   */
  lemma HistoryLineReads(hist: seq<seq<byte>>, k: nat) returns (n: nat)
    requires k < |hist|
    ensures |HistoryLines(hist)| == |hist| + 2 && HistoryLines(hist)[0] == HistoryLines(hist)[|hist| + 1] == []
    ensures var text := HistoryLines(hist)[k + 1];
      && n + 1 < |text| && Canonical(text[..n], 10) && ParseInt(text[..n], 10) == k + 1
      && text[n] == '.' as int && text[n + 1] == ' ' as int && text[n + 2..] == hist[k]
  {
    hide Canonical, ParseInt;
    n := |IntText(k + 1, 10)|;
    assert HistoryLines(hist)[k + 1] == HistoryLine(k, hist[k]);
    assert HistoryLine(k, hist[k])[..n] == IntText(k + 1, 10) == Numeral(k + 1, 10);
    ParseIntText(k + 1, 10);
    NumeralCanonical(k + 1, 10);
  }

  /** The characters of a literal are stored as they are. */
  lemma AsciiAt(s: string, i: nat)
    requires i < |s| && 0 < s[i] as int < 0x80
    ensures Ascii(s)[i] == s[i] as int
  {
  }

  function Printed(sh: Shell, msgs: seq<seq<byte>>): (sh': Shell)
    requires sh.page.Valid()
    ensures sh'.page.Valid()
  {
    sh.(page := WriteLines(sh.page, msgs, sh.color))
  }

  /** The terminal after a command has run. */
  function Commanded(sh: Shell, r: Response, command: seq<byte>, params: seq<byte>): (sh': Shell)
    requires sh.page.Valid()
    ensures sh'.page.Valid()
  {
    match r
    case NotFound => Printed(sh, [Ascii(NOT_FOUND), command])
    case NewPromptText => if params == [] then Printed(sh, [Ascii(BAD_PROMPT)]) else sh.(prompt := params)
    case ClearScreen => sh.(page := ClearedPage(sh.color))
    case Recolor(c) => sh.(page := Page(Colored(sh.page.fb, 0, COLUMNS * ROWS, c), sh.page.row), color := c)
    case History => Printed(sh, HistoryLines(sh.hist))
    case Shutdown => sh.(ended := true)
    case Lines(msgs, left) => Printed(sh, msgs)
  }

  /** An empty line, in a new row. */
  function NewLine(sh: Shell): (sh': Shell)
    requires sh.page.Valid()
    ensures sh'.page.Valid() && 0 <= sh'.page.row
  {
    sh.(line := [], page := NextRow(sh.page, sh.color))
  }

  /** The line makes no difference to the new one. */
  lemma NewLineSame(sh: Shell, other: Shell)
    requires sh.page.Valid() && other.page.Valid() && sh.(line := []) == other.(line := [])
    ensures NewLine(sh) == NewLine(other)
  {
  }

  function Enter(sh: Shell, st: Setup): (sh': Shell)
    requires sh.page.Valid()
    ensures sh'.page.Valid() && 0 <= sh'.page.row
  {
    if sh.line == [] then NewLine(sh)
    else
      var r := Answer(st, |sh.hist| + 1, sh.line);
      NewLine(Commanded(sh.(hist := sh.hist + [sh.line]), r, CommandOf(sh.line), ParamsOf(sh.line)))
  }

  /** The line loses its last character, and a blank goes over it on the screen. */
  function Rubout(sh: Shell, st: Setup): (sh': Shell)
    requires sh.page.Valid()
    ensures sh'.page.Valid() && sh'.page.row == sh.page.row
  {
    if sh.line == [] then sh
    else
      var rest := sh.line[..|sh.line| - 1];
      var cell := GetPosition(st.x + |sh.prompt| + |rest|, sh.page.row);
      sh.(line := rest, page := Page(Cell(sh.page.fb, cell, SPACE, sh.color), sh.page.row))
  }

  function Press(sh: Shell, key: byte, st: Setup): (sh': Shell)
    requires sh.page.Valid()
    ensures sh'.page.Valid()
  {
    if key == NEWLINE then Enter(sh, st)
    else if key == BACKSPACE then Rubout(sh, st)
    else sh.(line := AfterKey(sh.line, key))
  }

  /** draw_prompt: the prompt and the line behind it are on the screen. */
  function Drawn(sh: Shell, st: Setup): (sh': Shell)
    requires sh.page.Valid()
    ensures sh'.page.Valid()
  {
    var fb := Layout(sh.page.fb, GetPosition(st.x, sh.page.row), sh.prompt + [0], sh.color);
    sh.(page := Page(Layout(fb, GetPosition(st.x + |sh.prompt|, sh.page.row), sh.line + [0], sh.color), sh.page.row))
  }

  function Turn(sh: Shell, key: byte, st: Setup): (sh': Shell)
    requires sh.page.Valid()
    ensures sh'.page.Valid()
  {
    Press(Drawn(sh, st), key, st)
  }

  /** run_terminal: one turn for every key, until a command ends it. */
  function Session(sh: Shell, keys: seq<byte>, st: Setup): (sh': Shell)
    requires sh.page.Valid()
    ensures sh'.page.Valid()
    decreases |keys|
  {
    if keys == [] || sh.ended then sh else Session(Turn(sh, keys[0], st), keys[1..], st)
  }

  lemma SessionStep(sh: Shell, keys: seq<byte>, i: nat, st: Setup)
    requires sh.page.Valid() && i < |keys| && !sh.ended
    ensures Session(sh, keys[i..], st) == Session(Turn(sh, keys[i], st), keys[i + 1..], st)
  {
    assert keys[i..][1..] == keys[i + 1..];
  }

  lemma CommandedEdits(sh: Shell, r: Response, command: seq<byte>, params: seq<byte>)
    requires sh.page.Valid()
    ensures Commanded(sh, r, command, params).hist == sh.hist && Commanded(sh, r, command, params).line == sh.line
    ensures sh.prompt != [] ==> Commanded(sh, r, command, params).prompt != []
  {
  }

  lemma TurnEdits(sh: Shell, key: byte, st: Setup)
    requires sh.page.Valid()
    ensures Turn(sh, key, st).line == AfterKey(sh.line, key)
    ensures Turn(sh, key, st).hist == sh.hist + if key == NEWLINE && sh.line != [] then [sh.line] else []
  {
    if key == NEWLINE && sh.line != [] {
      var d, command, params := Drawn(sh, st), CommandOf(sh.line), ParamsOf(sh.line);
      CommandedEdits(d.(hist := d.hist + [d.line]), Found(st, |d.hist| + 1, command, params), command, params);
    }
  }

  lemma TwoPieces(a: seq<seq<byte>>, b: seq<seq<byte>>, c: seq<seq<byte>>)
    ensures (a + b) + c == a + (b + c)
  {
  }

  lemma {:induction false} EndedStays(sh: Shell, keys: seq<byte>, st: Setup)
    requires sh.page.Valid() && (sh.ended || keys == [])
    ensures Session(sh, keys, st) == sh
  {
  }

  /**
   * While no command ends it, the line and the history of a session depend on the keys alone, not on prompt, screen or
   * commands.
   */
  lemma {:induction false} SessionEdits(sh: Shell, keys: seq<byte>, st: Setup)
    requires sh.page.Valid() && !Session(sh, keys, st).ended
    ensures Session(sh, keys, st).line == AfterKeys(sh.line, keys)
    ensures Session(sh, keys, st).hist == sh.hist + Entered(sh.line, keys)
    decreases |keys|
  {
    if sh.ended {
      EndedStays(sh, keys, st);
    } else if keys != [] {
      var next, x := Turn(sh, keys[0], st), if keys[0] == NEWLINE && sh.line != [] then [sh.line] else [];
      TurnEdits(sh, keys[0], st);
      SessionEdits(next, keys[1..], st);
      TwoPieces(sh.hist, x, Entered(next.line, keys[1..]));
      assert Entered(sh.line, keys) == x + Entered(next.line, keys[1..]);
    }
  }

  /** No turn takes a line back. */
  lemma {:induction false} HistoryStays(sh: Shell, keys: seq<byte>, st: Setup)
    requires sh.page.Valid()
    ensures sh.hist <= Session(sh, keys, st).hist
    decreases |keys|
  {
    if keys != [] && !sh.ended {
      TurnEdits(sh, keys[0], st);
      HistoryStays(Turn(sh, keys[0], st), keys[1..], st);
    }
  }

  /** Typing a text and entering it adds it to the history. */
  lemma {:induction false} LineEntered(sh: Shell, text: seq<byte>, st: Setup)
    requires sh.page.Valid() && !sh.ended && Typable(text) && |sh.line| + |text| <= INPUT_SIZE && sh.line + text != []
    ensures Session(sh, text + [NEWLINE], st).hist == sh.hist + [sh.line + text]
    decreases |text|
  {
    var keys := text + [NEWLINE];
    SessionStep(sh, keys, 0, st);
    assert keys[0..] == keys;
    TurnEdits(sh, keys[0], st);
    var next := Turn(sh, keys[0], st);
    if text == [] {
      assert keys[1..] == [] && sh.line + text == sh.line;
      EndedStays(next, keys[1..], st);
    } else {
      assert keys[1..] == text[1..] + [NEWLINE];
      assert sh.line + text == next.line + text[1..];
      LineEntered(next, text[1..], st);
      assert next.hist == sh.hist;
    }
  }

  /** A session that types a text and enters it comes down to enter on a terminal with that line. */
  lemma {:induction false} TypedIn(sh: Shell, text: seq<byte>, st: Setup) returns (before: Shell)
    requires sh.page.Valid() && !sh.ended && Typable(text) && |sh.line| + |text| <= INPUT_SIZE
    ensures before.page.Valid() && before == sh.(line := sh.line + text, page := before.page)
    ensures Session(sh, text + [NEWLINE], st) == Enter(before, st)
    decreases |text|
  {
    hide Layout, Enter;
    var keys := text + [NEWLINE];
    SessionStep(sh, keys, 0, st);
    assert keys[0..] == keys;
    if text == [] {
      before := Drawn(sh, st);
      EndedStays(Turn(sh, NEWLINE, st), keys[1..], st);
      assert sh.line + text == sh.line;
    } else {
      assert keys[1..] == text[1..] + [NEWLINE];
      before := TypedIn(Turn(sh, text[0], st), text[1..], st);
      assert sh.line + text == sh.line + [text[0]] + text[1..];
    }
  }

  /** Every color byte of the screen is color. */
  ghost predicate AllColored(fb: seq<byte>, color: byte) {
    |fb| == 4000 && forall cell :: 0 <= cell < 2000 ==> fb[2 * cell + 1] == color
  }

  lemma RecoloredAll(fb: seq<byte>, color: byte)
    requires |fb| == FRAME_BYTES
    ensures AllColored(Colored(fb, 0, COLUMNS * ROWS, color), color)
  {
    forall cell | 0 <= cell < 2000
      ensures Colored(fb, 0, COLUMNS * ROWS, color)[2 * cell + 1] == color
    {
      ColoredCell(fb, 0, COLUMNS * ROWS, color, cell);
    }
  }

  lemma NextRowColored(pg: Page, color: byte)
    requires pg.Valid() && AllColored(pg.fb, color)
    ensures AllColored(NextRow(pg, color).fb, color)
  {
    if pg.row + 1 > ROWS - 1 {
      RecoloredAll(Scrolled(pg.fb), color);
    }
  }

  /**
   * What entering a line changes besides the lines on the screen: shutdown and no other command ends the session;
   * cprompt with parameters makes them the prompt; tcolor sets the color and paints the whole screen in it; cls leaves
   * no character on it.
   */
  lemma CommandTakesEffect(sh: Shell, text: seq<byte>, st: Setup)
    requires sh.page.Valid() && !sh.ended && Typable(text) && |sh.line| + |text| <= INPUT_SIZE && sh.line + text != []
    ensures var line := sh.line + text;
      var r, end := Answer(st, |sh.hist| + 1, line), Session(sh, text + [NEWLINE], st);
      && end.line == [] && end.hist == sh.hist + [line]
      && (end.ended <==> r.Shutdown?)
      && end.prompt == (if r.NewPromptText? && ParamsOf(line) != [] then ParamsOf(line) else sh.prompt)
      && end.color == (if r.Recolor? then r.color else sh.color)
      && (r.Recolor? || r.ClearScreen? ==> AllColored(end.page.fb, end.color))
      && (r.ClearScreen? ==> end.page.row == 0 && forall cell :: 0 <= cell < 2000 ==> end.page.fb[2 * cell] == 0)
  {
    hide Session, Found;
    var before := TypedIn(sh, text, st);
    EnterTakesEffect(before, Answer(st, |sh.hist| + 1, sh.line + text), st);
  }

  lemma EnterTakesEffect(sh: Shell, r: Response, st: Setup)
    requires sh.page.Valid() && sh.line != [] && r == Answer(st, |sh.hist| + 1, sh.line)
    ensures var end := Enter(sh, st);
      && end.line == [] && end.hist == sh.hist + [sh.line] && (end.ended <==> sh.ended || r.Shutdown?)
      && end.prompt == (if r.NewPromptText? && ParamsOf(sh.line) != [] then ParamsOf(sh.line) else sh.prompt)
      && end.color == (if r.Recolor? then r.color else sh.color)
      && (r.Recolor? || r.ClearScreen? ==> AllColored(end.page.fb, end.color))
      && (r.ClearScreen? ==> end.page.row == 0 && forall cell :: 0 <= cell < 2000 ==> end.page.fb[2 * cell] == 0)
  {
    hide Found, NextRow, ClearedPage, Colored, WriteLines, AllColored;
    match r {
      case ClearScreen => ClearedBytes(sh.color);
      case Recolor(c) =>
        RecoloredAll(sh.page.fb, c);
        NextRowColored(Page(Colored(sh.page.fb, 0, COLUMNS * ROWS, c), sh.page.row), c);
      case _ =>
    }
  }

  lemma ClearedBytes(color: byte)
    ensures var pg := NextRow(ClearedPage(color), color);
      pg.row == 0 && AllColored(pg.fb, color) && forall cell :: 0 <= cell < 2000 ==> pg.fb[2 * cell] == 0
  {
    RecoloredAll(seq(FRAME_BYTES, _ => 0), color);
  }

  /** For instance syslog, whose command frees nothing: one string is left behind. */
  lemma SyslogLeaves(sh: Shell, st: Setup, msgs: seq<Text>)
    requires sh.page.Valid() && !sh.ended && sh.line == []
    requires Answer(st, |sh.hist| + 1, Ascii("syslog")) == Lines(msgs, 1)
    ensures LeftIn(st, Session(sh, Ascii("syslog") + [NEWLINE], st).hist, |sh.hist|) == 1
  {
    var text := Ascii("syslog");
    assert Typable(text) && sh.line + text == text;
    LineEntered(sh, text, st);
    LeftOneMore(st, sh.hist, text, |sh.hist|);
  }

  lemma TurnSane(sh: Shell, key: byte, st: Setup)
    requires sh.Sane()
    ensures Turn(sh, key, st).Sane()
  {
    var d := Drawn(sh, st);
    if key == NEWLINE && sh.line != [] {
      var command, params := CommandOf(d.line), ParamsOf(d.line);
      CommandedEdits(d.(hist := d.hist + [d.line]), Found(st, |d.hist| + 1, command, params), command, params);
    }
  }

  /** No session empties the prompt, lengthens the line past its buffer, or leaves the screen, cleared or not. */
  lemma {:induction false} SessionSane(sh: Shell, keys: seq<byte>, st: Setup)
    requires sh.Sane()
    ensures Session(sh, keys, st).Sane()
    decreases |keys|
  {
    if keys != [] && !sh.ended {
      TurnSane(sh, keys[0], st);
      SessionSane(Turn(sh, keys[0], st), keys[1..], st);
    }
  }

  // ---------- what is seen ----------

  lemma {:induction false} LandingStraight(p: nat, text: seq<byte>, k: nat)
    requires k <= |text| && forall i :: 0 <= i < k ==> text[i] != NEWLINE
    ensures Landing(p, text, k) == p + 2 * k
  {
    if k > 0 {
      LandingStraight(p, text, k - 1);
    }
  }

  /** After draw_prompt every character of the line that has a place on the screen is seen there. */
  lemma LineIsSeen(sh: Shell, st: Setup, k: nat)
    requires sh.Sane() && k < |sh.line|
    requires GetPosition(st.x + |sh.prompt|, sh.page.row) + 2 * k < FRAME_BYTES
    ensures var p := GetPosition(st.x + |sh.prompt|, sh.page.row) + 2 * k;
      p + 1 < 4000 && Drawn(sh, st).page.fb[p] == sh.line[k] && Drawn(sh, st).page.fb[p + 1] == sh.color
  {
    var p, text := GetPosition(st.x + |sh.prompt|, sh.page.row), sh.line + [0];
    LandingStraight(p, text, k);
    assert forall j :: 0 <= j <= k ==> text[j] == sh.line[j];
    assert Shown(p, text, k);
    LayoutShows(Layout(sh.page.fb, GetPosition(st.x, sh.page.row), sh.prompt + [0], sh.color), p, text, sh.color, k);
  }

  lemma NextRowShows(pg: Page, hist: seq<seq<byte>>, color: byte)
    requires Shows(pg, hist)
    ensures Shows(NextRow(pg, color), hist + [[]])
  {
    WriteLineShows(pg, hist, [], color);
  }

  /** Entering a line that runs cls leaves an empty screen with the prompt in its first row. */
  lemma ClearsTheScreen(sh: Shell, st: Setup)
    requires sh.page.Valid() && sh.line != []
    requires Answer(st, |sh.hist| + 1, sh.line).ClearScreen?
    ensures Enter(sh, st).page.row == 0 && Shows(Enter(sh, st).page, [[]])
  {
    ClearedShows(sh.color);
    var none: seq<seq<byte>> := [];
    NextRowShows(ClearedPage(sh.color), none, sh.color);
    assert none + [[]] == [[]];
  }

  /** A command that prints short lines adds them, and the row of the next prompt, to what the screen shows. */
  lemma PrintingShows(sh: Shell, st: Setup, shown: seq<seq<byte>>, msgs: seq<seq<byte>>)
    requires Shows(sh.page, shown) && sh.line != [] && forall i :: 0 <= i < |msgs| ==> Short(msgs[i])
    requires var r := Answer(st, |sh.hist| + 1, sh.line);
      (r.Lines? && msgs == r.msgs) || (r.History? && msgs == HistoryLines(sh.hist + [sh.line]))
    ensures Shows(Enter(sh, st).page, shown + msgs + [[]])
  {
    hide WriteLines, NextRow, HistoryLines;
    var after := WriteLines(sh.page, msgs, sh.color);
    LastLines(sh.page, shown, msgs, sh.color);
    NextRowShows(after, shown + msgs, sh.color);
  }

  // ---------- the prompt row ----------

  lemma LayoutOne(fb: seq<byte>, p: nat, text: seq<byte>, color: byte)
    requires |fb| == FRAME_BYTES && p % 2 == 0 && p + 1 < FRAME_BYTES
    requires text != [] && text[0] != 0 && text[0] != NEWLINE
    ensures Layout(fb, p, text + [0], color) == Layout(Cell(fb, p, text[0], color), p + 2, text[1..] + [0], color)
  {
    assert (text + [0])[1..] == text[1..] + [0];
  }

  lemma LayoutNothing(fb: seq<byte>, p: nat, color: byte)
    requires |fb| == FRAME_BYTES && p % 2 == 0
    ensures Layout(fb, p, [0], color) == fb
  {
  }

  lemma OverlaidNothing(s: seq<byte>, c: nat, text: seq<byte>)
    requires c <= |s| && text == []
    ensures Overlaid(s, c, text) == s
  {
  }

  /** Text printed inside a row from column c on: it stands there, and no other character of the screen changes. */
  lemma {:induction false} LayoutInRow(fb: seq<byte>, p: nat, row: nat, c: nat, text: seq<byte>, color: byte, r: nat)
    requires |fb| == FRAME_BYTES && row < ROWS && r < ROWS && c + |text| < COLUMNS
    requires p == ROW_BYTES * row + 2 * c && p % 2 == 0 && NoNul(text) && NEWLINE !in text
    ensures var after := Layout(fb, p, text + [0], color);
      Row(after, r) == if r == row then Overlaid(Row(fb, r), c, text) else Row(fb, r)
    decreases |text|
  {
    hide Cell, Layout, Overlaid;
    if text == [] {
      LayoutNothing(fb, p, color);
      assert text + [0] == [0];
      OverlaidNothing(Row(fb, r), c, text);
    } else {
      var next, rest := Cell(fb, p, text[0], color), text[1..];
      LayoutOne(fb, p, text, color);
      CellInRow(fb, p, row, c, text[0], color, r);
      LayoutInRow(next, p + 2, row, c + 1, rest, color, r);
      if r == row {
        OverlaidStep(Row(fb, r), c, text);
      }
    }
  }

  lemma CellInRow(fb: seq<byte>, p: nat, row: nat, c: nat, x: byte, color: byte, r: nat)
    requires |fb| == FRAME_BYTES && row < ROWS && r < ROWS && c < COLUMNS && p == ROW_BYTES * row + 2 * c
    ensures p + 1 < FRAME_BYTES && |Cell(fb, p, x, color)| == FRAME_BYTES
    ensures Row(Cell(fb, p, x, color), r) == if r == row then Row(fb, r)[c := x] else Row(fb, r)
  {
    PutAtRow(Page(fb, row), x, c, color, r);
    assert GetPosition(c, row) == p;
  }

  /** s with text laid over it from position c on. */
  function Overlaid(s: seq<byte>, c: nat, text: seq<byte>): seq<byte>
    requires c + |text| <= |s|
  {
    s[..c] + text + s[c + |text|..]
  }

  lemma OverlaidStep(s: seq<byte>, c: nat, text: seq<byte>)
    requires text != [] && c + |text| <= |s|
    ensures Overlaid(s[c := text[0]], c + 1, text[1..]) == Overlaid(s, c, text)
  {
  }

  lemma OverlaidReads(row: seq<byte>, a: seq<byte>, b: seq<byte>)
    requires |b| <= |row| && a <= b && Reads(row, a)
    ensures Reads(Overlaid(row, 0, b), b)
  {
  }

  lemma OverlaidTwice(s: seq<byte>, a: seq<byte>, b: seq<byte>)
    requires |a| + |b| <= |s|
    ensures Overlaid(Overlaid(s, 0, a), |a|, b) == Overlaid(s, 0, a + b)
  {
  }

  /** Prompt and line fit one row. */
  predicate OneRow(sh: Shell) {
    |sh.prompt| + |sh.line| < COLUMNS
  }

  /** The prompt holds no character that kprint would not print. */
  ghost predicate Clean(sh: Shell) {
    NoNul(sh.prompt) && NEWLINE !in sh.prompt
  }

  /** draw_prompt on a short prompt and line changes the current row alone. */
  lemma DrawnRow(sh: Shell, st: Setup, r: nat)
    requires sh.Sane() && st.x == 0 && OneRow(sh) && Clean(sh) && r < ROWS
    ensures Row(Drawn(sh, st).page.fb, r)
         == if r == sh.page.row then Overlaid(Row(sh.page.fb, r), 0, sh.prompt + sh.line) else Row(sh.page.fb, r)
  {
    var row, n := sh.page.row, |sh.prompt|;
    var fb := Layout(sh.page.fb, GetPosition(0, row), sh.prompt + [0], sh.color);
    LayoutInRow(sh.page.fb, GetPosition(0, row), row, 0, sh.prompt, sh.color, r);
    LayoutInRow(fb, GetPosition(n, row), row, n, sh.line, sh.color, r);
    OverlaidTwice(Row(sh.page.fb, r), sh.prompt, sh.line);
  }

  lemma {:induction false} LayoutBytes(fb: seq<byte>, p: nat, text: seq<byte>, color: byte, q: nat)
    requires |fb| == FRAME_BYTES && p % 2 == 0 && p + 2 * |text| <= FRAME_BYTES && NoNul(text) && NEWLINE !in text
    requires q < FRAME_BYTES
    ensures Layout(fb, p, text + [0], color)[q] ==
      if p <= q < p + 2 * |text| then (if q % 2 == 0 then text[(q - p) / 2] else color) else fb[q]
    decreases |text|
  {
    hide Cell, Layout;
    if text == [] {
      LayoutNothing(fb, p, color);
      assert text + [0] == [0];
    } else {
      LayoutOne(fb, p, text, color);
      CellBytes(fb, p, text[0], color, q);
      LayoutBytes(Cell(fb, p, text[0], color), p + 2, text[1..], color, q);
      if p + 2 <= q {
        assert (q - p) / 2 == (q - (p + 2)) / 2 + 1;
      }
    }
  }

  lemma CellBytes(fb: seq<byte>, p: nat, c: byte, color: byte, q: nat)
    requires p + 1 < |fb| && q < |fb|
    ensures |Cell(fb, p, c, color)| == |fb|
    ensures Cell(fb, p, c, color)[q] == if q == p then c else if q == p + 1 then color else fb[q]
  {
  }

  /** draw_prompt on a short prompt and line, byte by byte. */
  lemma DrawnBytes(sh: Shell, st: Setup, q: nat)
    requires sh.Sane() && st.x == 0 && OneRow(sh) && Clean(sh) && q < 4000
    ensures var start, text := 160 * sh.page.row, sh.prompt + sh.line;
      Drawn(sh, st).page.fb[q] ==
        if start <= q < start + 2 * |text| then (if q % 2 == 0 then text[(q - start) / 2] else sh.color)
        else sh.page.fb[q]
  {
    hide Layout;
    var row, n := sh.page.row, |sh.prompt|;
    var fb := Layout(sh.page.fb, GetPosition(0, row), sh.prompt + [0], sh.color);
    LayoutBytes(sh.page.fb, GetPosition(0, row), sh.prompt, sh.color, q);
    LayoutBytes(fb, GetPosition(n, row), sh.line, sh.color, q);
    assert GetPosition(0, row) == 160 * row && GetPosition(n, row) == 160 * row + 2 * n;
    if 160 * row + 2 * n <= q {
      assert (q - 160 * row) / 2 == (q - (160 * row + 2 * n)) / 2 + n;
    }
  }

  /** Backspace, byte by byte: the last cell of the line becomes a blank in the present color. */
  lemma RuboutBytes(sh: Shell, st: Setup, q: nat)
    requires sh.Sane() && st.x == 0 && OneRow(sh) && sh.line != [] && q < 4000
    ensures var cell := 160 * sh.page.row + 2 * (|sh.prompt| + |sh.line| - 1);
      Rubout(sh, st).page.fb[q] ==
        if q == cell then ' ' as int else if q == cell + 1 then sh.color else sh.page.fb[q]
  {
    hide Cell;
    var c := |sh.prompt| + |sh.line| - 1;
    assert GetPosition(c, sh.page.row) == 2 * c + 160 * sh.page.row;
    CellBytes(sh.page.fb, GetPosition(c, sh.page.row), SPACE, sh.color, q);
  }

  /**
   * draw_prompt makes the prompt and the line the last of the lines the screen shows, when the last row is blank or
   * reads a part of it already.
   */
  lemma DrawnShows(sh: Shell, st: Setup, shown: seq<seq<byte>>, last: seq<byte>)
    requires sh.Sane() && st.x == 0 && OneRow(sh) && Clean(sh)
    requires Shows(sh.page, shown + [last]) && last <= sh.prompt + sh.line
    ensures Shows(Drawn(sh, st).page, shown + [sh.prompt + sh.line])
  {
    var row := sh.page.row;
    forall r | 0 <= r < ROWS
      ensures Row(Drawn(sh, st).page.fb, r)
           == if r == row then Overlaid(Row(sh.page.fb, r), 0, sh.prompt + sh.line) else Row(sh.page.fb, r)
    {
      DrawnRow(sh, st, r);
    }
    LastReads(sh.page, shown, last);
    OverlaidReads(Row(sh.page.fb, row), last, sh.prompt + sh.line);
    LastRowShows(sh.page, Drawn(sh, st).page, shown, last, sh.prompt + sh.line);
  }

  lemma LastReads(pg: Page, shown: seq<seq<byte>>, last: seq<byte>)
    requires Shows(pg, shown + [last])
    ensures 0 <= pg.row && Reads(Row(pg.fb, pg.row), last)
  {
    assert Reads(Row(pg.fb, pg.row), Expected(shown + [last], pg.row, pg.row));
  }

  /** Only the current row changed, and it reads now instead of last. */
  lemma LastRowShows(pg: Page, after: Page, shown: seq<seq<byte>>, last: seq<byte>, now: seq<byte>)
    requires Shows(pg, shown + [last]) && after.Valid() && after.row == pg.row && Short(now)
    requires forall r :: 0 <= r < ROWS && r != pg.row ==> Row(after.fb, r) == Row(pg.fb, r)
    requires Reads(Row(after.fb, pg.row), now)
    ensures Shows(after, shown + [now])
  {
    var all := shown + [now];
    assert forall i :: 0 <= i < |shown| ==> all[i] == (shown + [last])[i];
    assert forall i :: 0 <= i < |all| ==> Short(all[i]);
    forall r | 0 <= r < ROWS
      ensures Reads(Row(after.fb, r), Expected(all, pg.row, r))
    {
      assert Reads(Row(pg.fb, r), Expected(shown + [last], pg.row, r));
    }
  }

  lemma ReadsRubout(row: seq<byte>, text: seq<byte>)
    requires Reads(row, text) && text != []
    ensures Reads(row[|text| - 1 := SPACE], text[..|text| - 1])
  {
    var k := |text| - 1;
    assert row[k := SPACE][..k] == row[..|text|][..k];
  }

  /** A backspace takes the last character off the row as well. */
  lemma RuboutShows(sh: Shell, st: Setup, shown: seq<seq<byte>>)
    requires sh.Sane() && st.x == 0 && OneRow(sh) && Shows(sh.page, shown + [sh.prompt + sh.line])
    ensures var next := Rubout(sh, st); Shows(next.page, shown + [next.prompt + next.line])
  {
    if sh.line != [] {
      var row, text, rest := sh.page.row, sh.prompt + sh.line, sh.line[..|sh.line| - 1];
      var c := |sh.prompt| + |rest|;
      LastReads(sh.page, shown, text);
      ReadsRubout(Row(sh.page.fb, row), text);
      assert text[..|text| - 1] == sh.prompt + rest;
      forall r | 0 <= r < ROWS
        ensures Row(Rubout(sh, st).page.fb, r)
             == if r == row then Row(sh.page.fb, r)[c := SPACE] else Row(sh.page.fb, r)
      {
        CellInRow(sh.page.fb, GetPosition(c, row), row, c, SPACE, sh.color, r);
      }
      LastRowShows(sh.page, Rubout(sh, st).page, shown, text, sh.prompt + rest);
    }
  }

  // ---------- the transcript ----------

  /** The lines a command prints. */
  function Output(r: Response, hist: seq<seq<byte>>, command: seq<byte>, params: seq<byte>): seq<seq<byte>> {
    match r
    case NotFound => [Ascii(NOT_FOUND), command]
    case NewPromptText => if params == [] then [Ascii(BAD_PROMPT)] else []
    case History => HistoryLines(hist)
    case Lines(msgs, left) => msgs
    case _ => []
  }

  /** The lines above the next prompt once a line has been entered; cls takes all of them away. */
  function Above(shown: seq<seq<byte>>, r: Response, out: seq<seq<byte>>): seq<seq<byte>> {
    if r.ClearScreen? then [] else shown + out
  }

  ghost predicate ShortLines(out: seq<seq<byte>>) {
    forall i :: 0 <= i < |out| ==> Short(out[i])
  }

  lemma CommandedShows(sh: Shell, r: Response, command: seq<byte>, params: seq<byte>, shown: seq<seq<byte>>)
    requires Shows(sh.page, shown)
    requires ShortLines(Output(r, sh.hist, command, params))
    ensures Shows(Commanded(sh, r, command, params).page, Above(shown, r, Output(r, sh.hist, command, params)))
  {
    var out := Output(r, sh.hist, command, params);
    match r {
      case ClearScreen => ClearedShows(sh.color);
      case Recolor(c) => RecoloredShows(sh.page, shown, c);
      case _ => LastLines(sh.page, shown, out, sh.color);
    }
    assert shown + [] == shown;
  }

  /** What the line being entered prints. */
  function Reply(sh: Shell, st: Setup): seq<seq<byte>> {
    Output(Answer(st, |sh.hist| + 1, sh.line), sh.hist + [sh.line], CommandOf(sh.line), ParamsOf(sh.line))
  }

  /** The lines above the current one after a key. */
  function AboveNext(shown: seq<seq<byte>>, sh: Shell, key: byte, st: Setup): seq<seq<byte>> {
    if key != NEWLINE then shown
    else if sh.line == [] then shown + [sh.prompt]
    else Above(shown + [sh.prompt + sh.line], Answer(st, |sh.hist| + 1, sh.line), Reply(sh, st))
  }

  /** The transcript of a session: every prompt with the line entered behind it, and what the commands printed. */
  function Transcript(shown: seq<seq<byte>>, sh: Shell, keys: seq<byte>, st: Setup): seq<seq<byte>>
    requires sh.page.Valid()
    decreases |keys|
  {
    if keys == [] || sh.ended then shown
    else Transcript(AboveNext(shown, sh, keys[0], st), Turn(sh, keys[0], st), keys[1..], st)
  }

  /** No prompt with its line, and no line printed, is longer than a row. */
  ghost predicate AllShort(sh: Shell, keys: seq<byte>, st: Setup)
    requires sh.page.Valid()
    decreases |keys|
  {
    && OneRow(sh)
    && (keys != [] && !sh.ended ==>
          && (keys[0] == NEWLINE && sh.line != [] ==> ShortLines(Reply(sh, st)))
          && AllShort(Turn(sh, keys[0], st), keys[1..], st))
  }

  /** What the current row reads after a key, before it is drawn again. */
  function Showing(sh: Shell, key: byte): seq<byte> {
    if key == NEWLINE then []
    else if key == BACKSPACE then sh.prompt + AfterKey(sh.line, key)
    else sh.prompt + sh.line
  }

  lemma EnterShows(sh: Shell, st: Setup, shown: seq<seq<byte>>)
    requires sh.page.Valid() && Shows(sh.page, shown + [sh.prompt + sh.line])
    requires sh.line != [] ==> ShortLines(Reply(sh, st))
    ensures Shows(Enter(sh, st).page, AboveNext(shown, sh, NEWLINE, st) + [[]])
  {
    if sh.line == [] {
      assert sh.prompt + sh.line == sh.prompt;
      NextRowShows(sh.page, shown + [sh.prompt], sh.color);
    } else {
      var r, command, params := Answer(st, |sh.hist| + 1, sh.line), CommandOf(sh.line), ParamsOf(sh.line);
      var entered := sh.(hist := sh.hist + [sh.line]);
      CommandedShows(entered, r, command, params, shown + [sh.prompt + sh.line]);
      var after := Commanded(entered, r, command, params);
      NextRowShows(after.page, AboveNext(shown, sh, NEWLINE, st), after.color);
    }
  }

  lemma TurnShows(sh: Shell, key: byte, st: Setup, shown: seq<seq<byte>>, last: seq<byte>)
    requires sh.Sane() && st.x == 0 && OneRow(sh) && Clean(sh)
    requires Shows(sh.page, shown + [last]) && last <= sh.prompt + sh.line
    requires key == NEWLINE && sh.line != [] ==> ShortLines(Reply(sh, st))
    ensures var next := Turn(sh, key, st);
      && Shows(next.page, AboveNext(shown, sh, key, st) + [Showing(sh, key)])
      && Showing(sh, key) <= next.prompt + next.line
  {
    DrawnShows(sh, st, shown, last);
    if key == NEWLINE {
      EnterShows(Drawn(sh, st), st, shown);
    } else if key == BACKSPACE {
      RuboutShows(Drawn(sh, st), st, shown);
    }
  }

  lemma TurnClean(sh: Shell, key: byte, st: Setup)
    requires sh.Sane() && Clean(sh)
    ensures Clean(Turn(sh, key, st))
  {
  }

  /**
   * After any session whose prompts, lines and output are short the screen shows the end of its transcript, one line a
   * row, whatever was erased, recolored or cleared on the way; draw_prompt completes the last of the lines.
   */
  lemma {:induction false} SessionShows(sh: Shell, keys: seq<byte>, st: Setup, shown: seq<seq<byte>>, last: seq<byte>)
    requires sh.Sane() && st.x == 0 && Clean(sh) && AllShort(sh, keys, st)
    requires Shows(sh.page, shown + [last]) && last <= sh.prompt + sh.line
    ensures var end, done := Session(sh, keys, st), Transcript(shown, sh, keys, st);
      && (exists t :: t <= end.prompt + end.line && Shows(end.page, done + [t]))
      && Shows(Drawn(end, st).page, done + [end.prompt + end.line])
    decreases |keys|
  {
    if keys == [] || sh.ended {
      DrawnShows(sh, st, shown, last);
    } else {
      TurnShows(sh, keys[0], st, shown, last);
      TurnSane(sh, keys[0], st);
      TurnClean(sh, keys[0], st);
      SessionShows(Turn(sh, keys[0], st), keys[1..], st, AboveNext(shown, sh, keys[0], st), Showing(sh, keys[0]));
    }
  }

  /** Typing a text and entering it, as the screen shows it: the prompt with the whole line, and what it prints. */
  lemma {:induction false} EnteredShows(sh: Shell, text: seq<byte>, st: Setup,
                                        shown: seq<seq<byte>>, last: seq<byte>)
    requires sh.Sane() && !sh.ended && st.x == 0 && Clean(sh) && Typable(text) && sh.line + text != []
    requires |sh.prompt| + |sh.line| + |text| < COLUMNS
    requires Shows(sh.page, shown + [last]) && last <= sh.prompt + sh.line
    requires ShortLines(Reply(sh.(line := sh.line + text), st))
    ensures var typed := sh.(line := sh.line + text);
      Shows(Session(sh, text + [NEWLINE], st).page, AboveNext(shown, typed, NEWLINE, st) + [[]])
    decreases |text|
  {
    hide Turn, Drawn, Enter, Reply, Answer, Shows, Clean, Above;
    var keys := text + [NEWLINE];
    SessionStep(sh, keys, 0, st);
    assert keys[0..] == keys;
    var next := Turn(sh, keys[0], st);
    assert text == [] ==> sh.(line := sh.line + text) == sh;
    TurnShows(sh, keys[0], st, shown, last);
    if text == [] {
      EndedStays(next, keys[1..], st);
    } else {
      assert keys[1..] == text[1..] + [NEWLINE];
      assert sh.line + text == sh.line + [text[0]] + text[1..];
      TurnSane(sh, text[0], st);
      TurnClean(sh, text[0], st);
      TypedTurn(sh, text[0], st);
      ReplySame(sh.(line := sh.line + text), next.(line := next.line + text[1..]), st);
      EnteredShows(next, text[1..], st, shown, sh.prompt + sh.line);
    }
  }

  /** A typed character changes the line and the screen, and nothing else. */
  lemma TypedTurn(sh: Shell, key: byte, st: Setup)
    requires sh.page.Valid() && |sh.line| < INPUT_SIZE && Typable([key])
    ensures Turn(sh, key, st) == sh.(line := sh.line + [key], page := Turn(sh, key, st).page)
  {
    assert [key][0] == key;
  }

  /** What a line prints, and what stands above it, does not depend on the screen. */
  lemma ReplySame(sh: Shell, other: Shell, st: Setup)
    requires other == sh.(page := other.page)
    ensures Reply(other, st) == Reply(sh, st)
    ensures forall shown :: AboveNext(shown, other, NEWLINE, st) == AboveNext(shown, sh, NEWLINE, st)
  {
  }

  /** text is the name of command i, the first of that name, alone or with a space and parameters behind it. */
  ghost predicate Calls(st: Setup, text: seq<byte>, i: nat, params: seq<byte>) {
    && i < |st.commands| && SPACE !in st.commands[i].name
    && (forall j :: 0 <= j < i ==> st.commands[j].name != st.commands[i].name)
    && ((text == st.commands[i].name && params == []) || text == st.commands[i].name + [SPACE] + params)
  }

  /**
   * Typing a line that calls a command and entering it prints what that command prints for these parameters, below the
   * prompt with the line and above the next prompt.
   */
  lemma CommandPrints(sh: Shell, text: seq<byte>, st: Setup, i: nat, params: seq<byte>,
                      shown: seq<seq<byte>>, last: seq<byte>)
    requires sh.Sane() && !sh.ended && sh.line == [] && st.x == 0 && Clean(sh)
    requires Typable(text) && text != [] && |sh.prompt| + |text| < COLUMNS && Calls(st, text, i, params)
    requires Shows(sh.page, shown + [last]) && last <= sh.prompt
    requires var r := st.commands[i].call(|sh.hist| + 1, params); r.Lines? && ShortLines(r.msgs)
    ensures var end, r := Session(sh, text + [NEWLINE], st), st.commands[i].call(|sh.hist| + 1, params);
      && Shows(end.page, shown + [sh.prompt + text] + r.msgs + [[]])
      && Shows(Drawn(end, st).page, shown + [sh.prompt + text] + r.msgs + [sh.prompt])
  {
    hide Shows, Session, Drawn, Answer, CommandOf, ParamsOf;
    CommandCalled(st, |sh.hist| + 1, i, params);
    assert sh.line + text == text && sh.prompt + sh.line == sh.prompt;
    EnteredShows(sh, text, st, shown, last);
    var r := st.commands[i].call(|sh.hist| + 1, params);
    PromptBack(sh, text, st, shown + [sh.prompt + text] + r.msgs);
  }

  /** The next prompt is the same, unless the command changed it. */
  lemma PromptBack(sh: Shell, text: seq<byte>, st: Setup, above: seq<seq<byte>>)
    requires sh.Sane() && !sh.ended && st.x == 0 && Clean(sh) && sh.line == [] && Typable(text) && text != []
    requires |text| <= INPUT_SIZE && |sh.prompt| < COLUMNS
    requires !Answer(st, |sh.hist| + 1, text).NewPromptText?
    requires Shows(Session(sh, text + [NEWLINE], st).page, above + [[]])
    ensures Shows(Drawn(Session(sh, text + [NEWLINE], st), st).page, above + [sh.prompt])
  {
    hide Shows, Session, Drawn, Answer;
    var end := Session(sh, text + [NEWLINE], st);
    assert sh.line + text == text;
    CommandTakesEffect(sh, text, st);
    SessionSane(sh, text + [NEWLINE], st);
    assert end.prompt + end.line == sh.prompt;
    DrawnShows(end, st, above, []);
  }

  /** A line whose command is in no entry of the table prints the message and the command. */
  lemma UnknownPrints(sh: Shell, text: seq<byte>, st: Setup, shown: seq<seq<byte>>, last: seq<byte>)
    requires sh.Sane() && !sh.ended && sh.line == [] && st.x == 0 && Clean(sh)
    requires Typable(text) && text != [] && |sh.prompt| + |text| < COLUMNS
    requires forall c :: c in st.commands ==> c.name != CommandOf(text)
    requires Shows(sh.page, shown + [last]) && last <= sh.prompt
    ensures Shows(Session(sh, text + [NEWLINE], st).page,
                  shown + [sh.prompt + text] + [Ascii("Cannot find file or command:"), CommandOf(text)] + [[]])
  {
    hide Shows, Session, Found, CommandOf, ParamsOf, Ascii;
    NotFoundExactly(st, |sh.hist| + 1, CommandOf(text), ParamsOf(text));
    assert sh.line + text == text && sh.prompt + sh.line == sh.prompt;
    CommandShort(text);
    EnteredShows(sh, text, st, shown, last);
  }

  lemma CommandShort(line: seq<byte>)
    ensures |CommandOf(line)| <= |line| && |Ascii(NOT_FOUND)| == 28
  {
  }

  /** What the rows above the current one hold. */
  function RowsAbove(pg: Page): seq<seq<byte>>
    requires pg.Valid()
  {
    seq(if pg.row < 0 then 0 else pg.row, r requires 0 <= r < pg.row => Row(pg.fb, r)[..COLUMNS - 1])
  }

  /** Any page that is blank from the current row on, and in the last column above it, will do to start from. */
  lemma AnyPageShows(pg: Page)
    requires pg.Valid() && 0 <= pg.row
    requires forall r :: pg.row <= r < ROWS ==> Reads(Row(pg.fb, r), [])
    requires forall r :: 0 <= r < pg.row ==> Reads(Row(pg.fb, r), Row(pg.fb, r)[..COLUMNS - 1])
    ensures Shows(pg, RowsAbove(pg) + [[]])
  {
    var all := RowsAbove(pg) + [[]];
    forall r | 0 <= r < ROWS
      ensures Reads(Row(pg.fb, r), Expected(all, pg.row, r))
    {
    }
  }
}
