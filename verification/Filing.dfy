/** What stands behind the terminal's pointers: its strings, its history list, and the lines entered so far. */
module Filing {
  import opened Bytes
  import opened Blocks
  import opened HeapState
  import opened HeapView
  import opened KernelHeap
  import opened Numerals
  import opened DynString
  import opened StringRuns
  import opened LinkedList
  import opened Desk
  import opened Pages
  import opened Screen
  import opened Seals
  import opened Sessions

  /** Positions of the strings: the line, the prompt, and three that live only while a line is parsed. */
  const LINE: nat := 0
  const PROMPT: nat := 1
  const COMMAND: nat := 2
  const PARAMS: nat := 3
  const BUFFER: nat := 4
  const HISTORY: nat := 5   // the history strings from here on

  /** Strings, list nodes, the lines entered so far, and everything else behind live pointers. */
  datatype Papers = Papers(strs: seq<word>, vals: seq<Value>, ns: seq<word>, hist: seq<seq<byte>>, rest: View) {
    /** The values in the history list: NULL in its one node until the first line is entered. */
    function Values(): seq<word>
      requires HISTORY <= |strs|
    {
      if hist == [] then [0] else strs[HISTORY..]
    }

    /** The text of string i, and the empty one where there is none. */
    function Text(i: nat): seq<byte> {
      if i < |vals| && vals[i].Str? then vals[i].text else []
    }

    function Line(): seq<byte> {
      Text(LINE)
    }

    function With(i: nat, s: Value): Papers
      requires i < |vals|
    {
      this.(vals := vals[i := s])
    }

    function WithLine(t: seq<byte>, n: nat): Papers
      requires LINE < |vals|
    {
      With(LINE, Str(t, n))
    }
  }

  /** The strings hold the lines, one each. */
  ghost predicate Records(vals: seq<Value>, hist: seq<seq<byte>>) {
    && |vals| == |hist|
    && forall i :: 0 <= i < |hist| ==> vals[i].Str? && vals[i].text == hist[i]
  }

  /** The block behind the string at p has room for a full line and its resize. */
  ghost predicate Roomy(v: View, p: nat) {
    Data(v, p) in v && INPUT_SIZE + 4 <= |v[Data(v, p)]|
  }

  lemma RoomyGrown(v: View, w: View, p: nat)
    requires Roomy(v, p) && p in v && 4 <= |v[p]| && Grown(v, w)
    ensures Roomy(w, p)
  {
  }

  /** The pointers of the terminal. */
  datatype Pointers = Pointers(input: nat, prompt: nat, promptLength: nat, history: nat)

  /** The papers as far as no memory is needed to see it. */
  ghost predicate Shaped(d: Papers, k: Pointers) {
    && |d.strs| == |d.vals| == HISTORY + |d.hist|
    && d.strs[LINE] == k.input && d.vals[LINE].Str?
    && d.strs[PROMPT] == k.prompt && d.vals[PROMPT].Str? && k.promptLength == |d.vals[PROMPT].text|
    && d.ns != [] && d.ns[0] == k.history
  }

  /** What the papers say is in memory: the line has room, the records are there, strings and list side by side. */
  ghost predicate Behind(v: View, d: Papers, k: Pointers)
    requires Shaped(d, k)
  {
    && Roomy(v, k.input)
    && Records(d.vals[HISTORY..], d.hist)
    && Desk.Desk(v, d.strs, d.vals, d.ns, d.Values(), d.rest)
  }

  /** Both, the second sealed: the methods need not see how memory holds the papers. */
  ghost predicate Filed(v: View, d: Papers, k: Pointers) {
    Shaped(d, k) && forall w {:trigger Look(w)} :: Look(w) && w == v ==> Behind(w, d, k)
  }

  lemma OpenDesk(v: View, d: Papers, k: Pointers)
    requires Filed(v, d, k)
    ensures Behind(v, d, k)
  {
    assert Look(v);
  }

  lemma RecordsOf(v: View, d: Papers, k: Pointers)
    requires Filed(v, d, k)
    ensures Records(d.vals[HISTORY..], d.hist)
  {
    OpenDesk(v, d, k);
  }

  lemma StringHeld(v: View, d: Papers, k: Pointers, i: nat)
    requires Filed(v, d, k) && i < |d.vals| && d.vals[i].Str?
    ensures d.strs[i] != 0 && Is(v, d.strs[i], d.vals[i].text, d.vals[i].size)
  {
    OpenDesk(v, d, k);
    assert Holds(v, d.strs[i], d.vals[i]);
  }

  lemma LineHeld(v: View, d: Papers, k: Pointers)
    requires Filed(v, d, k)
    ensures k.input != 0 && Is(v, k.input, d.Line(), d.vals[LINE].size) && Roomy(v, k.input)
  {
    StringHeld(v, d, k, LINE);
    OpenDesk(v, d, k);
  }

  /** String j is a usable argument for an operation on string i. */
  lemma ArgumentHeld(h: Heap, d: Papers, k: Pointers, i: nat, j: nat)
    requires h.Valid() && Filed(h.view, d, k) && i < |d.vals| && j < |d.vals| && i != j
    requires d.vals[i].Str? && d.vals[j].Str?
    ensures d.strs[i] != 0 && Is(h.view, d.strs[i], d.vals[i].text, d.vals[i].size)
    ensures d.strs[j] != 0 && Is(h.view, d.strs[j], d.vals[j].text, d.vals[j].size)
    ensures var data := Data(h.view, d.strs[j]);
      data != 0 && Argument(h.mem[..], h.view, data, d.vals[j].text, data, d.strs[i])
  {
    StringHeld(h.view, d, k, i);
    StringHeld(h.view, d, k, j);
    OpenDesk(h.view, d, k);
    OtherArgument(h, d.strs, d.vals, i, j);
  }

  /** Entry i of the history is string HISTORY + i. */
  lemma EntryHeld(v: View, d: Papers, k: Pointers, i: nat)
    requires Filed(v, d, k) && i < |d.hist|
    ensures var s := d.vals[HISTORY + i]; s.Str? && s.text == d.hist[i] && Is(v, d.strs[HISTORY + i], d.hist[i], s.size)
  {
    RecordsOf(v, d, k);
    assert d.vals[HISTORY..][i] == d.vals[HISTORY + i];
    StringHeld(v, d, k, HISTORY + i);
  }

  /** The line changed within its frame. */
  lemma LineStep(v: View, w: View, d: Papers, k: Pointers, t: seq<byte>, n: nat)
    requires Filed(v, d, k) && Frame(v, w, k.input) && Is(w, k.input, t, n) && Roomy(w, k.input)
    ensures Filed(w, d.WithLine(t, n), k)
  {
    StringHeld(v, d, k, LINE);
    OpenDesk(v, d, k);
    DeskStep(v, w, d.strs, d.vals, d.ns, d.Values(), d.rest, LINE, Str(t, n));
    assert d.WithLine(t, n).vals[HISTORY..] == d.vals[HISTORY..];
  }

  /** One more history string, holding the line, and the list with its address at the end. */
  lemma HistoryStep(v: View, d: Papers, k: Pointers, p: word, line: seq<byte>, n: nat, ms: seq<word>)
    requires Shaped(d, k) && Roomy(v, k.input) && ms != [] && ms[0] == k.history && Records(d.vals[HISTORY..], d.hist)
    requires var ys := if d.hist == [] then [p] else d.Values() + [p];
      Desk.Desk(v, d.strs + [p], d.vals + [Str(line, n)], ms, ys, d.rest)
    ensures Filed(v, Papers(d.strs + [p], d.vals + [Str(line, n)], ms, d.hist + [line], d.rest), k)
  {
    hide Desk.Desk, Roomy;
    assert (d.vals + [Str(line, n)])[HISTORY..] == d.vals[HISTORY..] + [Str(line, n)];
    assert (d.strs + [p])[HISTORY..] == d.strs[HISTORY..] + [p];
  }

  /** A fresh empty string beside the others; the line is a usable argument for operations on it. */
  lemma NewBeside(h: Heap, v: View, d: Papers, k: Pointers, p: word)
    requires h.Valid() && Filed(v, d, k) && Fresh(v, h.view, p, Str([], 1))
    ensures Sealed(h.view, d.strs + [p], d.vals + [Str([], 1)], d.ns, d.Values(), d.rest) && Roomy(h.view, k.input)
    ensures Is(h.view, k.input, d.Line(), d.vals[LINE].size)
    ensures var data := Data(h.view, k.input); data != 0 && Argument(h.mem[..], h.view, data, d.Line(), data, p)
  {
    var w, n, strs, vals := h.view, |d.strs|, d.strs + [p], d.vals + [Str([], 1)];
    OpenDesk(v, d, k);
    StringHeld(v, d, k, LINE);
    RestGrown(v, w, p);
    StringGrown(v, w, k.input, d.Line(), d.vals[LINE].size);
    DeskPlace(v, d.strs, d.vals, d.ns, d.Values(), d.rest);
    DeskFill(v, w, d.strs + [0], d.vals + [Gone], d.ns, d.Values(), d.rest, n, p, Str([], 1));
    assert (d.strs + [0])[n := p] == strs && (d.vals + [Gone])[n := Str([], 1)] == vals;
    OtherArgument(h, strs, vals, n, LINE);
  }

  /** The fresh string took the text of the line. */
  lemma LineCopied(v: View, w: View, d: Papers, k: Pointers, p: word)
    requires Shaped(d, k) && Roomy(v, k.input)
    requires Sealed(v, d.strs + [p], d.vals + [Str([], 1)], d.ns, d.Values(), d.rest)
    requires p != 0 && Frame(v, w, p) && Is(w, p, d.Line(), |d.Line()| + 1)
    ensures Sealed(w, d.strs + [p], d.vals + [Str(d.Line(), |d.Line()| + 1)], d.ns, d.Values(), d.rest)
    ensures Roomy(w, k.input)
  {
    var n, strs, vals, s := |d.strs|, d.strs + [p], d.vals + [Str([], 1)], Str(d.Line(), |d.Line()| + 1);
    Unseal(v, strs, vals, d.ns, d.Values(), d.rest);
    OtherKept(v, w, strs, vals, n, LINE);
    DeskStep(v, w, strs, vals, d.ns, d.Values(), d.rest, n, s);
    assert vals[n := s] == d.vals + [s];
  }

  /** The first list value is NULL exactly while no line has been entered. */
  lemma FirstValue(v: View, d: Papers, p: word)
    requires HISTORY <= |d.strs| == |d.vals| && d.vals[LINE].Str? && Records(d.vals[HISTORY..], d.hist)
    requires Sealed(v, d.strs + [p], d.vals + [Str(d.Line(), |d.Line()| + 1)], d.ns, d.Values(), d.rest) && d.ns != []
    ensures IsList(v, d.ns, d.Values()) && (d.Values()[0] == 0 <==> d.hist == [])
    ensures d.ns[0] != 0 && d.ns[0] in v && Node(v[d.ns[0]], d.Values()[0], NextOf(d.ns, 0), 0)
    ensures d.hist == [] ==> |d.ns| == 1
  {
    var strs, vals := d.strs + [p], d.vals + [Str(d.Line(), |d.Line()| + 1)];
    Unseal(v, strs, vals, d.ns, d.Values(), d.rest);
    ListNode(v, d.ns, d.Values(), 0);
    if d.hist != [] {
      assert d.vals[HISTORY..][0].Str?;
      assert Holds(v, strs[HISTORY], vals[HISTORY]);
    }
  }

  /** The list of history strings now ends in the new one. */
  lemma Recorded(v: View, w: View, d: Papers, k: Pointers, p: word, ms: seq<word>, ys: seq<word>)
    requires Shaped(d, k) && Roomy(v, k.input) && Records(d.vals[HISTORY..], d.hist)
    requires Sealed(v, d.strs + [p], d.vals + [Str(d.Line(), |d.Line()| + 1)], d.ns, d.Values(), d.rest)
    requires IsList(w, ms, ys) && Others(w, ms) == Others(v, d.ns) && ms != [] && ms[0] == k.history
    requires ys == if d.hist == [] then [p] else d.Values() + [p]
    ensures Filed(w, Papers(d.strs + [p], d.vals + [Str(d.Line(), |d.Line()| + 1)], ms, d.hist + [d.Line()], d.rest), k)
  {
    var n, strs, vals := |d.Line()| + 1, d.strs + [p], d.vals + [Str(d.Line(), |d.Line()| + 1)];
    Unseal(v, strs, vals, d.ns, d.Values(), d.rest);
    DeskList(v, w, strs, vals, d.ns, d.Values(), d.rest, ms, ys);
    assert Holds(v, strs[LINE], vals[LINE]) && OffList(v, strs, vals, d.ns, LINE);
    StringOffList(v, w, d.ns, ms, k.input, d.Line(), d.vals[LINE].size);
    HistoryStep(w, d, k, p, d.Line(), n, ms);
  }

  /** One of the strings for parsing changed within its frame. */
  lemma ScratchStep(v: View, w: View, d: Papers, k: Pointers, i: nat, t: seq<byte>, n: nat)
    requires Filed(v, d, k) && COMMAND <= i <= BUFFER && d.vals[i].Str?
    requires Frame(v, w, d.strs[i]) && Is(w, d.strs[i], t, n)
    ensures Filed(w, d.With(i, Str(t, n)), k)
  {
    StringHeld(v, d, k, i);
    OpenDesk(v, d, k);
    OtherKept(v, w, d.strs, d.vals, i, LINE);
    DeskStep(v, w, d.strs, d.vals, d.ns, d.Values(), d.rest, i, Str(t, n));
    assert d.With(i, Str(t, n)).vals[HISTORY..] == d.vals[HISTORY..];
  }

  /** d is d0 with the text t in string i. */
  ghost predicate Scratch(d0: Papers, d: Papers, i: nat, t: seq<byte>) {
    && i < |d0.vals| == |d.vals| && d.vals[i].Str? && d.vals[i].text == t
    && d == d0.With(i, d.vals[i])
  }

  lemma ScratchAgain(d0: Papers, d1: Papers, d2: Papers, i: nat, t: seq<byte>, u: seq<byte>)
    requires Scratch(d0, d1, i, t) && Scratch(d1, d2, i, u)
    ensures Scratch(d0, d2, i, u)
  {
  }

  /** Everything of rest is as it was, and beside it there are n strings more, of two blocks each. */
  ghost predicate Left(rest: View, rest': View, n: nat) {
    Grown(rest, rest') && |rest'| == |rest| + 2 * n
  }

  lemma LeftNothing(rest: View, rest': View)
    ensures Left(rest, rest', 0) <==> rest' == rest
  {
    if Left(rest, rest', 0) {
      SameSize(rest.Keys, rest'.Keys);
    }
  }

  lemma {:induction false} SameSize(x: set<nat>, y: set<nat>)
    requires x <= y && |x| == |y|
    ensures x == y
  {
    if q :| q in y && q !in x {
      assert x <= y - {q};
      Fewer(x, y - {q});
    }
  }

  lemma {:induction false} Fewer(x: set<nat>, y: set<nat>)
    requires x <= y
    ensures |x| <= |y|
  {
    if q :| q in x {
      Fewer(x - {q}, y - {q});
    }
  }

  lemma LeftTrans(r0: View, r1: View, r2: View, n: nat, k: nat)
    requires Left(r0, r1, n) && Left(r1, r2, k)
    ensures Left(r0, r2, n + k)
  {
  }

  lemma StringMore(rest: View, w: View, p: nat)
    requires p !in rest && Data(w, p) !in rest && p != Data(w, p) && p in w && Data(w, p) in w
    ensures Left(rest, WithString(rest, w, p), 1)
  {
    FewerKeys(rest[p := w[p]], rest, p);
    FewerKeys(WithString(rest, w, p), rest[p := w[p]], Data(w, p));
  }

  /** A fresh string stays allocated, and no pointer of the terminal leads to it. */
  lemma StringLeft(v: View, w: View, d: Papers, k: Pointers, p: nat, s: Value)
    requires Filed(v, d, k) && Fresh(v, w, p, s)
    ensures Filed(w, d.(rest := WithString(d.rest, w, p)), k) && Left(d.rest, WithString(d.rest, w, p), 1)
  {
    hide Desk.Desk, Rest, Roomy, Grown, Left, WithString;
    LineHeld(v, d, k);
    OpenDesk(v, d, k);
    RestGrown(v, w, p);
    RoomyGrown(v, w, k.input);
    DeskKeep(v, w, d.strs, d.vals, d.ns, d.Values(), d.rest, p, s);
    StringMore(d.rest, w, p);
  }

  /** A command leaves everything of d but the line's text and the prompt as it was, and n strings behind. */
  ghost predicate Aside(d: Papers, d': Papers, n: nat) {
    && HISTORY <= |d.vals| == |d'.vals| && HISTORY <= |d.strs| == |d'.strs|
    && d'.hist == d.hist && Left(d.rest, d'.rest, n)
    && d'.strs[COMMAND] == d.strs[COMMAND] && d'.strs[PARAMS] == d.strs[PARAMS]
    && d.vals[LINE].Str? && d'.vals[LINE].Str? && d'.vals[LINE].size == d.vals[LINE].size
    && d'.vals[PROMPT].Str? && d'.vals[COMMAND] == d.vals[COMMAND] && d'.vals[PARAMS] == d.vals[PARAMS]
    && d'.vals[BUFFER] == d.vals[BUFFER]
  }

  /** The run of the line from start to stop: up to the end, or up to the first space when that ends it. */
  ghost predicate RunOf(line: seq<byte>, start: nat, stop: nat, atSpace: bool) {
    && start <= stop <= |line|
    && (stop < |line| ==> atSpace && line[stop] == SPACE)
    && (atSpace ==> forall i :: start <= i < stop ==> line[i] != SPACE)
  }

  /** The prompt changed within its frame. */
  lemma PromptStep(v: View, w: View, d: Papers, k: Pointers, t: seq<byte>, n: nat)
    requires Filed(v, d, k) && Frame(v, w, k.prompt) && Is(w, k.prompt, t, n)
    ensures Filed(w, d.With(PROMPT, Str(t, n)), k.(promptLength := |t|))
  {
    StringHeld(v, d, k, PROMPT);
    OpenDesk(v, d, k);
    OtherKept(v, w, d.strs, d.vals, PROMPT, LINE);
    DeskStep(v, w, d.strs, d.vals, d.ns, d.Values(), d.rest, PROMPT, Str(t, n));
    assert d.With(PROMPT, Str(t, n)).vals[HISTORY..] == d.vals[HISTORY..];
  }

  /** What the two copying loops leave: the second runs only behind a space, and then to the end of the line. */
  lemma BothParts(d0: Papers, d1: Papers, d2: Papers, s: nat)
    requires PARAMS < |d0.vals| && d0.vals[LINE].Str? && d0.vals[PARAMS] == Str([], 1)
    requires RunOf(d0.Line(), 0, s, true) && Scratch(d0, d1, COMMAND, d0.Line()[0..s])
    requires if s < |d0.Line()| then Scratch(d1, d2, PARAMS, d0.Line()[s + 1..]) else d2 == d1
    ensures d2.vals[COMMAND].Str? && d2.vals[COMMAND].text == CommandOf(d0.Line())
    ensures d2.vals[PARAMS].Str? && d2.vals[PARAMS].text == ParamsOf(d0.Line())
    ensures d2 == d0.With(COMMAND, d2.vals[COMMAND]).With(PARAMS, d2.vals[PARAMS])
  {
    FirstSpaceIs(d0.Line(), s);
    assert d1.vals[PARAMS := d1.vals[PARAMS]] == d1.vals;
  }

  lemma ScratchFill(v: View, w: View, d: Papers, k: Pointers, i: nat, p: word, s: Value)
    requires Filed(v, d, k) && COMMAND <= i <= BUFFER && d.vals[i].Gone? && Fresh(v, w, p, s)
    ensures Filed(w, d.(strs := d.strs[i := p], vals := d.vals[i := s]), k)
  {
    var d' := d.(strs := d.strs[i := p], vals := d.vals[i := s]);
    StringHeld(v, d, k, LINE);
    OpenDesk(v, d, k);
    RestGrown(v, w, p);
    StringGrown(v, w, k.input, d.Line(), d.vals[LINE].size);
    DeskFill(v, w, d.strs, d.vals, d.ns, d.Values(), d.rest, i, p, s);
    assert d'.vals[HISTORY..] == d.vals[HISTORY..] && d'.strs[HISTORY..] == d.strs[HISTORY..];
  }

  lemma ScratchDrop(v: View, d: Papers, k: Pointers, i: nat)
    requires Filed(v, d, k) && COMMAND <= i <= BUFFER && d.vals[i].Str?
    ensures Filed(Rest(v, d.strs[i]), d.(strs := d.strs[i := 0], vals := d.vals[i := Gone]), k)
  {
    var d' := d.(strs := d.strs[i := 0], vals := d.vals[i := Gone]);
    StringHeld(v, d, k, LINE);
    StringHeld(v, d, k, i);
    OpenDesk(v, d, k);
    assert Unshared(v, d.strs, d.vals, i, LINE);
    DeskDrop(v, d.strs, d.vals, d.ns, d.Values(), d.rest, i);
    assert d'.vals[HISTORY..] == d.vals[HISTORY..] && d'.strs[HISTORY..] == d.strs[HISTORY..];
  }

  lemma LiteralKept(m: seq<byte>, m': seq<byte>, src: nat, x: seq<byte>)
    requires Literal(m, src, x) && SameLow(m, m')
    ensures Literal(m', src, x)
  {
    SliceSame(m, m', src, src + |x|);
  }

  lemma SameStart(d1: Papers, d2: Papers)
    requires HISTORY <= |d1.strs| && HISTORY <= |d2.strs| && HISTORY <= |d1.vals| && HISTORY <= |d2.vals|
    requires d2.strs[..HISTORY] == d1.strs[..HISTORY] && d2.vals[..HISTORY] == d1.vals[..HISTORY]
    ensures forall i :: 0 <= i < HISTORY ==> d2.strs[i] == d1.strs[i] && d2.vals[i] == d1.vals[i]
  {
    assert forall i :: 0 <= i < HISTORY ==> d2.strs[i] == d2.strs[..HISTORY][i] && d2.vals[i] == d2.vals[..HISTORY][i];
    assert forall i :: 0 <= i < HISTORY ==> d1.strs[i] == d1.strs[..HISTORY][i] && d1.vals[i] == d1.vals[..HISTORY][i];
  }

  lemma EmptyDesk(v: View, c: word)
    requires IsList(v, [c], [0])
    ensures Sealed(v, [0, 0, 0, 0, 0], [Gone, Gone, Gone, Gone, Gone], [c], [0], Others(v, [c]))
  {
    var strs: seq<word>, vals := [0, 0, 0, 0, 0], [Gone, Gone, Gone, Gone, Gone];
    forall i, j | 0 <= i < 5 && 0 <= j < 5
      ensures Unshared(v, strs, vals, i, j) && OffList(v, strs, vals, [c], i)
    {
    }
  }

  /** What the history list in memory spells: one string for every line entered, in order. */
  lemma HistoryInMemory(v: View, d: Papers, k: Pointers)
    requires Filed(v, d, k)
    ensures IsList(v, d.ns, d.Values())
    ensures d.hist != [] ==> |d.Values()| == |d.hist|
    ensures forall i :: 0 <= i < |d.hist| ==>
      d.vals[HISTORY + i].Str? && Is(v, d.Values()[i], d.hist[i], d.vals[HISTORY + i].size)
  {
    OpenDesk(v, d, k);
    forall i | 0 <= i < |d.hist|
      ensures d.vals[HISTORY + i].Str? && Is(v, d.Values()[i], d.hist[i], d.vals[HISTORY + i].size)
    {
      assert d.vals[HISTORY..][i] == d.vals[HISTORY + i];
      StringHeld(v, d, k, HISTORY + i);
    }
  }

  /** A NUL over the last character of a string drops it. */
  lemma Shortened(v: View, p: nat, t: seq<byte>, n: nat, w: View)
    requires Is(v, p, t, n) && t != [] && w == v[Data(v, p) := Put(v[Data(v, p)], |t| - 1, 0)]
    ensures Is(w, p, t[..|t| - 1], n) && Frame(v, w, p) && Data(w, p) == Data(v, p)
  {
    var b, k := v[Data(v, p)], |t| - 1;
    assert Put(b, k, 0)[..k] == b[..|t|][..k] == t[..k];
  }

  // ---------- what lies outside ----------

  /** At p stands the one node of a list whose value is NULL. */
  ghost predicate AliasAt(rest: View, p: nat) {
    p != 0 && p in rest && Node(rest[p], 0, 0, 0)
  }

  /** The list of aliases, which no command modelled here fills. */
  lemma AliasList(v: View, d: Papers, k: Pointers, p: word)
    requires Filed(v, d, k) && AliasAt(d.rest, p)
    ensures IsList(v, [p], [0])
  {
    OpenDesk(v, d, k);
    assert v[p] == d.rest[p];
    assert NodeAt(v, [p], [0], 0);
  }

  /** A literal of the program: where it is and what it says. */
  datatype Name = Name(addr: word, text: seq<byte>)

  /** The literals the terminal reads: ". " for history, and the names of the commands. */
  datatype Literals = Literals(dot: word, names: seq<Name>)

  ghost predicate NameAt(m: seq<byte>, name: Name, nb: nat) {
    Literal(m, name.addr, name.text) && ClearOf(name.addr, |name.text|, nb)
  }

  /** They lie in low memory, outside the number buffer, which lies there as well. */
  ghost predicate FixedText(m: seq<byte>, lit: Literals, nb: nat) {
    && 0 < nb && nb + MAX_INT_CHARS <= HEAP_START
    && NameAt(m, Name(lit.dot, DOT), nb)
    && forall i {:trigger lit.names[i]} :: 0 <= i < |lit.names| ==> NameAt(m, lit.names[i], nb)
  }

  lemma NameStays(m: seq<byte>, m': seq<byte>, name: Name, nb: nat)
    requires NameAt(m, name, nb) && LowKept(m, m', nb)
    ensures NameAt(m', name, nb)
  {
    LiteralStays(m, m', name.addr, name.text, nb, nb);
  }

  lemma FixedTextKept(m: seq<byte>, m': seq<byte>, lit: Literals, nb: nat)
    requires FixedText(m, lit, nb) && LowKept(m, m', nb)
    ensures FixedText(m', lit, nb)
  {
    NameStays(m, m', Name(lit.dot, DOT), nb);
    forall i | 0 <= i < |lit.names|
      ensures NameAt(m', lit.names[i], nb)
    {
      NameStays(m, m', lit.names[i], nb);
    }
  }

  lemma FixedTextSame(m: seq<byte>, m': seq<byte>, lit: Literals, nb: nat)
    requires FixedText(m, lit, nb) && SameLow(m, m')
    ensures FixedText(m', lit, nb)
  {
    LowIsKept(m, m', nb);
    FixedTextKept(m, m', lit, nb);
  }

  /** The names are those of the commands. */
  ghost predicate Tabled(names: seq<Name>, commands: seq<Command>) {
    |names| == |commands| && forall i :: 0 <= i < |names| ==> names[i].text == commands[i].name
  }

  // ---------- what a line can take from the largest free block ----------

  /** A string that is at most three bytes larger than its text and terminator: string_addchar leaves it so. */
  predicate Snug(s: Value) {
    s.Str? && s.size <= |s.text| + 3
  }

  /** Appending one character of a line, wherever it goes. */
  function CharCost(line: seq<byte>): nat {
    Takes(|line| + 3)
  }

  /** Appending k characters of a line. */
  function CharsCost(k: nat, line: seq<byte>): nat {
    k * CharCost(line)
  }

  /** Putting one history line together. */
  function EntryCost(line: seq<byte>): nat {
    Takes(MAX_INT_CHARS) + Takes(MAX_INT_CHARS + |DOT|) + Takes(MAX_INT_CHARS + |DOT| + |line|)
  }

  function EntriesCost(hist: seq<seq<byte>>): nat {
    if hist == [] then 0 else EntriesCost(hist[..|hist| - 1]) + EntryCost(hist[|hist| - 1])
  }

  /** disk and syslog make their strings this large. */
  const LEFT_SIZE: word := 80

  function ResponseCost(r: Response, hist: seq<seq<byte>>, params: seq<byte>): nat {
    match r
    case NewPromptText => if params == [] then 0 else Takes(|params| + 1)
    case History => StringCost(INPUT_SIZE + 1) + EntriesCost(hist)
    case Lines(msgs, left) => left * StringCost(LEFT_SIZE + 1)
    case _ => 0
  }

  /** Taking a line apart: three strings, the copy and its node, and the characters of command and parameters. */
  function TakeCost(line: seq<byte>): nat {
    StringCost(1) + StringCost(1) + RecordCost(line) + CharsCost(|line|, line)
  }

  function RecordCost(line: seq<byte>): nat {
    StringCost(1) + Takes(|line| + 1) + Takes(NODE_SIZE)
  }

  /** All that parse_input can take for a line, the last one of the history. */
  function LineCost(st: Setup, hist: seq<seq<byte>>): nat
    requires hist != []
  {
    var line := hist[|hist| - 1];
    TakeCost(line) + ResponseCost(Answer(st, |hist|, line), hist, ParamsOf(line))
  }

  /** All that the lines of the history from a number on can take. */
  function CostIn(st: Setup, hist: seq<seq<byte>>, from: nat): nat {
    if |hist| <= from then 0 else CostIn(st, hist[..|hist| - 1], from) + LineCost(st, hist)
  }

  lemma CostOneMore(st: Setup, hist: seq<seq<byte>>, line: seq<byte>, from: nat)
    requires from <= |hist|
    ensures CostIn(st, hist + [line], from) == CostIn(st, hist, from) + LineCost(st, hist + [line])
  {
    assert (hist + [line])[..|hist|] == hist;
  }

  lemma {:induction false} CostGrows(st: Setup, hist: seq<seq<byte>>, more: seq<seq<byte>>, from: nat)
    requires hist <= more
    ensures CostIn(st, hist, from) <= CostIn(st, more, from)
  {
    if |hist| < |more| && from < |more| {
      CostGrows(st, hist, more[..|more| - 1], from);
    } else if |hist| == |more| {
      assert hist == more;
    }
  }

  /** init_terminal: two lists, the line, and the prompt with its text. */
  function InitCost(text: seq<byte>): nat {
    Takes(NODE_SIZE) + Takes(NODE_SIZE) + StringCost(INPUT_SIZE + 1) + StringCost(1) + Takes(|text| + 1)
  }

  /**
   * In bytes: what entering a line of n characters can take, unless its command is cprompt or history or leaves strings
   * behind. For the longest line that is 72672, and starting the terminal takes no more than 460 and the prompt.
   */
  lemma CostInBytes(st: Setup, hist: seq<seq<byte>>, text: seq<byte>)
    requires hist != [] && |hist[|hist| - 1]| <= 256
    requires var r := Answer(st, |hist|, hist[|hist| - 1]); !r.NewPromptText? && !r.History? && LeftBy(r) == 0
    ensures var n := |hist[|hist| - 1]|; LineCost(st, hist) == n * n + 27 * n + 224 <= 72672
    ensures InitCost(text) == |text| + 460
  {
    hide Answer;
    var n := |hist[|hist| - 1]|;
    assert n * (n + 26) == n * n + 26 * n;
    Squares(n, 256);
  }

  lemma Squares(n: nat, k: nat)
    requires n <= k
    ensures n * n <= k * k
  {
    TimesSum(n, k - n, n);
    TimesSum(n, k - n, k);
  }

  lemma TimesMore(k: nat, n: nat, cost: nat)
    requires k < n
    ensures k * cost + cost == (k + 1) * cost <= n * cost
  {
    assert (k + 1) * cost + (n - (k + 1)) * cost == n * cost;
  }

  lemma TimesSum(x: nat, y: nat, cost: nat)
    ensures x * cost + y * cost == (x + y) * cost
  {
  }

  /** One more character behind k. */
  lemma CharSpends(bs: seq<Block>, mid: seq<Block>, after: seq<Block>, halted: bool, k: nat, line: seq<byte>)
    requires k < |line| && Spends(bs, mid, false, CharsCost(k, line)) && Spends(mid, after, halted, Takes(k + 4))
    ensures Spends(bs, after, halted, CharsCost(k + 1, line))
  {
    hide Room;
    TimesMore(k, |line|, CharCost(line));
  }

  lemma CharsSpend(bs: seq<Block>, after: seq<Block>, halted: bool, k: nat, line: seq<byte>)
    requires k <= |line| && Spends(bs, after, halted, CharsCost(k, line))
    ensures Spends(bs, after, halted, CharsCost(|line|, line))
  {
    hide Room;
    if k < |line| {
      TimesMore(k, |line|, CharCost(line));
    }
  }

  /** The command, and behind the space the parameters. */
  lemma PartsSpend(bs: seq<Block>, mid: seq<Block>, after: seq<Block>, halted: bool, s: nat, end: nat, line: seq<byte>)
    requires s < end <= |line| && Spends(bs, mid, false, CharsCost(s, line))
    requires Spends(mid, after, halted, CharsCost(end - (s + 1), line))
    ensures Spends(bs, after, halted, CharsCost(|line|, line))
  {
    hide Room, CharCost;
    TimesSum(s, end - (s + 1), CharCost(line));
    TimesMore(end - 1, |line|, CharCost(line));
  }

  lemma {:induction false} EntriesGrow(hist: seq<seq<byte>>, k: nat)
    requires k <= |hist|
    ensures EntriesCost(hist[..k]) <= EntriesCost(hist)
    decreases |hist|
  {
    if k < |hist| {
      EntriesGrow(hist[..|hist| - 1], k);
      assert hist[..|hist| - 1][..k] == hist[..k];
    } else {
      assert hist[..k] == hist;
    }
  }

  /** One more entry behind k. */
  lemma EntrySpends(bs: seq<Block>, mid: seq<Block>, after: seq<Block>, halted: bool, hist: seq<seq<byte>>, k: nat)
    requires k < |hist| && Spends(bs, mid, false, EntriesCost(hist[..k]))
    requires Spends(mid, after, halted, EntryCost(hist[k]))
    ensures Spends(bs, after, halted, if halted then EntriesCost(hist) else EntriesCost(hist[..k + 1]))
  {
    hide Room, EntryCost;
    assert hist[..k + 1][..k] == hist[..k];
    EntriesGrow(hist, k + 1);
  }

  // ---------- one key, and all keys ----------

  /**
   * What one key does to the terminal, the rest of the view and the row: without a line that is entered the machine
   * does not halt and no block moves; with one the line's cost bounds what is taken, and its command may leave strings.
   */
  ghost predicate Turned(sh: Shell, key: byte, st: Setup, halted: bool, next: Shell,
                         rest: View, rest': View, bs: seq<Block>, bs': seq<Block>)
    requires sh.page.Valid()
  {
    && (!halted ==> next == Turn(sh, key, st) && Left(rest, rest', LeftIn(st, next.hist, |sh.hist|)))
    && if key == NEWLINE && sh.line != [] then Spends(bs, bs', halted, LineCost(st, sh.hist + [sh.line]))
       else !halted && bs' == bs
  }

  /** From sh to now the first i of the keys have been typed. */
  ghost predicate Typing(sh: Shell, keys: seq<byte>, i: nat, st: Setup, now: Shell,
                         rest: View, rest': View, bs: seq<Block>, bs': seq<Block>)
    requires sh.page.Valid() && now.page.Valid() && i <= |keys|
  {
    && Session(now, keys[i..], st) == Session(sh, keys, st) && |sh.hist| <= |now.hist|
    && Left(rest, rest', LeftIn(st, now.hist, |sh.hist|))
    && Spends(bs, bs', false, CostIn(st, now.hist, |sh.hist|))
  }

  lemma TypingStarts(sh: Shell, keys: seq<byte>, st: Setup, rest: View, bs: seq<Block>)
    requires sh.page.Valid()
    ensures Typing(sh, keys, 0, st, sh, rest, rest, bs, bs)
  {
    LeftNothing(rest, rest);
    assert keys[0..] == keys;
  }

  lemma TypingStep(sh: Shell, keys: seq<byte>, i: nat, st: Setup, now: Shell, next: Shell,
                   rest: View, mid: View, rest': View, bs: seq<Block>, row: seq<Block>, bs': seq<Block>)
    requires sh.page.Valid() && now.page.Valid() && next.page.Valid() && i < |keys| && !now.ended
    requires Typing(sh, keys, i, st, now, rest, mid, bs, row)
    requires Turned(now, keys[i], st, false, next, mid, rest', row, bs')
    ensures Typing(sh, keys, i + 1, st, next, rest, rest', bs, bs')
  {
    hide Turn, Session, Left, LeftIn, CostIn, LineCost, Room;
    SessionStep(now, keys, i, st);
    TurnSpends(now, keys, i, st, |sh.hist|, bs, row, bs', false);
    TurnLeaves(now, keys[i], st, |sh.hist|, rest, mid, rest');
  }

  lemma TypingHalts(sh: Shell, keys: seq<byte>, i: nat, st: Setup, now: Shell, next: Shell,
                    rest: View, mid: View, rest': View, bs: seq<Block>, row: seq<Block>, bs': seq<Block>)
    requires sh.page.Valid() && now.page.Valid() && i < |keys| && !now.ended
    requires Typing(sh, keys, i, st, now, rest, mid, bs, row)
    requires Turned(now, keys[i], st, true, next, mid, rest', row, bs')
    ensures NEWLINE in keys && Spends(bs, bs', true, CostIn(st, Session(sh, keys, st).hist, |sh.hist|))
  {
    hide Turn, Session, Left, LeftIn, CostIn, LineCost, Room;
    TurnSpends(now, keys, i, st, |sh.hist|, bs, row, bs', true);
    assert keys[i] in keys;
  }

  lemma TypingEnds(sh: Shell, keys: seq<byte>, i: nat, st: Setup, now: Shell,
                   rest: View, rest': View, bs: seq<Block>, bs': seq<Block>)
    requires sh.page.Valid() && now.page.Valid() && i <= |keys| && (now.ended || i == |keys|)
    requires Typing(sh, keys, i, st, now, rest, rest', bs, bs')
    ensures now == Session(sh, keys, st) && Left(rest, rest', LeftIn(st, now.hist, |sh.hist|))
    ensures rest' == rest <==> forall j :: |sh.hist| <= j < |now.hist| ==> LeftBy(Answer(st, j + 1, now.hist[j])) == 0
    ensures Spends(bs, bs', false, CostIn(st, now.hist, |sh.hist|))
  {
    EndedStays(now, keys[i..], st);
    LeftNone(st, now.hist, |sh.hist|);
    LeftNothing(rest, rest');
  }

  /** One turn of a session whose lines have taken no more than their cost so far. */
  lemma TurnSpends(sh: Shell, keys: seq<byte>, i: nat, st: Setup, n: nat,
                   bs: seq<Block>, mid: seq<Block>, after: seq<Block>, halted: bool)
    requires sh.page.Valid() && i < |keys| && !sh.ended && n <= |sh.hist|
    requires Spends(bs, mid, false, CostIn(st, sh.hist, n))
    requires if keys[i] == NEWLINE && sh.line != [] then Spends(mid, after, halted, LineCost(st, sh.hist + [sh.line]))
      else !halted && after == mid
    ensures Spends(bs, after, halted,
                   CostIn(st, if halted then Session(sh, keys[i..], st).hist else Turn(sh, keys[i], st).hist, n))
  {
    hide Room, LineCost;
    var next := Turn(sh, keys[i], st);
    TurnEdits(sh, keys[i], st);
    SessionStep(sh, keys, i, st);
    HistoryStays(next, keys[i + 1..], st);
    CostGrows(st, next.hist, Session(sh, keys[i..], st).hist, n);
    if keys[i] == NEWLINE && sh.line != [] {
      CostOneMore(st, sh.hist, sh.line, n);
    } else {
      assert next.hist == sh.hist;
    }
  }

  /** One turn of a session adds what its line leaves to what the lines before it left. */
  lemma TurnLeaves(sh: Shell, key: byte, st: Setup, n: nat, rest: View, mid: View, after: View)
    requires sh.page.Valid() && n <= |sh.hist| && Left(rest, mid, LeftIn(st, sh.hist, n))
    requires Left(mid, after, LeftIn(st, Turn(sh, key, st).hist, |sh.hist|))
    ensures Left(rest, after, LeftIn(st, Turn(sh, key, st).hist, n)) && n <= |Turn(sh, key, st).hist|
  {
    TurnEdits(sh, key, st);
    if key == NEWLINE && sh.line != [] {
      LeftOneMore(st, sh.hist, sh.line, n);
      LeftOneMore(st, sh.hist, sh.line, |sh.hist|);
    } else {
      assert Turn(sh, key, st).hist == sh.hist;
    }
    LeftTrans(rest, mid, after, LeftIn(st, sh.hist, n), LeftIn(st, Turn(sh, key, st).hist, |sh.hist|));
  }

  // ---------- counting ----------

  lemma {:induction false} AllLive(vals: seq<Value>)
    requires forall i :: 0 <= i < |vals| ==> vals[i].Str?
    ensures Live(vals) == |vals|
  {
    if vals != [] {
      AllLive(vals[1..]);
    }
  }

  lemma LiveFive(vals: seq<Value>)
    requires HISTORY <= |vals| && vals[LINE].Str? && vals[PROMPT].Str?
    requires vals[COMMAND].Gone? && vals[PARAMS].Gone? && vals[BUFFER].Gone?
    ensures Live(vals) == 2 + Live(vals[HISTORY..])
  {
    LiveStep(vals, 0);
    LiveStep(vals, 1);
    LiveStep(vals, 2);
    LiveStep(vals, 3);
    LiveStep(vals, 4);
    assert vals[0..] == vals;
  }

  lemma LiveStep(vals: seq<Value>, k: nat)
    requires k < |vals|
    ensures Live(vals[k..]) == (if vals[k].Str? then 1 else 0) + Live(vals[k + 1..])
  {
    assert vals[k..][1..] == vals[k + 1..];
  }

  /** Two blocks each for line and prompt, and two blocks and a node for every line entered, but one node at least. */
  function OwnBlocks(lines: nat): nat {
    4 + 2 * lines + Max(1, lines)
  }

  /** While no line is parsed the live pointers are those of the terminal and the rest. */
  lemma HeapCount(v: View, d: Papers, k: Pointers)
    requires Filed(v, d, k) && d.vals[COMMAND].Gone? && d.vals[PARAMS].Gone? && d.vals[BUFFER].Gone?
    ensures |v| == |d.rest| + OwnBlocks(|d.hist|)
  {
    OpenDesk(v, d, k);
    DeskCounts(v, d.strs, d.vals, d.ns, d.Values(), d.rest, 0);
    assert d.vals[0..] == d.vals;
    LiveFive(d.vals);
    AllLive(d.vals[HISTORY..]);
  }

  /** There are far fewer entries than an int can count. */
  lemma FewEntries(h: Heap, d: Papers, k: Pointers)
    requires h.Valid() && Filed(h.view, d, k)
    ensures |d.hist| < INT_MAX
  {
    OpenDesk(h.view, d, k);
    ListNodes(h.view, d.ns, d.Values());
    ListCounts(h.view, d.ns);
    h.Opened();
    UsedBlocksAreLive(h.State());
    Accounting(h.bs, h.mem.Length);
  }
}
