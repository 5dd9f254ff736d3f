/** Any sequence of operations on any number of strings: the heap stays well-formed and every string holds its text. */
module StringRuns {
  import opened Bytes
  import opened Blocks
  import opened HeapState
  import opened HeapView
  import opened KernelHeap
  import opened Numerals
  import opened CStrings
  import opened DynString

  /** What a string is to its users: a text in a capacity, or nothing after string_free. */
  datatype Value = Gone | Str(text: seq<byte>, size: nat)

  /** Operations name strings by position; a literal is a C string in low memory. */
  datatype Op =
    | New(init: word)
    | SetLiteral(i: nat, src: word, x: seq<byte>)
    | AddLiteral(i: nat, src: word, x: seq<byte>)
    | SetFrom(i: nat, j: nat)
    | AddFrom(i: nat, j: nat)
    | AddNumber(i: nat, num: int, base: nat)
    | AppendChar(i: nat, c: byte)
    | ClearAll(i: nat)
    | ResizeTo(i: nat, k: word)
    | TrimTo(i: nat)
    | Drop(i: nat)

  /** The operation names existing strings, and a base where there is one. */
  predicate Known(op: Op, vals: seq<Value>) {
    match op
    case New(init) => init < MAX_REQUEST
    case SetFrom(i, j) => i < |vals| && j < |vals| && vals[j].Str?
    case AddFrom(i, j) => i < |vals| && j < |vals| && vals[j].Str?
    case AddNumber(i, num, base) => i < |vals| && ValidBase(base)
    case _ => op.i < |vals|
  }

  /** It also reads no string while changing it, fits the number buffer, and its literal is where it says. */
  ghost predicate Legal(op: Op, m: seq<byte>, vals: seq<Value>, nb: nat) {
    Known(op, vals) &&
      match op
      case SetLiteral(i, src, x) => Literal(m, src, x) && ClearOf(src, |x|, nb)
      case AddLiteral(i, src, x) => Literal(m, src, x) && ClearOf(src, |x|, nb)
      case SetFrom(i, j) => i != j
      case AddFrom(i, j) => i != j
      case AddNumber(i, num, base) => INT_MIN < num <= INT_MAX && |IntText(num, base)| < MAX_INT_CHARS
      case ResizeTo(i, k) => k < MAX_REQUEST
      case _ => true
  }

  ghost predicate Literal(m: seq<byte>, src: nat, x: seq<byte>) {
    0 < src && src + |x| < HEAP_START && CStrAt(m, src, x)
  }

  /** A text of n bytes at src lies outside the number buffer. */
  predicate ClearOf(src: nat, n: nat, nb: nat) {
    nb == 0 || src + n < nb || nb + MAX_INT_CHARS <= src
  }

  function SetValue(s: Value, x: seq<byte>): Value {
    if s.Gone? then s else Str(x, Max(s.size, |x| + 1))
  }

  function AddValue(s: Value, x: seq<byte>): Value {
    if s.Gone? then s else Str(s.text + x, Max(s.size, |s.text| + |x| + 1))
  }

  /** What the operation means, with no heap in sight. */
  function Apply(op: Op, vals: seq<Value>): seq<Value>
    requires Known(op, vals)
  {
    match op
    case New(init) => vals + [Str([], init + 1)]
    case SetLiteral(i, src, x) => vals[i := SetValue(vals[i], x)]
    case AddLiteral(i, src, x) => vals[i := AddValue(vals[i], x)]
    case SetFrom(i, j) => vals[i := SetValue(vals[i], vals[j].text)]
    case AddFrom(i, j) => vals[i := AddValue(vals[i], vals[j].text)]
    case AddNumber(i, num, base) => vals[i := AddValue(vals[i], IntText(num, base))]
    case AppendChar(i, c) =>
      vals[i := if vals[i].Gone? then Gone
                else Str(Typed(vals[i].text, c), CharCapacity(|vals[i].text|, vals[i].size))]
    case ClearAll(i) => vals[i := if vals[i].Gone? then Gone else Str([], vals[i].size)]
    case ResizeTo(i, k) => vals[i := if vals[i].Gone? then Gone else Str(Truncated(vals[i].text, k), k + 1)]
    case TrimTo(i) => vals[i := if vals[i].Gone? then Gone else Str(vals[i].text, |vals[i].text| + 2)]
    case Drop(i) => vals[i := Gone]
  }

  // ---------- the strings on the heap ----------

  /** The handle p represents value s: NULL for nothing. */
  ghost predicate Holds(v: View, p: nat, s: Value) {
    match s
    case Gone => p == 0
    case Str(t, n) => p != 0 && Is(v, p, t, n)
  }

  /** Strings i and j, when both live, share no block. */
  ghost predicate Unshared(v: View, strs: seq<word>, vals: seq<Value>, i: nat, j: nat)
    requires i < |strs| == |vals| && j < |strs|
  {
    i != j && vals[i].Str? && vals[j].Str? ==> Separate(v, strs[i], strs[j])
  }

  ghost predicate World(v: View, strs: seq<word>, vals: seq<Value>) {
    && |strs| == |vals|
    && (forall i :: 0 <= i < |strs| ==> Holds(v, strs[i], vals[i]))
    && (forall i, j {:trigger Unshared(v, strs, vals, i, j)} ::
          0 <= i < |strs| && 0 <= j < |strs| ==> Unshared(v, strs, vals, i, j))
  }

  /** String i changed within its frame to value s. */
  lemma WorldStep(v: View, w: View, strs: seq<word>, vals: seq<Value>, i: nat, s: Value)
    requires World(v, strs, vals) && i < |vals| && vals[i].Str? && s.Str?
    requires Frame(v, w, strs[i]) && Holds(w, strs[i], s)
    ensures World(w, strs, vals[i := s])
  {
    var after := vals[i := s];
    forall j | 0 <= j < |strs|
      ensures Holds(w, strs[j], after[j])
    {
      if j != i && vals[j].Str? {
        assert Unshared(v, strs, vals, i, j);
        FrameKeeps(v, w, strs[i], strs[j], vals[j].text, vals[j].size);
      }
    }
    forall j, k | 0 <= j < |strs| && 0 <= k < |strs|
      ensures Unshared(w, strs, after, j, k)
    {
      assert Unshared(v, strs, vals, j, k) && Unshared(v, strs, vals, i, j) && Unshared(v, strs, vals, i, k);
      if j != i && vals[j].Str? {
        FrameKeeps(v, w, strs[i], strs[j], vals[j].text, vals[j].size);
      }
      if k != i && vals[k].Str? {
        FrameKeeps(v, w, strs[i], strs[k], vals[k].text, vals[k].size);
      }
    }
  }

  lemma WorldNew(v: View, w: View, strs: seq<word>, vals: seq<Value>, p: word, s: Value)
    requires World(v, strs, vals) && s.Str? && Holds(w, p, s)
    requires p !in v && Data(w, p) !in v && Rest(w, p) == v
    ensures World(w, strs + [p], vals + [s])
  {
    forall j | 0 <= j < |strs| && vals[j].Str?
      ensures Is(w, strs[j], vals[j].text, vals[j].size) && Data(w, strs[j]) == Data(v, strs[j])
    {
      assert Holds(v, strs[j], vals[j]);
      assert strs[j] in Rest(w, p) && Data(v, strs[j]) in Rest(w, p);
    }
    forall j, k | 0 <= j < |strs| + 1 && 0 <= k < |strs| + 1
      ensures Unshared(w, strs + [p], vals + [s], j, k)
    {
      if j < |strs| && k < |strs| {
        assert Unshared(v, strs, vals, j, k);
      }
      if j < |strs| { assert Holds(v, strs[j], vals[j]); }
      if k < |strs| { assert Holds(v, strs[k], vals[k]); }
    }
  }

  lemma WorldDrop(v: View, strs: seq<word>, vals: seq<Value>, i: nat)
    requires World(v, strs, vals) && i < |vals| && vals[i].Str?
    ensures World(Rest(v, strs[i]), strs[i := 0], vals[i := Gone])
  {
    var w, strs2, vals2 := Rest(v, strs[i]), strs[i := 0], vals[i := Gone];
    forall j | 0 <= j < |strs|
      ensures j != i && vals[j].Str? ==>
        Is(w, strs[j], vals[j].text, vals[j].size) && Data(w, strs[j]) == Data(v, strs[j])
    {
      assert Holds(v, strs[j], vals[j]) && Unshared(v, strs, vals, i, j);
    }
    forall j, k | 0 <= j < |strs| && 0 <= k < |strs|
      ensures Unshared(w, strs2, vals2, j, k)
    {
      assert Unshared(v, strs, vals, j, k);
    }
  }

  // ---------- everything else ----------

  /** Everything of v is in w with the same bytes. */
  ghost predicate Grown(v: View, w: View) {
    forall p :: p in v ==> p in w && w[p] == v[p]
  }

  lemma RestGrown(v: View, w: View, p: nat)
    requires Rest(w, p) == v
    ensures Grown(v, w)
  {
    forall q | q in v
      ensures q in w && w[q] == v[q]
    {
      assert q in Rest(w, p) && Rest(w, p)[q] == w[q];
    }
  }

  /** A string stays what it is when the heap grows around it. */
  lemma StringGrown(v: View, w: View, p: nat, t: seq<byte>, n: nat)
    requires Is(v, p, t, n) && Grown(v, w)
    ensures Is(w, p, t, n) && Data(w, p) == Data(v, p) && w[Data(w, p)] == v[Data(v, p)]
  {
  }

  /** Block q belongs to one of the strings. */
  ghost predicate Taken(v: View, strs: seq<word>, vals: seq<Value>, q: nat)
    requires |strs| == |vals|
  {
    exists i :: 0 <= i < |strs| && vals[i].Str? && (q == strs[i] || q == Data(v, strs[i]))
  }

  /** What is behind the live pointers that are neither a string's nor in others. */
  ghost function Outside(v: View, strs: seq<word>, vals: seq<Value>, others: set<nat>): View
    requires |strs| == |vals|
  {
    map q | q in v && q !in others && !Taken(v, strs, vals, q) :: v[q]
  }

  /** A block that no string of v uses is used by no string of w either. */
  ghost predicate Freer(v: View, strs: seq<word>, vals: seq<Value>,
                        w: View, strs': seq<word>, vals': seq<Value>, q: nat)
    requires |strs| == |vals| && |strs'| == |vals'|
  {
    q in v && !Taken(v, strs, vals, q) ==> q in w && w[q] == v[q] && !Taken(w, strs', vals', q)
  }

  lemma OutsideSame(v: View, strs: seq<word>, vals: seq<Value>,
                    w: View, strs': seq<word>, vals': seq<Value>, others: set<nat>)
    requires |strs| == |vals| && |strs'| == |vals'|
    requires forall q :: Freer(v, strs, vals, w, strs', vals', q)
    requires forall q :: Freer(w, strs', vals', v, strs, vals, q)
    ensures Outside(w, strs', vals', others) == Outside(v, strs, vals, others)
  {
    var a, b := Outside(v, strs, vals, others), Outside(w, strs', vals', others);
    forall q | q in a
      ensures q in b && b[q] == a[q]
    {
      assert Freer(v, strs, vals, w, strs', vals', q);
    }
    forall q | q in b
      ensures q in a
    {
      assert Freer(w, strs', vals', v, strs, vals, q);
    }
  }

  /** The buffers of the strings other than i stay where they are. */
  lemma OtherBuffers(v: View, w: View, strs: seq<word>, vals: seq<Value>, i: nat)
    requires World(v, strs, vals) && i < |vals| && vals[i].Str? && Frame(v, w, strs[i])
    ensures forall j :: 0 <= j < |strs| && j != i && vals[j].Str? ==> Data(w, strs[j]) == Data(v, strs[j])
  {
    forall j | 0 <= j < |strs| && j != i && vals[j].Str?
      ensures Data(w, strs[j]) == Data(v, strs[j])
    {
      assert Unshared(v, strs, vals, i, j) && Holds(v, strs[j], vals[j]) && Holds(v, strs[i], vals[i]);
      FrameKeeps(v, w, strs[i], strs[j], vals[j].text, vals[j].size);
    }
  }

  lemma OutsideStep(v: View, w: View, strs: seq<word>, vals: seq<Value>, i: nat, s: Value, others: set<nat>)
    requires World(v, strs, vals) && i < |vals| && vals[i].Str? && s.Str? && Frame(v, w, strs[i])
    ensures Outside(w, strs, vals[i := s], others) == Outside(v, strs, vals, others)
  {
    var after := vals[i := s];
    OtherBuffers(v, w, strs, vals, i);
    forall q | q in v && !Taken(v, strs, vals, q)
      ensures Freer(v, strs, vals, w, strs, after, q)
    {
      assert q in Rest(v, strs[i]);
      assert q in Rest(w, strs[i]) && Rest(w, strs[i])[q] == w[q];
    }
    forall q | q in w && !Taken(w, strs, after, q)
      ensures Freer(w, strs, after, v, strs, vals, q)
    {
      assert after[i].Str?;
      assert q in Rest(w, strs[i]) && Rest(w, strs[i])[q] == w[q];
      assert q in Rest(v, strs[i]);
    }
    OutsideSame(v, strs, vals, w, strs, after, others);
  }

  /** A string with two fresh blocks leaves the strings there are with theirs. */
  lemma OldBuffers(v: View, w: View, strs: seq<word>, vals: seq<Value>)
    requires World(v, strs, vals) && Grown(v, w)
    ensures forall j :: 0 <= j < |strs| && vals[j].Str? ==>
      strs[j] in v && Data(v, strs[j]) in v && Data(w, strs[j]) == Data(v, strs[j])
  {
    forall j | 0 <= j < |strs| && vals[j].Str?
      ensures strs[j] in v && Data(v, strs[j]) in v && Data(w, strs[j]) == Data(v, strs[j])
    {
      assert Holds(v, strs[j], vals[j]);
    }
  }

  /** The string at place i is fresh. */
  lemma OutsideFill(v: View, w: View, strs: seq<word>, vals: seq<Value>, i: nat, p: word, s: Value, others: set<nat>)
    requires World(v, strs, vals) && i < |vals| && vals[i].Gone? && s.Str?
    requires p !in v && Data(w, p) !in v && Rest(w, p) == v
    ensures Outside(w, strs[i := p], vals[i := s], others) == Outside(v, strs, vals, others)
  {
    var strs', vals' := strs[i := p], vals[i := s];
    RestGrown(v, w, p);
    OldBuffers(v, w, strs, vals);
    forall q | q in v && !Taken(v, strs, vals, q)
      ensures Freer(v, strs, vals, w, strs', vals', q)
    {
    }
    forall q | q in w && !Taken(w, strs', vals', q)
      ensures Freer(w, strs', vals', v, strs, vals, q)
    {
      assert vals'[i].Str? && strs'[i] == p;
      assert q in Rest(w, p) && Rest(w, p)[q] == w[q];
      assert forall j :: 0 <= j < |strs| && vals[j].Str? ==> vals'[j].Str? && strs'[j] == strs[j];
    }
    OutsideSame(v, strs, vals, w, strs', vals', others);
  }

  lemma OutsidePlace(v: View, strs: seq<word>, vals: seq<Value>, others: set<nat>)
    requires |strs| == |vals|
    ensures Outside(v, strs + [0], vals + [Gone], others) == Outside(v, strs, vals, others)
  {
    var strs', vals' := strs + [0], vals + [Gone];
    forall q
      ensures Taken(v, strs, vals, q) <==> Taken(v, strs', vals', q)
    {
      if Taken(v, strs, vals, q) {
        var i :| 0 <= i < |strs| && vals[i].Str? && (q == strs[i] || q == Data(v, strs[i]));
        assert vals'[i].Str? && strs'[i] == strs[i];
      }
    }
  }

  /** The string at place i is freed. */
  lemma OutsideDrop(v: View, strs: seq<word>, vals: seq<Value>, i: nat, others: set<nat>)
    requires World(v, strs, vals) && i < |vals| && vals[i].Str?
    ensures Outside(Rest(v, strs[i]), strs[i := 0], vals[i := Gone], others) == Outside(v, strs, vals, others)
  {
    var w, strs', vals' := Rest(v, strs[i]), strs[i := 0], vals[i := Gone];
    forall j | 0 <= j < |strs| && j != i && vals[j].Str?
      ensures Data(w, strs[j]) == Data(v, strs[j]) && vals'[j].Str? && strs'[j] == strs[j]
    {
      assert Holds(v, strs[j], vals[j]) && Unshared(v, strs, vals, i, j);
    }
    forall q | q in v && !Taken(v, strs, vals, q)
      ensures Freer(v, strs, vals, w, strs', vals', q)
    {
    }
    forall q | q in w && !Taken(w, strs', vals', q)
      ensures Freer(w, strs', vals', v, strs, vals, q)
    {
    }
    OutsideSame(v, strs, vals, w, strs', vals', others);
  }

  // ---------- the number buffer ----------

  /** The number buffer: none yet, a chunk of low memory, or a live block that no string uses. */
  ghost predicate Spare(v: View, nb: nat, strs: seq<word>, vals: seq<Value>)
    requires |strs| == |vals|
  {
    HEAP_START < nb + MAX_INT_CHARS ==>
      && nb in v && MAX_INT_CHARS <= |v[nb]|
      && forall i :: 0 <= i < |strs| && vals[i].Str? ==> nb != strs[i] && nb != Data(v, strs[i])
  }

  lemma SpareStep(v: View, w: View, strs: seq<word>, vals: seq<Value>, i: nat, s: Value, nb: nat)
    requires World(v, strs, vals) && Spare(v, nb, strs, vals) && i < |vals| && vals[i].Str? && s.Str?
    requires Frame(v, w, strs[i])
    ensures Spare(w, nb, strs, vals[i := s])
  {
    if HEAP_START < nb + MAX_INT_CHARS {
      assert nb in Rest(v, strs[i]);
      assert nb in Rest(w, strs[i]) && Rest(w, strs[i])[nb] == w[nb];
      forall j | 0 <= j < |strs| && j != i && vals[j].Str?
        ensures Data(w, strs[j]) == Data(v, strs[j])
      {
        assert Unshared(v, strs, vals, i, j) && Holds(v, strs[j], vals[j]) && Holds(v, strs[i], vals[i]);
        FrameKeeps(v, w, strs[i], strs[j], vals[j].text, vals[j].size);
      }
    }
  }

  lemma SpareNew(v: View, w: View, strs: seq<word>, vals: seq<Value>, p: word, s: Value, nb: nat)
    requires World(v, strs, vals) && Spare(v, nb, strs, vals)
    requires p !in v && Data(w, p) !in v && Rest(w, p) == v
    ensures Spare(w, nb, strs + [p], vals + [s])
  {
    RestGrown(v, w, p);
    forall j | 0 <= j < |strs| && vals[j].Str?
      ensures Data(w, strs[j]) == Data(v, strs[j])
    {
      assert Holds(v, strs[j], vals[j]);
    }
  }

  lemma SpareDrop(v: View, strs: seq<word>, vals: seq<Value>, i: nat, nb: nat)
    requires World(v, strs, vals) && Spare(v, nb, strs, vals) && i < |vals| && vals[i].Str?
    ensures Spare(Rest(v, strs[i]), nb, strs[i := 0], vals[i := Gone])
  {
    forall j | 0 <= j < |strs| && j != i && vals[j].Str?
      ensures Data(Rest(v, strs[i]), strs[j]) == Data(v, strs[j])
    {
      assert Holds(v, strs[j], vals[j]) && Unshared(v, strs, vals, i, j);
    }
  }

  /** Strings do not depend on a block that none of them uses. */
  ghost predicate Unused(v: View, nb: nat, strs: seq<word>, vals: seq<Value>)
    requires |strs| == |vals|
  {
    forall i :: 0 <= i < |strs| && vals[i].Str? ==> nb != strs[i] && nb != Data(v, strs[i])
  }

  lemma WorldWithout(v: View, strs: seq<word>, vals: seq<Value>, nb: nat)
    requires World(v, strs, vals) && Unused(v, nb, strs, vals)
    ensures World(v - {nb}, strs, vals) && Buffers(v - {nb}, strs, vals) == Buffers(v, strs, vals)
  {
    var w := v - {nb};
    forall i | 0 <= i < |strs|
      ensures Holds(w, strs[i], vals[i]) && (vals[i].Str? ==> Data(w, strs[i]) == Data(v, strs[i]))
    {
      assert Holds(v, strs[i], vals[i]);
    }
    forall i, j | 0 <= i < |strs| && 0 <= j < |strs|
      ensures Unshared(w, strs, vals, i, j)
    {
      assert Unshared(v, strs, vals, i, j);
    }
  }

  lemma WorldWith(v: View, strs: seq<word>, vals: seq<Value>, nb: nat)
    requires World(v - {nb}, strs, vals)
    ensures World(v, strs, vals) && Unused(v, nb, strs, vals)
  {
    var w := v - {nb};
    forall i | 0 <= i < |strs|
      ensures Holds(v, strs[i], vals[i])
      ensures vals[i].Str? ==> Data(v, strs[i]) == Data(w, strs[i]) && nb != strs[i] && nb != Data(v, strs[i])
    {
      assert Holds(w, strs[i], vals[i]);
      if vals[i].Str? {
        StringGrown(w, v, strs[i], vals[i].text, vals[i].size);
      }
    }
    forall i, j | 0 <= i < |strs| && 0 <= j < |strs|
      ensures Unshared(v, strs, vals, i, j)
    {
      assert Unshared(w, strs, vals, i, j);
    }
  }

  /** String i changed within its frame, and the number buffer with it. */
  lemma NumberStep(v: View, w: View, strs: seq<word>, vals: seq<Value>, i: nat, s: Value, nb: nat)
    requires World(v, strs, vals) && i < |vals| && vals[i].Str? && s.Str? && Unused(v, nb, strs, vals)
    requires Frame(v - {nb}, w - {nb}, strs[i])
    requires strs[i] != 0 && Is(w, strs[i], s.text, s.size) && nb != Data(w, strs[i])
    ensures World(w, strs, vals[i := s]) && Unused(w, nb, strs, vals[i := s])
    ensures Buffers(w, strs, vals[i := s]) == Buffers(v, strs, vals)[i := Data(w, strs[i])]
  {
    WorldWithout(v, strs, vals, nb);
    assert Is(w - {nb}, strs[i], s.text, s.size);
    WorldStep(v - {nb}, w - {nb}, strs, vals, i, s);
    OtherBuffers(v - {nb}, w - {nb}, strs, vals, i);
    WorldWith(w, strs, vals[i := s], nb);
    WorldWithout(w, strs, vals[i := s], nb);
  }

  // ---------- strings, number buffer and everything else ----------

  /** The strings hold vals, nb is the number buffer, and rest is what else is behind live pointers. */
  ghost predicate Shelf(v: View, strs: seq<word>, vals: seq<Value>, nb: nat, rest: View) {
    && |strs| == |vals|
    && World(v, strs, vals) && Spare(v, nb, strs, vals) && Outside(v, strs, vals, {nb}) == rest
  }

  lemma ShelfStep(v: View, w: View, strs: seq<word>, vals: seq<Value>, i: nat, s: Value, nb: nat, rest: View)
    requires Shelf(v, strs, vals, nb, rest) && i < |vals| && vals[i].Str? && s.Str?
    requires Frame(v, w, strs[i]) && Holds(w, strs[i], s)
    ensures Shelf(w, strs, vals[i := s], nb, rest)
    ensures Buffers(w, strs, vals[i := s]) == Buffers(v, strs, vals)[i := Data(w, strs[i])]
  {
    WorldStep(v, w, strs, vals, i, s);
    SpareStep(v, w, strs, vals, i, s, nb);
    OutsideStep(v, w, strs, vals, i, s, {nb});
    OtherBuffers(v, w, strs, vals, i);
  }

  lemma ShelfNew(v: View, w: View, strs: seq<word>, vals: seq<Value>, p: word, s: Value, nb: nat, rest: View)
    requires Shelf(v, strs, vals, nb, rest) && s.Str? && Holds(w, p, s)
    requires p !in v && Data(w, p) !in v && Rest(w, p) == v
    ensures Shelf(w, strs + [p], vals + [s], nb, rest)
    ensures Buffers(w, strs + [p], vals + [s]) == Buffers(v, strs, vals) + [Data(w, p)]
  {
    RestGrown(v, w, p);
    OldBuffers(v, w, strs, vals);
    WorldNew(v, w, strs, vals, p, s);
    SpareNew(v, w, strs, vals, p, s, nb);
    WorldPlace(v, strs, vals);
    OutsidePlace(v, strs, vals, {nb});
    OutsideFill(v, w, strs + [0], vals + [Gone], |strs|, p, s, {nb});
    assert (strs + [0])[|strs| := p] == strs + [p] && (vals + [Gone])[|strs| := s] == vals + [s];
  }

  /** A place for one more string. */
  lemma WorldPlace(v: View, strs: seq<word>, vals: seq<Value>)
    requires World(v, strs, vals)
    ensures World(v, strs + [0], vals + [Gone])
  {
    forall j | 0 <= j < |strs| + 1
      ensures Holds(v, (strs + [0])[j], (vals + [Gone])[j])
    {
      if j < |strs| { assert Holds(v, strs[j], vals[j]); }
    }
    forall j, k | 0 <= j < |strs| + 1 && 0 <= k < |strs| + 1
      ensures Unshared(v, strs + [0], vals + [Gone], j, k)
    {
      if j < |strs| && k < |strs| { assert Unshared(v, strs, vals, j, k); }
    }
  }

  lemma BuffersDrop(v: View, strs: seq<word>, vals: seq<Value>, i: nat)
    requires World(v, strs, vals) && i < |vals| && vals[i].Str?
    ensures Buffers(Rest(v, strs[i]), strs[i := 0], vals[i := Gone]) == Buffers(v, strs, vals)[i := 0]
  {
    forall j | 0 <= j < |strs| && j != i && vals[j].Str?
      ensures Data(Rest(v, strs[i]), strs[j]) == Data(v, strs[j])
    {
      assert Holds(v, strs[j], vals[j]) && Unshared(v, strs, vals, i, j);
    }
  }

  lemma ShelfDrop(v: View, strs: seq<word>, vals: seq<Value>, i: nat, nb: nat, rest: View)
    requires Shelf(v, strs, vals, nb, rest) && i < |vals| && vals[i].Str?
    ensures Shelf(Rest(v, strs[i]), strs[i := 0], vals[i := Gone], nb, rest)
    ensures Buffers(Rest(v, strs[i]), strs[i := 0], vals[i := Gone]) == Buffers(v, strs, vals)[i := 0]
  {
    BuffersDrop(v, strs, vals, i);
    WorldDrop(v, strs, vals, i);
    SpareDrop(v, strs, vals, i, nb);
    OutsideDrop(v, strs, vals, i, {nb});
  }

  lemma OutsideWithout(v: View, strs: seq<word>, vals: seq<Value>, nb: nat)
    requires World(v, strs, vals) && Unused(v, nb, strs, vals)
    ensures Outside(v - {nb}, strs, vals, {nb}) == Outside(v, strs, vals, {nb})
  {
    var w := v - {nb};
    forall i | 0 <= i < |strs| && vals[i].Str?
      ensures Data(w, strs[i]) == Data(v, strs[i])
    {
      assert Holds(v, strs[i], vals[i]);
    }
    assert forall q :: Taken(w, strs, vals, q) <==> Taken(v, strs, vals, q);
  }

  lemma OutsideNumber(v: View, w: View, strs: seq<word>, vals: seq<Value>, i: nat, s: Value, nb: nat)
    requires World(v, strs, vals) && i < |vals| && vals[i].Str? && s.Str? && Unused(v, nb, strs, vals)
    requires Frame(v - {nb}, w - {nb}, strs[i]) && World(w, strs, vals[i := s]) && Unused(w, nb, strs, vals[i := s])
    ensures Outside(w, strs, vals[i := s], {nb}) == Outside(v, strs, vals, {nb})
  {
    WorldWithout(v, strs, vals, nb);
    OutsideStep(v - {nb}, w - {nb}, strs, vals, i, s, {nb});
    OutsideWithout(v, strs, vals, nb);
    OutsideWithout(w, strs, vals[i := s], nb);
  }

  /** A number buffer that is not in the heap is none of its blocks. */
  lemma SpareUnused(h: Heap, strs: seq<word>, vals: seq<Value>, nb: nat, rest: View)
    requires h.Valid() && Shelf(h.view, strs, vals, nb, rest)
    ensures |strs| == |vals| && Unused(h.view, nb, strs, vals) && 0 !in h.view
    ensures forall i :: 0 <= i < |vals| && vals[i].Str? ==> NumBuffer(h.view, nb, strs[i])
  {
    forall i | 0 <= i < |strs| && vals[i].Str?
      ensures nb != strs[i] && nb != Data(h.view, strs[i]) && NumBuffer(h.view, nb, strs[i])
    {
      assert Holds(h.view, strs[i], vals[i]);
      BlockAddress(h, strs[i]);
      BlockAddress(h, Data(h.view, strs[i]));
    }
    NothingAtNull(h);
  }

  // ---------- running ----------

  /** The text of string j is a usable argument for an operation on string i. */
  lemma OtherArgument(h: Heap, strs: seq<word>, vals: seq<Value>, i: nat, j: nat)
    requires h.Valid() && World(h.view, strs, vals) && i < |vals| && j < |vals| && i != j
    requires vals[i].Str? && vals[j].Str?
    ensures Argument(h.mem[..], h.view, Data(h.view, strs[j]), vals[j].text, Data(h.view, strs[j]), strs[i])
    ensures Data(h.view, strs[j]) != 0 && Data(h.view, strs[j]) < WORD_LIMIT
  {
    assert Holds(h.view, strs[j], vals[j]) && Unshared(h.view, strs, vals, i, j);
    BlockAddress(h, Data(h.view, strs[j]));
  }

  // ---------- the blocks of a run ----------

  /** All that decides where blocks go: the row, the records and buffers of the strings, and the number buffer. */
  datatype Stage = Stage(bs: seq<Block>, strs: seq<nat>, bufs: seq<nat>, vals: seq<Value>, nb: nat)

  /** The buffers of the strings. */
  function Buffers(v: View, strs: seq<word>, vals: seq<Value>): (bufs: seq<nat>)
    requires |strs| == |vals|
    ensures |bufs| == |strs|
    ensures forall i :: 0 <= i < |strs| ==> bufs[i] == if vals[i].Str? then Data(v, strs[i]) else 0
  {
    seq(|strs|, i requires 0 <= i < |strs| => if vals[i].Str? then Data(v, strs[i]) else 0)
  }

  function StageOf(bs: seq<Block>, v: View, strs: seq<word>, vals: seq<Value>, nb: nat): Stage
    requires |strs| == |vals|
  {
    Stage(bs, strs, Buffers(v, strs, vals), vals, nb)
  }

  predicate Whole(st: Stage) {
    |st.strs| == |st.bufs| == |st.vals|
  }

  function SlotAt(st: Stage, i: nat): Slot
    requires Whole(st) && i < |st.vals|
  {
    Slot(st.bs, st.bufs[i])
  }

  /** String i has value s now, and its buffer is where the slot says. */
  function Changed(st: Stage, i: nat, slot: Slot, s: Value): Stage
    requires Whole(st) && i < |st.vals|
  {
    Stage(slot.bs, st.strs, st.bufs[i := slot.d], st.vals[i := s], st.nb)
  }

  /** What the string must get to hold k bytes. */
  function GrowTo(s: Value, k: nat): nat {
    if s.Str? then Lacking(s.size, k) else 0
  }

  function Chars(s: Value): nat {
    if s.Str? then |s.text| else 0
  }

  /** The bytes an operation asks realloc for; 0 when it does not call it. */
  function Demand(op: Op, vals: seq<Value>): nat
    requires Known(op, vals)
  {
    match op
    case SetLiteral(i, src, x) => GrowTo(vals[i], |x| + 1)
    case AddLiteral(i, src, x) => GrowTo(vals[i], Chars(vals[i]) + |x| + 1)
    case SetFrom(i, j) => GrowTo(vals[i], |vals[j].text| + 1)
    case AddFrom(i, j) => GrowTo(vals[i], Chars(vals[i]) + |vals[j].text| + 1)
    case AddNumber(i, num, base) => GrowTo(vals[i], Chars(vals[i]) + |IntText(num, base)| + 1)
    case AppendChar(i, c) => if vals[i].Str? then GrowTo(vals[i], CharCapacity(|vals[i].text|, vals[i].size)) else 0
    case ResizeTo(i, k) => if vals[i].Str? then k + 1 else 0
    case TrimTo(i) => if vals[i].Str? then |vals[i].text| + 2 else 0
    case _ => 0
  }

  /** string_addnum allocates its buffer when it finds none. */
  predicate TakesBuffer(op: Op, vals: seq<Value>, nb: nat)
    requires Known(op, vals)
  {
    op.AddNumber? && vals[op.i].Str? && nb == 0
  }

  /** Where the operation finds the string it changes, once there is a number buffer. */
  function Ready(op: Op, st: Stage): Slot
    requires Whole(st) && Known(op, st.vals) && !op.New?
  {
    if TakesBuffer(op, st.vals, st.nb) then Buffered(SlotAt(st, op.i), 0) else SlotAt(st, op.i)
  }

  function NumberAt(op: Op, st: Stage): nat
    requires Known(op, st.vals)
  {
    if TakesBuffer(op, st.vals, st.nb) then PlacedAt(st.bs, RoundUp(MAX_INT_CHARS)) else st.nb
  }

  /** What an operation needs is not there. */
  ghost predicate Dry(op: Op, st: Stage)
    requires Whole(st) && Known(op, st.vals)
  {
    if op.New? then StringStarved(st.bs, op.init + 1)
    else
      || (TakesBuffer(op, st.vals, st.nb) && Starved(st.bs, RoundUp(MAX_INT_CHARS)))
      || Stuck(Ready(op, st), Demand(op, st.vals))
  }

  /** Where the blocks are after it. */
  function Next(op: Op, st: Stage): (r: Stage)
    requires Whole(st) && Known(op, st.vals)
    ensures Whole(r) && r.vals == Apply(op, st.vals)
  {
    var vals := Apply(op, st.vals);
    match op
    case New(init) =>
      var slot := StringSlot(st.bs, init + 1);
      Stage(slot.bs, st.strs + [PlacedAt(st.bs, RECORD_SIZE)], st.bufs + [slot.d], vals, st.nb)
    case Drop(i) =>
      if st.vals[i].Gone? then st.(vals := vals)
      else Stage(Freed(Freed(st.bs, st.bufs[i]), st.strs[i]), st.strs[i := 0], st.bufs[i := 0], vals, st.nb)
    case _ =>
      Changed(st, op.i, Regrown(Ready(op, st), Demand(op, st.vals)), vals[op.i]).(nb := NumberAt(op, st))
  }

  /** String i got value s within its frame, and the row and its buffer are as slot says. */
  lemma Edited(bs: seq<Block>, v: View, slot: Slot, w: View, strs: seq<word>, vals: seq<Value>, i: nat, s: Value,
               nb: nat, rest: View)
    requires Shelf(v, strs, vals, nb, rest) && i < |vals| && vals[i].Str? && s.Str?
    requires Frame(v, w, strs[i]) && Holds(w, strs[i], s) && slot.d == Data(w, strs[i])
    ensures Shelf(w, strs, vals[i := s], nb, rest)
    ensures StageOf(slot.bs, w, strs, vals[i := s], nb) == Changed(StageOf(bs, v, strs, vals, nb), i, slot, s)
  {
    ShelfStep(v, w, strs, vals, i, s, nb, rest);
  }

  /** A string that is not there stays so, and no block moves. */
  lemma NotThere(bs: seq<Block>, v: View, strs: seq<word>, vals: seq<Value>, i: nat, nb: nat)
    requires |strs| == |vals| && i < |vals|
    ensures vals[i := vals[i]] == vals
    ensures var st := StageOf(bs, v, strs, vals, nb);
      && Changed(st, i, Regrown(SlotAt(st, i), 0), vals[i]) == st && !Stuck(SlotAt(st, i), 0)
      && (vals[i].Str? ==> SlotAt(st, i) == SlotOf(bs, v, strs[i]))
  {
    var st := StageOf(bs, v, strs, vals, nb);
    NoDemand(SlotAt(st, i));
    assert st.bufs[i := st.bufs[i]] == st.bufs;
  }

  lemma Handle(v: View, strs: seq<word>, vals: seq<Value>, i: nat, nb: nat, rest: View)
    requires Shelf(v, strs, vals, nb, rest) && i < |vals|
    ensures |strs| == |vals|
    ensures if vals[i].Gone? then strs[i] == 0 else strs[i] != 0 && Is(v, strs[i], vals[i].text, vals[i].size)
  {
    assert Holds(v, strs[i], vals[i]);
  }

  /**
   * String i had to get a buffer of k bytes, 0 for none: either the machine halted for want of a block, or the string
   * has value s, its buffer is where realloc put it, and nothing else moved.
   */
  ghost predicate Regrows(st: Stage, i: nat, k: nat, s: Value, halted: bool,
                          bs: seq<Block>, w: View, strs: seq<word>, rest: View)
    requires Whole(st) && i < |st.vals| == |strs|
  {
    var vals := st.vals[i := s];
    if halted then Stuck(SlotAt(st, i), k)
    else
      && !Stuck(SlotAt(st, i), k) && Shelf(w, strs, vals, st.nb, rest)
      && StageOf(bs, w, strs, vals, st.nb) == Changed(st, i, Regrown(SlotAt(st, i), k), s)
  }

  lemma Regrew(bs: seq<Block>, v: View, halted: bool, bs': seq<Block>, w: View, strs: seq<word>, vals: seq<Value>,
               i: nat, k: nat, s: Value, nb: nat, rest: View)
    requires Shelf(v, strs, vals, nb, rest) && i < |vals|
    requires if vals[i].Gone? then s.Gone? && k == 0 && !halted && bs' == bs && w == v
      else s.Str? && (halted <==> Stuck(SlotOf(bs, v, strs[i]), k))
    requires !halted && vals[i].Str? ==>
      && Is(w, strs[i], s.text, s.size) && Frame(v, w, strs[i])
      && SlotOf(bs', w, strs[i]) == Regrown(SlotOf(bs, v, strs[i]), k)
    ensures Regrows(StageOf(bs, v, strs, vals, nb), i, k, s, halted, bs', w, strs, rest)
  {
    hide Stuck, Regrown, Spare, Outside, Frame, Is;
    assert Holds(v, strs[i], vals[i]);
    NotThere(bs, v, strs, vals, i, nb);
    if vals[i].Str? && !halted {
      Edited(bs, v, SlotOf(bs', w, strs[i]), w, strs, vals, i, s, nb, rest);
    }
  }

  method SetText(h: Heap, strs: seq<word>, ghost vals: seq<Value>, i: nat, src: word, ghost x: seq<byte>,
                 ghost q: nat, ghost nb: nat, ghost rest: View)
    returns (halted: bool)
    requires h.Valid() && Shelf(h.view, strs, vals, nb, rest) && i < |vals|
    requires vals[i].Str? ==> src != 0 && Argument(h.mem[..], h.view, src, x, q, strs[i])
    modifies h, h.mem
    ensures h.Valid() && SameLow(old(h.mem[..]), h.mem[..])
    ensures Regrows(old(StageOf(h.bs, h.view, strs, vals, nb)), i, GrowTo(vals[i], |x| + 1), SetValue(vals[i], x),
                    halted, h.bs, h.view, strs, rest)
  {
    hide Shelf, Stuck, Regrown, Frame, Is, StageOf, Regrows, SlotOf, Argument;
    Handle(h.view, strs, vals, i, nb, rest);
    ghost var bs, v, s := h.bs, h.view, vals[i];
    ghost var t, n := if s.Str? then s.text else [], if s.Str? then s.size else 0;
    halted := Set(h, strs[i], src, t, n, x, q);
    Regrew(bs, v, halted, h.bs, h.view, strs, vals, i, GrowTo(s, |x| + 1), SetValue(s, x), nb, rest);
  }

  method AddText(h: Heap, strs: seq<word>, ghost vals: seq<Value>, i: nat, src: word, ghost x: seq<byte>,
                 ghost q: nat, ghost nb: nat, ghost rest: View)
    returns (halted: bool)
    requires h.Valid() && Shelf(h.view, strs, vals, nb, rest) && i < |vals|
    requires vals[i].Str? ==> src != 0 && Argument(h.mem[..], h.view, src, x, q, strs[i])
    modifies h, h.mem
    ensures h.Valid() && SameLow(old(h.mem[..]), h.mem[..])
    ensures Regrows(old(StageOf(h.bs, h.view, strs, vals, nb)), i, GrowTo(vals[i], Chars(vals[i]) + |x| + 1),
                    AddValue(vals[i], x), halted, h.bs, h.view, strs, rest)
  {
    hide Shelf, Stuck, Regrown, Frame, Is, StageOf, Regrows, SlotOf, Argument;
    Handle(h.view, strs, vals, i, nb, rest);
    ghost var bs, v, s := h.bs, h.view, vals[i];
    ghost var t, n := if s.Str? then s.text else [], if s.Str? then s.size else 0;
    halted := Add(h, strs[i], src, t, n, x, q);
    Regrew(bs, v, halted, h.bs, h.view, strs, vals, i, GrowTo(s, Chars(s) + |x| + 1), AddValue(s, x), nb, rest);
  }

  /**
   * The operation was dry and halted the machine, or it was not: then the strings are as Apply says, the blocks as Next
   * says, and everything else behind live pointers is as it was.
   */
  ghost predicate Does(op: Op, st: Stage, halted: bool, bs: seq<Block>, w: View, strs: seq<word>, nb: nat, rest: View)
    requires Whole(st) && Known(op, st.vals)
  {
    var vals := Apply(op, st.vals);
    if halted then Dry(op, st)
    else !Dry(op, st) && Shelf(w, strs, vals, nb, rest) && StageOf(bs, w, strs, vals, nb) == Next(op, st)
  }

  /** An operation that at most moves one buffer. */
  predicate Plain(op: Op) {
    !op.New? && !op.Drop? && !op.AddNumber?
  }

  lemma PlainDoes(op: Op, st: Stage, halted: bool, bs: seq<Block>, w: View, strs: seq<word>, rest: View)
    requires Whole(st) && Known(op, st.vals) && Plain(op) && |strs| == |st.vals|
    requires Regrows(st, op.i, Demand(op, st.vals), Apply(op, st.vals)[op.i], halted, bs, w, strs, rest)
    ensures Does(op, st, halted, bs, w, strs, st.nb, rest)
  {
    hide Stuck, Regrown, World, Spare, Outside;
    assert Apply(op, st.vals) == st.vals[op.i := Apply(op, st.vals)[op.i]];
  }

  /** The operations without a text argument. */
  method Edit(h: Heap, op: Op, strs: seq<word>, ghost vals: seq<Value>, ghost nb: nat, ghost rest: View)
    returns (halted: bool)
    requires h.Valid() && Shelf(h.view, strs, vals, nb, rest) && Legal(op, h.mem[..], vals, nb)
    requires op.AppendChar? || op.ClearAll? || op.ResizeTo? || op.TrimTo?
    modifies h, h.mem
    ensures h.Valid() && SameLow(old(h.mem[..]), h.mem[..])
    ensures Does(op, old(StageOf(h.bs, h.view, strs, vals, nb)), halted, h.bs, h.view, strs, nb, rest)
  {
    hide Shelf, Stuck, Regrown, Frame, Is, Regrows, Does;
    Handle(h.view, strs, vals, op.i, nb, rest);
    var str := strs[op.i];
    ghost var bs, v, s := h.bs, h.view, vals[op.i];
    ghost var t, n := if s.Str? then s.text else [], if s.Str? then s.size else 0;
    NoDemand(SlotOf(bs, v, str));
    halted := false;
    match op {
      case AppendChar(i, c) => halted := AddChar(h, str, c, t, n);
      case ClearAll(i) => Clear(h, str, t, n);
      case ResizeTo(i, k) => halted := Resize(h, str, k, t, n);
      case TrimTo(i) => halted := Trim(h, str, t, n);
    }
    Regrew(bs, v, halted, h.bs, h.view, strs, vals, op.i, Demand(op, vals), Apply(op, vals)[op.i], nb, rest);
    PlainDoes(op, StageOf(bs, v, strs, vals, nb), halted, h.bs, h.view, strs, rest);
  }

  predicate TakesText(op: Op) {
    op.SetLiteral? || op.AddLiteral? || op.SetFrom? || op.AddFrom?
  }

  /** The operations with a text argument. */
  method EditText(h: Heap, op: Op, strs: seq<word>, ghost vals: seq<Value>, ghost nb: nat, ghost rest: View)
    returns (halted: bool)
    requires h.Valid() && Shelf(h.view, strs, vals, nb, rest) && Legal(op, h.mem[..], vals, nb) && TakesText(op)
    modifies h, h.mem
    ensures h.Valid() && SameLow(old(h.mem[..]), h.mem[..])
    ensures Does(op, old(StageOf(h.bs, h.view, strs, vals, nb)), halted, h.bs, h.view, strs, nb, rest)
  {
    hide Regrows, World, Spare, Outside, Does;
    ghost var st := StageOf(h.bs, h.view, strs, vals, nb);
    match op {
      case SetLiteral(i, src, x) => halted := SetText(h, strs, vals, i, src, x, 0, nb, rest);
      case AddLiteral(i, src, x) => halted := AddText(h, strs, vals, i, src, x, 0, nb, rest);
      case SetFrom(i, j) =>
        var src := Source(h, strs, vals, i, j);
        halted := SetText(h, strs, vals, i, src, vals[j].text, src, nb, rest);
      case AddFrom(i, j) =>
        var src := Source(h, strs, vals, i, j);
        halted := AddText(h, strs, vals, i, src, vals[j].text, src, nb, rest);
    }
    PlainDoes(op, st, halted, h.bs, h.view, strs, rest);
  }

  lemma NumberDemand(i: nat, num: int, base: nat, st: Stage)
    requires Whole(st) && i < |st.vals| && ValidBase(base)
    ensures var op, s, x := Op.AddNumber(i, num, base), st.vals[i], IntText(num, base);
      if s.Gone? then !Dry(op, st) && Next(op, st) == st && Apply(op, st.vals) == st.vals
      else
        var slot, k := SlotAt(st, i), |s.text| + |x| + 1;
        && (Dry(op, st) <==> NumberStuck(slot, s.size, k, st.nb))
        && Apply(op, st.vals) == st.vals[i := AddValue(s, x)]
        && Next(op, st) ==
           Changed(st, i, Regrown(Buffered(slot, st.nb), Lacking(s.size, k)), AddValue(s, x)).(nb := NumberAt(op, st))
  {
    hide Served, Starved, PlacedAt, Stuck, Regrown;
    NoDemand(SlotAt(st, i));
    NoDemand(Buffered(SlotAt(st, i), st.nb));
    assert st.vals[i := st.vals[i]] == st.vals && st.bufs[i := st.bufs[i]] == st.bufs;
  }

  method AppendNumber(h: Heap, strs: seq<word>, ghost vals: seq<Value>, i: nat, num: int, base: nat, nb: word,
                      ghost rest: View)
    returns (halted: bool, nb': word)
    requires h.Valid() && Shelf(h.view, strs, vals, nb, rest) && i < |vals|
    requires INT_MIN < num <= INT_MAX && ValidBase(base) && |IntText(num, base)| < MAX_INT_CHARS
    modifies h, h.mem
    ensures h.Valid()
    ensures !halted ==> LowKept(old(h.mem[..]), h.mem[..], nb) && SameBuffer(nb, nb')
    ensures Does(AddNumber(i, num, base), old(StageOf(h.bs, h.view, strs, vals, nb)), halted,
                 h.bs, h.view, strs, nb', rest)
  {
    hide Shelf, Stuck, Regrown, Frame, Is, StageOf, SlotOf, Does, NumberStuck, Buffered, IntText;
    Handle(h.view, strs, vals, i, nb, rest);
    SpareUnused(h, strs, vals, nb, rest);
    ghost var bs, v, m, s := h.bs, h.view, h.mem[..], vals[i];
    ghost var t, n := if s.Str? then s.text else [], if s.Str? then s.size else 0;
    halted, nb' := AddNum(h, strs[i], num, base, nb, t, n);
    if !halted && s.Str? {
      LowKeptBy(m, h.mem[..], nb, nb');
      DataAddress(h, strs[i], t + IntText(num, base), Max(n, |t| + |IntText(num, base)| + 1));
    }
    NumberDone(bs, v, halted, h.bs, h.view, strs, vals, i, num, base, nb, nb', rest);
  }

  lemma DataAddress(h: Heap, p: nat, t: seq<byte>, n: nat)
    requires h.Valid() && Is(h.view, p, t, n)
    ensures HEAP_START < Data(h.view, p)
  {
    BlockAddress(h, Data(h.view, p));
  }

  lemma NumberDone(bs: seq<Block>, v: View, halted: bool, bs': seq<Block>, w: View, strs: seq<word>, vals: seq<Value>,
                   i: nat, num: int, base: nat, nb: nat, nb': nat, rest: View)
    requires Shelf(v, strs, vals, nb, rest) && Unused(v, nb, strs, vals) && i < |vals| && ValidBase(base) && 0 !in v
    requires if vals[i].Gone? then !halted && bs' == bs && w == v && nb' == nb
      else halted <==> NumberStuck(SlotOf(bs, v, strs[i]), vals[i].size, |vals[i].text| + |IntText(num, base)| + 1, nb)
    requires !halted && vals[i].Str? ==>
      var t, n, x, slot := vals[i].text, vals[i].size, IntText(num, base), SlotOf(bs, v, strs[i]);
      && NumberAppended(v, w, strs[i], t, n, x, nb, nb') && HEAP_START < Data(w, strs[i])
      && (nb == 0 ==> nb' == PlacedAt(bs, RoundUp(MAX_INT_CHARS)))
      && SlotOf(bs', w, strs[i]) == Regrown(Buffered(slot, nb), Lacking(n, |t| + |x| + 1))
    ensures Does(AddNumber(i, num, base), StageOf(bs, v, strs, vals, nb), halted, bs', w, strs, nb', rest)
  {
    hide Stuck, Regrown, Spare, Outside, Frame, Is, NumberStuck, Buffered, IntText, PlacedAt, Dry, Next;
    var st := StageOf(bs, v, strs, vals, nb);
    Handle(v, strs, vals, i, nb, rest);
    NotThere(bs, v, strs, vals, i, nb);
    NumberDemand(i, num, base, st);
    if vals[i].Str? && !halted {
      FreshUnused(v, nb', strs, vals);
      NumberEdited(bs, v, SlotOf(bs', w, strs[i]), w, strs, vals, i, AddValue(vals[i], IntText(num, base)),
                   nb, nb', rest);
    }
  }

  lemma NumberEdited(bs: seq<Block>, v: View, slot: Slot, w: View, strs: seq<word>, vals: seq<Value>, i: nat, s: Value,
                     nb: nat, nb': nat, rest: View)
    requires Shelf(v, strs, vals, nb, rest) && i < |vals| && vals[i].Str? && s.Str? && Unused(v, nb', strs, vals)
    requires nb' == nb || (nb == 0 && 0 !in v && nb' !in v)
    requires Frame(v - {nb'}, w - {nb'}, strs[i]) && strs[i] != 0 && Is(w, strs[i], s.text, s.size)
    requires nb' != Data(w, strs[i]) && NumBuffer(w, nb', strs[i]) && nb' != 0 && slot.d == Data(w, strs[i])
    ensures Shelf(w, strs, vals[i := s], nb', rest)
    ensures StageOf(slot.bs, w, strs, vals[i := s], nb') ==
            Changed(StageOf(bs, v, strs, vals, nb), i, slot, s).(nb := nb')
  {
    ShelfNumber(v, w, strs, vals, i, s, nb, nb', rest);
  }

  lemma NothingAtNull(h: Heap)
    requires h.Valid()
    ensures 0 !in h.view
  {
    if 0 in h.view {
      BlockAddress(h, 0);
    }
  }

  lemma ShelfNumber(v: View, w: View, strs: seq<word>, vals: seq<Value>, i: nat, s: Value, nb: nat, nb': nat,
                    rest: View)
    requires Shelf(v, strs, vals, nb, rest) && i < |vals| && vals[i].Str? && s.Str? && Unused(v, nb', strs, vals)
    requires nb' == nb || (nb == 0 && 0 !in v && nb' !in v)
    requires Frame(v - {nb'}, w - {nb'}, strs[i]) && strs[i] != 0 && Is(w, strs[i], s.text, s.size)
    requires nb' != Data(w, strs[i]) && NumBuffer(w, nb', strs[i]) && nb' != 0
    ensures Shelf(w, strs, vals[i := s], nb', rest)
    ensures Buffers(w, strs, vals[i := s]) == Buffers(v, strs, vals)[i := Data(w, strs[i])]
  {
    NumberStep(v, w, strs, vals, i, s, nb');
    OutsideNumber(v, w, strs, vals, i, s, nb');
    assert Outside(v, strs, vals, {nb'}) == Outside(v, strs, vals, {nb});
  }

  lemma FreshUnused(v: View, nb: nat, strs: seq<word>, vals: seq<Value>)
    requires World(v, strs, vals)
    ensures nb !in v ==> Unused(v, nb, strs, vals)
  {
    forall i | 0 <= i < |strs| && vals[i].Str?
      ensures strs[i] in v && Data(v, strs[i]) in v
    {
      assert Holds(v, strs[i], vals[i]);
    }
  }

  /** Low memory outside the number buffer is as it was. */
  ghost predicate LowKept(m: seq<byte>, m': seq<byte>, nb: nat) {
    if nb == 0 then SameLow(m, m') else SameLowBut(m, m', nb)
  }

  lemma LowKeptBy(m: seq<byte>, m': seq<byte>, nb: nat, nb': nat)
    requires SameLowBut(m, m', nb') && SameBuffer(nb, nb') && nb' != 0
    ensures LowKept(m, m', nb)
  {
  }

  /** The number buffer stays where it is once there is one. */
  predicate SameBuffer(nb: nat, nb': nat) {
    nb' == nb || (nb == 0 && HEAP_START < nb')
  }

  method Create(h: Heap, init: word, strs: seq<word>, ghost vals: seq<Value>, ghost nb: nat, ghost rest: View)
    returns (halted: bool, strs': seq<word>)
    requires h.Valid() && Shelf(h.view, strs, vals, nb, rest) && init < MAX_REQUEST
    modifies h, h.mem
    ensures h.Valid() && SameLow(old(h.mem[..]), h.mem[..])
    ensures Does(New(init), old(StageOf(h.bs, h.view, strs, vals, nb)), halted, h.bs, h.view, strs', nb, rest)
  {
    hide Served, Starved, PlacedAt, Freed, SizeAt;
    ghost var v := h.view;
    strs' := strs;
    var p;
    halted, p := NewSz(h, init);
    if !halted {
      strs' := strs + [p];
      ShelfNew(v, h.view, strs, vals, p, Str([], init + 1), nb, rest);
    }
  }

  method Discard(h: Heap, i: nat, strs: seq<word>, ghost vals: seq<Value>, ghost nb: nat, ghost rest: View)
    returns (strs': seq<word>)
    requires h.Valid() && Shelf(h.view, strs, vals, nb, rest) && i < |vals|
    modifies h, h.mem
    ensures h.Valid() && SameLow(old(h.mem[..]), h.mem[..])
    ensures Does(Drop(i), old(StageOf(h.bs, h.view, strs, vals, nb)), false, h.bs, h.view, strs', nb, rest)
  {
    Handle(h.view, strs, vals, i, nb, rest);
    ghost var bs, v := h.bs, h.view;
    FreeString(h, strs[i], if vals[i].Str? then vals[i].text else [], if vals[i].Str? then vals[i].size else 0);
    strs' := strs[i := 0];
    Dropped(bs, v, strs, vals, i, nb, rest);
  }

  lemma Dropped(bs: seq<Block>, v: View, strs: seq<word>, vals: seq<Value>, i: nat, nb: nat, rest: View)
    requires Shelf(v, strs, vals, nb, rest) && i < |vals|
    ensures var p := strs[i];
      if p == 0 then Does(Drop(i), StageOf(bs, v, strs, vals, nb), false, bs, v, strs[i := 0], nb, rest)
      else Does(Drop(i), StageOf(bs, v, strs, vals, nb), false, Freed(Freed(bs, Data(v, p)), p), Rest(v, p),
                strs[i := 0], nb, rest)
  {
    hide Freed, SizeAt, Starved, Spare, Outside;
    Handle(v, strs, vals, i, nb, rest);
    NotThere(bs, v, strs, vals, i, nb);
    if vals[i].Str? {
      ShelfDrop(v, strs, vals, i, nb, rest);
    } else {
      assert strs[i := 0] == strs;
    }
  }

  /** One operation. */
  method Perform(h: Heap, op: Op, strs: seq<word>, ghost vals: seq<Value>, nb: word, ghost rest: View)
    returns (halted: bool, strs': seq<word>, nb': word)
    requires h.Valid() && Shelf(h.view, strs, vals, nb, rest) && Legal(op, h.mem[..], vals, nb)
    modifies h, h.mem
    ensures h.Valid()
    ensures !halted ==> LowKept(old(h.mem[..]), h.mem[..], nb) && SameBuffer(nb, nb')
    ensures Does(op, old(StageOf(h.bs, h.view, strs, vals, nb)), halted, h.bs, h.view, strs', nb', rest)
  {
    hide Does;
    strs', nb' := strs, nb;
    if op.AddNumber? {
      halted, nb' := AppendNumber(h, strs, vals, op.i, op.num, op.base, nb, rest);
    } else {
      ghost var m := h.mem[..];
      halted, strs' := PerformBesides(h, op, strs, vals, nb, rest);
      LowIsKept(m, h.mem[..], nb);
    }
  }

  lemma LowIsKept(m: seq<byte>, m': seq<byte>, nb: nat)
    requires SameLow(m, m')
    ensures LowKept(m, m', nb)
  {
  }

  /** Every operation but the one that writes the number buffer. */
  method PerformBesides(h: Heap, op: Op, strs: seq<word>, ghost vals: seq<Value>, ghost nb: nat, ghost rest: View)
    returns (halted: bool, strs': seq<word>)
    requires h.Valid() && Shelf(h.view, strs, vals, nb, rest) && Legal(op, h.mem[..], vals, nb) && !op.AddNumber?
    modifies h, h.mem
    ensures h.Valid() && SameLow(old(h.mem[..]), h.mem[..])
    ensures Does(op, old(StageOf(h.bs, h.view, strs, vals, nb)), halted, h.bs, h.view, strs', nb, rest)
  {
    hide Does;
    strs', halted := strs, false;
    if op.New? {
      halted, strs' := Create(h, op.init, strs, vals, nb, rest);
    } else if op.Drop? {
      strs' := Discard(h, op.i, strs, vals, nb, rest);
    } else if TakesText(op) {
      halted := EditText(h, op, strs, vals, nb, rest);
    } else {
      halted := Edit(h, op, strs, vals, nb, rest);
    }
  }

  /** The character pointer of string j. */
  method Source(h: Heap, strs: seq<word>, ghost vals: seq<Value>, i: nat, j: nat) returns (src: word)
    requires h.Valid() && World(h.view, strs, vals) && i < |vals| && j < |vals| && i != j && vals[j].Str?
    ensures vals[i].Str? ==> src != 0 && Argument(h.mem[..], h.view, src, vals[j].text, src, strs[i])
  {
    assert Holds(h.view, strs[j], vals[j]);
    src := h.PeekWord(strs[j], 0);
    if vals[i].Str? {
      OtherArgument(h, strs, vals, i, j);
    }
  }

  // ---------- whole runs ----------

  /** Each operation names existing strings when its turn comes. */
  predicate KnownRun(ops: seq<Op>, vals: seq<Value>) {
    ops == [] || (Known(ops[0], vals) && KnownRun(ops[1..], Apply(ops[0], vals)))
  }

  ghost predicate LegalRun(ops: seq<Op>, m: seq<byte>, vals: seq<Value>, nb: nat): (legal: bool)
    ensures legal ==> KnownRun(ops, vals)
  {
    ops == [] || (Legal(ops[0], m, vals, nb) && LegalRun(ops[1..], m, Apply(ops[0], vals), nb))
  }

  function Final(ops: seq<Op>, vals: seq<Value>): seq<Value>
    requires KnownRun(ops, vals)
  {
    if ops == [] then vals else Final(ops[1..], Apply(ops[0], vals))
  }

  /** Where the blocks are after the operations, none of which ran dry. */
  function Reached(ops: seq<Op>, st: Stage): (r: Stage)
    requires Whole(st) && KnownRun(ops, st.vals)
    ensures Whole(r) && r.vals == Final(ops, st.vals)
    decreases |ops|
  {
    if ops == [] then st else Reached(ops[1..], Next(ops[0], st))
  }

  ghost predicate RunsDry(ops: seq<Op>, st: Stage)
    requires Whole(st) && KnownRun(ops, st.vals)
    decreases |ops|
  {
    ops != [] && (Dry(ops[0], st) || RunsDry(ops[1..], Next(ops[0], st)))
  }

  /** The first k operations can be run, and operation k behind them. */
  lemma {:induction false} KnownPrefix(ops: seq<Op>, k: nat, vals: seq<Value>)
    requires KnownRun(ops, vals) && k <= |ops|
    ensures KnownRun(ops[..k], vals) && (k < |ops| ==> Known(ops[k], Final(ops[..k], vals)))
    decreases k
  {
    if k > 0 {
      assert ops[..k][1..] == ops[1..][..k - 1];
      KnownPrefix(ops[1..], k - 1, Apply(ops[0], vals));
    }
  }

  /** Operation k finds no block when the ones before it have been run. */
  ghost predicate DriesAt(ops: seq<Op>, st: Stage, k: nat)
    requires Whole(st) && KnownRun(ops, st.vals) && k < |ops|
  {
    KnownPrefix(ops, k, st.vals);
    Dry(ops[k], Reached(ops[..k], st))
  }

  /** A run halts exactly when there is an operation that is dry where the ones before it lead. */
  lemma {:induction false} DrySomewhere(ops: seq<Op>, st: Stage)
    requires Whole(st) && KnownRun(ops, st.vals)
    ensures RunsDry(ops, st) <==> exists k :: 0 <= k < |ops| && DriesAt(ops, st, k)
    decreases |ops|
  {
    if ops != [] {
      var later, next := ops[1..], Next(ops[0], st);
      assert DriesAt(ops, st, 0) <==> Dry(ops[0], st) by {
        assert ops[..0] == [];
      }
      forall k | 0 <= k < |later|
        ensures DriesAt(later, next, k) <==> DriesAt(ops, st, k + 1)
      {
        KnownPrefix(ops, k + 1, st.vals);
        assert ops[..k + 1][1..] == later[..k];
      }
      DrySomewhere(later, next);
      if k :| 0 < k < |ops| && DriesAt(ops, st, k) {
        assert DriesAt(later, next, k - 1);
      }
    }
  }

  /** What an operation can take from the largest free block. */
  function Cost(op: Op, vals: seq<Value>): nat
    requires Known(op, vals)
  {
    match op
    case New(init) => StringCost(init + 1)
    case AddNumber(i, num, base) => Takes(MAX_INT_CHARS) + Takes(Demand(op, vals))
    case _ => Takes(Demand(op, vals))
  }

  lemma OpSpends(op: Op, st: Stage)
    requires Whole(st) && Known(op, st.vals)
    ensures Spends(st.bs, Next(op, st).bs, Dry(op, st), Cost(op, st.vals))
  {
    hide Room, Stuck, Regrown, StringStarved, StringSlot;
    if op.Drop? {
      DropSpends(op, st);
    } else if op.AddNumber? {
      NumberSpends(op, st);
    } else if op.New? {
      StringSpends(st.bs, op.init + 1);
    } else {
      RegrownSpends(SlotAt(st, op.i), Demand(op, st.vals));
    }
  }

  lemma DropSpends(op: Op, st: Stage)
    requires Whole(st) && Known(op, st.vals) && op.Drop?
    ensures Spends(st.bs, Next(op, st).bs, Dry(op, st), 0)
  {
    hide Room, Stuck, Regrown, Freed;
    NoDemand(SlotAt(st, op.i));
    FreedRoom(st.bs, st.bufs[op.i]);
    FreedRoom(Freed(st.bs, st.bufs[op.i]), st.strs[op.i]);
  }

  lemma NumberSpends(op: Op, st: Stage)
    requires Whole(st) && Known(op, st.vals) && op.AddNumber?
    ensures Spends(st.bs, Next(op, st).bs, Dry(op, st), Cost(op, st.vals))
  {
    hide Room, Served, Starved, Stuck, Regrown;
    RequestSpends(st.bs, MAX_INT_CHARS);
    RegrownSpends(Ready(op, st), Demand(op, st.vals));
  }

  function RunCost(ops: seq<Op>, vals: seq<Value>): nat
    requires KnownRun(ops, vals)
  {
    if ops == [] then 0 else Cost(ops[0], vals) + RunCost(ops[1..], Apply(ops[0], vals))
  }

  /** Operations that ask for no more than the largest free block never halt the machine. */
  lemma {:induction false} RoomForRun(ops: seq<Op>, st: Stage)
    requires Whole(st) && KnownRun(ops, st.vals) && RunCost(ops, st.vals) <= Room(st.bs)
    ensures !RunsDry(ops, st)
    decreases |ops|
  {
    if ops != [] {
      hide Room, Dry, Cost, Apply;
      OpSpends(ops[0], st);
      RoomForRun(ops[1..], Next(ops[0], st));
    }
  }

  lemma LiteralStays(m: seq<byte>, m': seq<byte>, src: nat, x: seq<byte>, nb: nat, nb': nat)
    requires Literal(m, src, x) && ClearOf(src, |x|, nb) && LowKept(m, m', nb) && SameBuffer(nb, nb')
    ensures Literal(m', src, x) && ClearOf(src, |x|, nb')
  {
    SliceSame(m, m', src, src + |x|);
  }

  /** What is legal stays so while only the heap and the number buffer are written. */
  lemma {:induction false} LegalLow(ops: seq<Op>, m: seq<byte>, m': seq<byte>, vals: seq<Value>, nb: nat, nb': nat)
    requires LegalRun(ops, m, vals, nb) && LowKept(m, m', nb) && SameBuffer(nb, nb')
    ensures LegalRun(ops, m', vals, nb')
  {
    if ops != [] {
      LegalLow(ops[1..], m, m', Apply(ops[0], vals), nb, nb');
      match ops[0] {
        case SetLiteral(i, src, x) => LiteralStays(m, m', src, x, nb, nb');
        case AddLiteral(i, src, x) => LiteralStays(m, m', src, x, nb, nb');
        case _ =>
      }
    }
  }

  lemma RunStep(ops: seq<Op>, k: nat, m: seq<byte>, nb: nat, st: Stage)
    requires k < |ops| && Whole(st) && LegalRun(ops[k..], m, st.vals, nb)
    ensures Legal(ops[k], m, st.vals, nb)
    ensures var later := Apply(ops[k], st.vals);
      && LegalRun(ops[k + 1..], m, later, nb) && Final(ops[k..], st.vals) == Final(ops[k + 1..], later)
    ensures var next := Next(ops[k], st);
      && (RunsDry(ops[k..], st) <==> Dry(ops[k], st) || RunsDry(ops[k + 1..], next))
      && Reached(ops[k..], st) == Reached(ops[k + 1..], next)
  {
    assert ops[k..][1..] == ops[k + 1..];
  }

  lemma RunEnd(ops: seq<Op>, st: Stage)
    requires ops == [] && Whole(st)
    ensures Final(ops, st.vals) == st.vals && Reached(ops, st) == st && !RunsDry(ops, st)
  {
  }

  /**
   * A legal sequence of operations halts the machine exactly when an operation on the way finds no block. After every
   * other one each string holds what Apply says, and every live block that is no string's has the bytes it had.
   */
  method RunAll(h: Heap, ops: seq<Op>, strs: seq<word>, ghost vals: seq<Value>, nb: word, ghost rest: View)
    returns (halted: bool, strs': seq<word>, nb': word)
    requires h.Valid() && Shelf(h.view, strs, vals, nb, rest) && LegalRun(ops, h.mem[..], vals, nb)
    modifies h, h.mem
    ensures h.Valid()
    ensures halted <==> RunsDry(ops, old(StageOf(h.bs, h.view, strs, vals, nb)))
    ensures !halted ==> Shelf(h.view, strs', Final(ops, vals), nb', rest)
    ensures !halted ==>
      StageOf(h.bs, h.view, strs', Final(ops, vals), nb') == Reached(ops, old(StageOf(h.bs, h.view, strs, vals, nb)))
  {
    hide Dry, Next, LegalRun, Legal, Final, RunsDry, Reached, World, Spare, Outside, Apply, LowKept, SameBuffer;
    strs', nb', halted := strs, nb, false;
    ghost var start, now := StageOf(h.bs, h.view, strs, vals, nb), vals;
    var k := 0;
    assert ops[0..] == ops;
    while k < |ops|
      invariant k <= |ops| && h.Valid() && Shelf(h.view, strs', now, nb', rest)
      invariant LegalRun(ops[k..], h.mem[..], now, nb') && Final(ops[k..], now) == Final(ops, vals)
      invariant RunsDry(ops[k..], StageOf(h.bs, h.view, strs', now, nb')) <==> RunsDry(ops, start)
      invariant Reached(ops[k..], StageOf(h.bs, h.view, strs', now, nb')) == Reached(ops, start)
    {
      ghost var m, before := h.mem[..], nb';
      RunStep(ops, k, m, nb', StageOf(h.bs, h.view, strs', now, nb'));
      halted, strs', nb' := Perform(h, ops[k], strs', now, nb', rest);
      if halted {
        return;
      }
      now := Apply(ops[k], now);
      LegalLow(ops[k + 1..], m, h.mem[..], now, before, nb');
      k := k + 1;
    }
    RunEnd(ops[k..], StageOf(h.bs, h.view, strs', now, nb'));
  }
}
