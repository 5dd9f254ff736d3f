/** The strings and the list the terminal keeps on the heap: what an operation on one does to the others. */
module Desk {
  import opened Bytes
  import opened HeapView
  import opened DynString
  import opened StringRuns
  import opened LinkedList
  import opened Seals

  /** String i shares no block with the list. */
  ghost predicate OffList(v: View, strs: seq<word>, vals: seq<Value>, ns: seq<word>, i: nat)
    requires i < |strs| == |vals|
  {
    vals[i].Str? ==> strs[i] !in ns && Data(v, strs[i]) !in ns
  }

  ghost predicate Laid(v: View, strs: seq<word>, vals: seq<Value>, ns: seq<word>, xs: seq<word>) {
    && World(v, strs, vals)
    && IsList(v, ns, xs)
    && forall i {:trigger OffList(v, strs, vals, ns, i)} :: 0 <= i < |strs| ==> OffList(v, strs, vals, ns, i)
  }

  // ---------- an operation on one string ----------

  /** A list outside the frame of a string operation is not touched by it. */
  lemma ListKept(v: View, w: View, p: nat, ns: seq<word>, xs: seq<word>)
    requires IsList(v, ns, xs) && Frame(v, w, p) && p !in ns && Data(v, p) !in ns
    ensures IsList(w, ns, xs) && Data(w, p) !in ns
  {
    ListNodes(v, ns, xs);
    forall i | 0 <= i < |ns|
      ensures NodeAt(w, ns, xs, i)
    {
      ListNode(v, ns, xs, i);
      assert ns[i] in Rest(v, p) && Rest(w, p)[ns[i]] == w[ns[i]];
    }
  }

  /** The other strings keep their value, their buffer and its bytes. */
  lemma OtherKept(v: View, w: View, strs: seq<word>, vals: seq<Value>, i: nat, j: nat)
    requires World(v, strs, vals) && i < |vals| && j < |vals| && i != j && vals[i].Str? && vals[j].Str?
    requires Frame(v, w, strs[i])
    ensures Is(v, strs[j], vals[j].text, vals[j].size) && Is(w, strs[j], vals[j].text, vals[j].size)
    ensures Data(w, strs[j]) == Data(v, strs[j]) && w[Data(w, strs[j])] == v[Data(v, strs[j])]
  {
    assert Unshared(v, strs, vals, i, j) && Holds(v, strs[j], vals[j]) && Holds(v, strs[i], vals[i]);
    FrameKeeps(v, w, strs[i], strs[j], vals[j].text, vals[j].size);
  }

  /** String i changed within its frame: the rest of the desk is as it was. */
  lemma LaidStep(v: View, w: View, strs: seq<word>, vals: seq<Value>, ns: seq<word>, xs: seq<word>, i: nat, s: Value)
    requires Laid(v, strs, vals, ns, xs) && i < |vals| && vals[i].Str? && s.Str?
    requires Frame(v, w, strs[i]) && Holds(w, strs[i], s)
    ensures Laid(w, strs, vals[i := s], ns, xs)
  {
    WorldStep(v, w, strs, vals, i, s);
    assert OffList(v, strs, vals, ns, i);
    ListKept(v, w, strs[i], ns, xs);
    var changed := vals[i := s];
    forall j | 0 <= j < |strs|
      ensures OffList(w, strs, changed, ns, j)
    {
      assert OffList(v, strs, vals, ns, j);
      if j != i && vals[j].Str? {
        OtherKept(v, w, strs, vals, i, j);
      }
    }
  }

  // ---------- a new string ----------

  /** A list stays what it is when the heap grows around it. */
  lemma ListGrown(v: View, w: View, ns: seq<word>, xs: seq<word>)
    requires IsList(v, ns, xs) && Grown(v, w)
    ensures IsList(w, ns, xs)
  {
    forall i | 0 <= i < |ns|
      ensures NodeAt(w, ns, xs, i)
    {
      ListNode(v, ns, xs, i);
    }
  }

  /** A fresh string at p, in a place where there was none. */
  ghost predicate Fresh(v: View, w: View, p: nat, s: Value) {
    s.Str? && p != 0 && Is(w, p, s.text, s.size) && p !in v && Data(w, p) !in v && Rest(w, p) == v
  }

  lemma LaidFill(v: View, w: View, strs: seq<word>, vals: seq<Value>, ns: seq<word>, xs: seq<word>,
                 i: nat, p: word, s: Value)
    requires Laid(v, strs, vals, ns, xs) && i < |vals| && vals[i].Gone? && Fresh(v, w, p, s)
    ensures Laid(w, strs[i := p], vals[i := s], ns, xs)
  {
    var strs', vals' := strs[i := p], vals[i := s];
    RestGrown(v, w, p);
    ListGrown(v, w, ns, xs);
    ListNodes(v, ns, xs);
    forall j | 0 <= j < |strs|
      ensures Holds(w, strs'[j], vals'[j]) && OffList(w, strs', vals', ns, j)
      ensures j != i && vals[j].Str? ==> strs[j] in v && Data(v, strs[j]) in v && Data(w, strs[j]) == Data(v, strs[j])
    {
      assert Holds(v, strs[j], vals[j]) && OffList(v, strs, vals, ns, j);
      if j != i && vals[j].Str? {
        StringGrown(v, w, strs[j], vals[j].text, vals[j].size);
      }
    }
    forall j, k | 0 <= j < |strs| && 0 <= k < |strs|
      ensures Unshared(w, strs', vals', j, k)
    {
      assert Unshared(v, strs, vals, j, k);
    }
  }

  /** A place for one more string. */
  lemma LaidPlace(v: View, strs: seq<word>, vals: seq<Value>, ns: seq<word>, xs: seq<word>)
    requires Laid(v, strs, vals, ns, xs)
    ensures Laid(v, strs + [0], vals + [Gone], ns, xs)
  {
    var strs', vals' := strs + [0], vals + [Gone];
    forall j | 0 <= j < |strs'|
      ensures Holds(v, strs'[j], vals'[j]) && OffList(v, strs', vals', ns, j)
    {
      if j < |strs| { assert Holds(v, strs[j], vals[j]) && OffList(v, strs, vals, ns, j); }
    }
    forall j, k | 0 <= j < |strs'| && 0 <= k < |strs'|
      ensures Unshared(v, strs', vals', j, k)
    {
      if j < |strs| && k < |strs| { assert Unshared(v, strs, vals, j, k); }
    }
  }

  /** The string at i is freed. */
  lemma LaidDrop(v: View, strs: seq<word>, vals: seq<Value>, ns: seq<word>, xs: seq<word>, i: nat)
    requires Laid(v, strs, vals, ns, xs) && i < |vals| && vals[i].Str?
    ensures Laid(Rest(v, strs[i]), strs[i := 0], vals[i := Gone], ns, xs)
  {
    var w, strs', vals' := Rest(v, strs[i]), strs[i := 0], vals[i := Gone];
    WorldDrop(v, strs, vals, i);
    assert OffList(v, strs, vals, ns, i);
    forall j | 0 <= j < |ns|
      ensures NodeAt(w, ns, xs, j)
    {
      ListNode(v, ns, xs, j);
    }
    forall j | 0 <= j < |strs|
      ensures OffList(w, strs', vals', ns, j)
    {
      assert OffList(v, strs, vals, ns, j);
      if j != i && vals[j].Str? {
        assert Holds(w, strs'[j], vals'[j]);
        assert Holds(v, strs[j], vals[j]) && Unshared(v, strs, vals, i, j);
      }
    }
  }

  // ---------- an operation on the list ----------

  /** A string outside the list is not touched by a change of the list. */
  lemma StringOffList(v: View, w: View, ns: seq<word>, ms: seq<word>, p: nat, t: seq<byte>, n: nat)
    requires Is(v, p, t, n) && Others(w, ms) == Others(v, ns)
    requires p !in ns && Data(v, p) !in ns
    ensures Is(w, p, t, n) && Data(w, p) == Data(v, p) && w[Data(w, p)] == v[Data(v, p)]
    ensures p !in ms && Data(v, p) !in ms
  {
    assert p in Others(v, ns) && Others(v, ns)[p] == v[p];
    assert Data(v, p) in Others(v, ns) && Others(v, ns)[Data(v, p)] == v[Data(v, p)];
    assert p in Others(w, ms) && Others(w, ms)[p] == w[p];
    assert Data(v, p) in Others(w, ms) && Others(w, ms)[Data(v, p)] == w[Data(v, p)];
  }

  lemma LaidList(v: View, w: View, strs: seq<word>, vals: seq<Value>, ns: seq<word>, xs: seq<word>,
                 ms: seq<word>, ys: seq<word>)
    requires Laid(v, strs, vals, ns, xs) && IsList(w, ms, ys) && Others(w, ms) == Others(v, ns)
    ensures Laid(w, strs, vals, ms, ys)
  {
    forall j | 0 <= j < |strs|
      ensures Holds(w, strs[j], vals[j]) && OffList(w, strs, vals, ms, j)
      ensures vals[j].Str? ==> Data(w, strs[j]) == Data(v, strs[j])
    {
      assert Holds(v, strs[j], vals[j]) && OffList(v, strs, vals, ns, j);
      if vals[j].Str? {
        StringOffList(v, w, ns, ms, strs[j], vals[j].text, vals[j].size);
      }
    }
    forall j, k | 0 <= j < |strs| && 0 <= k < |strs|
      ensures Unshared(w, strs, vals, j, k)
    {
      assert Unshared(v, strs, vals, j, k);
    }
  }

  // ---------- strings, list and everything else ----------

  function Nodes(ns: seq<word>): set<nat> {
    set n | n in ns :: n as nat
  }

  /** Strings and list side by side, and rest is what else is behind live pointers. */
  ghost predicate Desk(v: View, strs: seq<word>, vals: seq<Value>, ns: seq<word>, xs: seq<word>, rest: View) {
    Laid(v, strs, vals, ns, xs) && Outside(v, strs, vals, Nodes(ns)) == rest
  }

  /** Desk, sealed: those who carry it need not see how strings and list are kept apart. */
  ghost predicate Sealed(v: View, strs: seq<word>, vals: seq<Value>, ns: seq<word>, xs: seq<word>, rest: View) {
    forall w {:trigger Look(w)} :: Look(w) && w == v ==> Desk(w, strs, vals, ns, xs, rest)
  }

  lemma Unseal(v: View, strs: seq<word>, vals: seq<Value>, ns: seq<word>, xs: seq<word>, rest: View)
    requires Sealed(v, strs, vals, ns, xs, rest)
    ensures Desk(v, strs, vals, ns, xs, rest)
  {
    assert Look(v);
  }

  lemma DeskStep(v: View, w: View, strs: seq<word>, vals: seq<Value>, ns: seq<word>, xs: seq<word>, rest: View,
                 i: nat, s: Value)
    requires Desk(v, strs, vals, ns, xs, rest) && i < |vals| && vals[i].Str? && s.Str?
    requires Frame(v, w, strs[i]) && Holds(w, strs[i], s)
    ensures Desk(w, strs, vals[i := s], ns, xs, rest)
  {
    LaidStep(v, w, strs, vals, ns, xs, i, s);
    OutsideStep(v, w, strs, vals, i, s, Nodes(ns));
  }

  lemma DeskFill(v: View, w: View, strs: seq<word>, vals: seq<Value>, ns: seq<word>, xs: seq<word>, rest: View,
                 i: nat, p: word, s: Value)
    requires Desk(v, strs, vals, ns, xs, rest) && i < |vals| && vals[i].Gone? && Fresh(v, w, p, s)
    ensures Desk(w, strs[i := p], vals[i := s], ns, xs, rest)
  {
    LaidFill(v, w, strs, vals, ns, xs, i, p, s);
    OutsideFill(v, w, strs, vals, i, p, s, Nodes(ns));
  }

  /** The two blocks of a string that is kept, but not on the desk. */
  function WithString(rest: View, w: View, p: nat): View
    requires p in w && Data(w, p) in w
  {
    rest[p := w[p]][Data(w, p) := w[Data(w, p)]]
  }

  /** A fresh string that no one keeps a pointer to becomes part of the rest. */
  lemma DeskKeep(v: View, w: View, strs: seq<word>, vals: seq<Value>, ns: seq<word>, xs: seq<word>, rest: View,
                 p: nat, s: Value)
    requires Desk(v, strs, vals, ns, xs, rest) && Fresh(v, w, p, s)
    ensures Desk(w, strs, vals, ns, xs, WithString(rest, w, p))
    ensures p !in rest && Data(w, p) !in rest && p != Data(w, p)
  {
    RestGrown(v, w, p);
    ListGrown(v, w, ns, xs);
    ListNodes(v, ns, xs);
    OldBuffers(v, w, strs, vals);
    forall j | 0 <= j < |strs|
      ensures Holds(w, strs[j], vals[j]) && OffList(w, strs, vals, ns, j)
    {
      assert Holds(v, strs[j], vals[j]) && OffList(v, strs, vals, ns, j);
    }
    forall j, k | 0 <= j < |strs| && 0 <= k < |strs|
      ensures Unshared(w, strs, vals, j, k)
    {
      assert Unshared(v, strs, vals, j, k);
    }
    forall q
      ensures Taken(w, strs, vals, q) <==> Taken(v, strs, vals, q)
      ensures Taken(v, strs, vals, q) || q in ns ==> q in v
    {
    }
    KeptOutside(v, w, strs, vals, ns, p);
  }

  lemma KeptOutside(v: View, w: View, strs: seq<word>, vals: seq<Value>, ns: seq<word>, p: nat)
    requires |strs| == |vals| && p in w && Data(w, p) in w && p !in v && Data(w, p) !in v && Rest(w, p) == v
    requires forall q :: Taken(w, strs, vals, q) <==> Taken(v, strs, vals, q)
    requires forall q :: Taken(v, strs, vals, q) || q in ns ==> q in v
    ensures Outside(w, strs, vals, Nodes(ns)) == WithString(Outside(v, strs, vals, Nodes(ns)), w, p)
  {
    RestGrown(v, w, p);
    var a, b := Outside(w, strs, vals, Nodes(ns)), WithString(Outside(v, strs, vals, Nodes(ns)), w, p);
    forall q | q in a
      ensures q in b && b[q] == a[q]
    {
      assert q == p || q == Data(w, p) || q in Rest(w, p);
    }
    forall q | q in b
      ensures q in a
    {
    }
  }

  lemma DeskPlace(v: View, strs: seq<word>, vals: seq<Value>, ns: seq<word>, xs: seq<word>, rest: View)
    requires Desk(v, strs, vals, ns, xs, rest)
    ensures Desk(v, strs + [0], vals + [Gone], ns, xs, rest)
  {
    LaidPlace(v, strs, vals, ns, xs);
    OutsidePlace(v, strs, vals, Nodes(ns));
  }

  lemma DeskDrop(v: View, strs: seq<word>, vals: seq<Value>, ns: seq<word>, xs: seq<word>, rest: View, i: nat)
    requires Desk(v, strs, vals, ns, xs, rest) && i < |vals| && vals[i].Str?
    ensures Desk(Rest(v, strs[i]), strs[i := 0], vals[i := Gone], ns, xs, rest)
  {
    LaidDrop(v, strs, vals, ns, xs, i);
    OutsideDrop(v, strs, vals, i, Nodes(ns));
  }

  lemma DeskList(v: View, w: View, strs: seq<word>, vals: seq<Value>, ns: seq<word>, xs: seq<word>, rest: View,
                 ms: seq<word>, ys: seq<word>)
    requires Desk(v, strs, vals, ns, xs, rest) && IsList(w, ms, ys) && Others(w, ms) == Others(v, ns)
    ensures Desk(w, strs, vals, ms, ys, rest)
  {
    LaidList(v, w, strs, vals, ns, xs, ms, ys);
    SameTaken(v, w, strs, vals, ns, xs, ms);
    var a, b := Outside(v, strs, vals, Nodes(ns)), Outside(w, strs, vals, Nodes(ms));
    forall q | q in a
      ensures q in b && b[q] == a[q]
    {
      assert q in Others(v, ns) && q in Others(w, ms) && Others(w, ms)[q] == w[q];
    }
    forall q | q in b
      ensures q in a
    {
      assert q in Others(w, ms) && q in Others(v, ns);
    }
  }

  lemma SameTaken(v: View, w: View, strs: seq<word>, vals: seq<Value>, ns: seq<word>, xs: seq<word>, ms: seq<word>)
    requires Laid(v, strs, vals, ns, xs) && Others(w, ms) == Others(v, ns)
    ensures forall q :: Taken(w, strs, vals, q) <==> Taken(v, strs, vals, q)
  {
    forall j | 0 <= j < |strs| && vals[j].Str?
      ensures Data(w, strs[j]) == Data(v, strs[j])
    {
      assert Holds(v, strs[j], vals[j]) && OffList(v, strs, vals, ns, j);
      StringOffList(v, w, ns, ms, strs[j], vals[j].text, vals[j].size);
    }
  }

  // ---------- the number of live pointers ----------

  function Live(vals: seq<Value>): nat {
    if vals == [] then 0 else (if vals[0].Str? then 1 else 0) + Live(vals[1..])
  }

  lemma {:induction false} ListCounts(v: View, ns: seq<word>)
    requires (forall i, j :: 0 <= i < j < |ns| ==> ns[i] != ns[j]) && forall i :: 0 <= i < |ns| ==> ns[i] in v
    ensures |v| == |Others(v, ns)| + |ns|
  {
    if ns == [] {
      assert Others(v, ns) == v;
    } else {
      var p: nat := ns[0];
      var w := v - {p};
      FewerKeys(v, w, p);
      ListCounts(w, ns[1..]);
      assert ns == [ns[0]] + ns[1..];
      assert Others(w, ns[1..]) == Others(v, ns);
    }
  }

  /** A string is two blocks, a node one, and the rest is the rest. */
  lemma {:induction false} DeskCounts(v: View, strs: seq<word>, vals: seq<Value>, ns: seq<word>, xs: seq<word>,
                                      rest: View, k: nat)
    requires Desk(v, strs, vals, ns, xs, rest) && k <= |vals| && forall i :: 0 <= i < k ==> vals[i].Gone?
    ensures |v| == |rest| + 2 * Live(vals[k..]) + |ns|
    decreases |vals| - k
  {
    if k == |vals| {
      ListNodes(v, ns, xs);
      ListCounts(v, ns);
      assert Outside(v, strs, vals, Nodes(ns)) == Others(v, ns);
    } else if vals[k].Gone? {
      DeskCounts(v, strs, vals, ns, xs, rest, k + 1);
      assert vals[k..][1..] == vals[k + 1..];
    } else {
      var p := strs[k];
      assert Holds(v, p, vals[k]);
      DeskDrop(v, strs, vals, ns, xs, rest, k);
      DeskCounts(Rest(v, p), strs[k := 0], vals[k := Gone], ns, xs, rest, k + 1);
      assert vals[k := Gone][k + 1..] == vals[k + 1..] && vals[k..][1..] == vals[k + 1..];
      TwoFewer(v, p, Data(v, p));
    }
  }

  lemma TwoFewer(v: View, p: nat, q: nat)
    requires p in v && q in v && p != q
    ensures |v - {p, q}| == |v| - 2
  {
    FewerKeys(v, v - {p}, p);
    FewerKeys(v - {p}, v - {p, q}, q);
  }
}
