/** The doubly linked list of list.c, its nodes in twelve-byte blocks of the kernel heap. */
module LinkedList {
  import opened Bytes
  import opened Blocks
  import opened HeapState
  import opened HeapView
  import opened KernelHeap

  const VALUE: nat := 0
  const NEXT: nat := 4
  const PREV: nat := 8
  const NODE_SIZE: nat := 12

  // ---------- a list in the view ----------

  /** Address of the node after position i of ns, or NULL. */
  function NextOf(ns: seq<word>, i: nat): word
    requires i < |ns|
  {
    if i + 1 < |ns| then ns[i + 1] else 0
  }

  function PrevOf(ns: seq<word>, i: nat): word
    requires i < |ns|
  {
    if 0 < i then ns[i - 1] else 0
  }

  /** The bytes b are a node with these fields. */
  ghost predicate Node(b: seq<byte>, value: word, next: word, prev: word) {
    NODE_SIZE <= |b| && Load(b, VALUE) == value && Load(b, NEXT) == next && Load(b, PREV) == prev
  }

  ghost predicate NodeAt(v: View, ns: seq<word>, xs: seq<word>, i: nat)
    requires i < |ns| == |xs|
  {
    ns[i] != 0 && ns[i] in v && Node(v[ns[i]], xs[i], NextOf(ns, i), PrevOf(ns, i))
  }

  /** The nodes ns, in order, form a list of the values xs: next and prev are exact inverses and end in NULL. */
  ghost predicate IsList(v: View, ns: seq<word>, xs: seq<word>) {
    && |ns| == |xs|
    && (forall i, j :: 0 <= i < j < |ns| ==> ns[i] != ns[j])
    && (forall i {:trigger NodeAt(v, ns, xs, i)} :: 0 <= i < |ns| ==> NodeAt(v, ns, xs, i))
  }

  /** Everything in the view but the nodes of the list. */
  ghost function Others(v: View, ns: seq<word>): View {
    map q | q in v && q !in ns :: v[q]
  }

  function InsertAfter<T>(s: seq<T>, k: nat, x: T): seq<T>
    requires k < |s|
  {
    s[..k + 1] + [x] + s[k + 1..]
  }

  function Without<T>(s: seq<T>, k: nat): seq<T>
    requires k < |s|
  {
    s[..k] + s[k + 1..]
  }

  /** The new element is behind position k, and every other one keeps its order. */
  lemma InsertedAt<T>(s: seq<T>, k: nat, x: T, i: nat)
    requires k < |s| && i <= |s|
    ensures |InsertAfter(s, k, x)| == |s| + 1
    ensures InsertAfter(s, k, x)[i] == if i <= k then s[i] else if i == k + 1 then x else s[i - 1]
  {
  }

  lemma WithoutAt<T>(s: seq<T>, k: nat, i: nat)
    requires k < |s| && i < |s| - 1
    ensures |Without(s, k)| == |s| - 1
    ensures Without(s, k)[i] == if i < k then s[i] else s[i + 1]
  {
  }

  /** Node i byte by byte: its value, the address of the next node and that of the one before; NULL at the ends. */
  lemma NodeBytes(v: View, ns: seq<word>, xs: seq<word>, i: nat)
    requires IsList(v, ns, xs) && i < |ns|
    ensures |xs| == |ns| && ns[i] in v && 12 <= |v[ns[i]]|
    ensures v[ns[i]][0..4] == LittleEndian(xs[i])
    ensures v[ns[i]][4..8] == LittleEndian(if i + 1 < |ns| then ns[i + 1] else 0)
    ensures v[ns[i]][8..12] == LittleEndian(if 0 < i then ns[i - 1] else 0)
  {
    hide Load, LittleEndian;
    ListNode(v, ns, xs, i);
    LoadBytes(v[ns[i]], 0);
    LoadBytes(v[ns[i]], 4);
    LoadBytes(v[ns[i]], 8);
  }

  lemma ListNode(v: View, ns: seq<word>, xs: seq<word>, i: nat)
    requires IsList(v, ns, xs) && i < |ns|
    ensures ns[i] != 0 && ns[i] in v && Node(v[ns[i]], xs[i], NextOf(ns, i), PrevOf(ns, i))
  {
    assert NodeAt(v, ns, xs, i);
  }

  lemma ListNext(v: View, ns: seq<word>, xs: seq<word>, i: nat)
    requires IsList(v, ns, xs) && i < |ns|
    ensures |xs| == |ns| && ns[i] in v && NODE_SIZE <= |v[ns[i]]| && Load(v[ns[i]], NEXT) == NextOf(ns, i)
    ensures if i + 1 < |ns| then NextOf(ns, i) == ns[i + 1] != 0 else NextOf(ns, i) == 0
    ensures i + 1 < |ns| ==> PrevOf(ns, i + 1) == ns[i] != ns[i + 1]
  {
    ListNode(v, ns, xs, i);
    if i + 1 < |ns| {
      ListNode(v, ns, xs, i + 1);
    }
  }

  lemma ListNodes(v: View, ns: seq<word>, xs: seq<word>)
    requires IsList(v, ns, xs)
    ensures forall i :: 0 <= i < |ns| ==> ns[i] != 0 && ns[i] in v
  {
    forall i | 0 <= i < |ns|
      ensures ns[i] != 0 && ns[i] in v
    {
      ListNode(v, ns, xs, i);
    }
  }

  /** The memory determines the list from its first node: there is no second reading of the same links. */
  lemma ListDetermined(v: View, ns: seq<word>, xs: seq<word>, ms: seq<word>, ys: seq<word>)
    requires IsList(v, ns, xs) && IsList(v, ms, ys) && ns != [] && ms != [] && ns[0] == ms[0]
    ensures ns == ms && xs == ys
  {
    var n := if |ns| < |ms| then |ns| else |ms|;
    SamePrefix(v, ns, xs, ms, ys, n);
    ListNode(v, ns, xs, n - 1);
    ListNode(v, ms, ys, n - 1);
    ListNodes(v, ns, xs);
    ListNodes(v, ms, ys);
    assert NextOf(ns, n - 1) == NextOf(ms, n - 1);
  }

  lemma {:induction false} SamePrefix(v: View, ns: seq<word>, xs: seq<word>, ms: seq<word>, ys: seq<word>, n: nat)
    requires IsList(v, ns, xs) && IsList(v, ms, ys) && 1 <= n <= |ns| && n <= |ms| && ns[0] == ms[0]
    ensures forall i :: 0 <= i < n ==> ns[i] == ms[i] && xs[i] == ys[i]
  {
    if n > 1 {
      SamePrefix(v, ns, xs, ms, ys, n - 1);
      ListNode(v, ns, xs, n - 2);
      ListNode(v, ms, ys, n - 2);
      assert ns[n - 1] == NextOf(ns, n - 2) && ms[n - 1] == NextOf(ms, n - 2);
    }
    ListNode(v, ns, xs, n - 1);
    ListNode(v, ms, ys, n - 1);
  }

  /** A linked-in node: its own fields, next of its predecessor and prev of its successor are all that changes. */
  lemma Inserted(v: View, ns: seq<word>, xs: seq<word>, k: nat, p: word, x: word, w: View)
    requires IsList(v, ns, xs) && k < |ns| && p != 0 && p !in v
    requires w.Keys == v.Keys + {p} && Node(w[p], x, NextOf(ns, k), ns[k])
    requires forall i :: 0 <= i < |ns| ==> ns[i] in v
    requires Node(w[ns[k]], xs[k], p, PrevOf(ns, k))
    requires k + 1 < |ns| ==> Node(w[ns[k + 1]], xs[k + 1], NextOf(ns, k + 1), p)
    requires forall i :: 0 <= i < |ns| && i != k && i != k + 1 ==> w[ns[i]] == v[ns[i]]
    ensures IsList(w, InsertAfter(ns, k, p), InsertAfter(xs, k, x))
  {
    var ms, ys := InsertAfter(ns, k, p), InsertAfter(xs, k, x);
    forall i | 0 <= i < |ms|
      ensures NodeAt(w, ms, ys, i)
    {
      if i != k + 1 {
        assert NodeAt(v, ns, xs, if i <= k then i else i - 1);
      }
    }
    forall i, j | 0 <= i < j < |ms|
      ensures ms[i] != ms[j]
    {
      if i != k + 1 { assert NodeAt(v, ns, xs, if i <= k then i else i - 1); }
      if j != k + 1 { assert NodeAt(v, ns, xs, if j <= k then j else j - 1); }
    }
  }

  /** A spliced-out node: next of its predecessor and prev of its successor are all that changes in the rest. */
  lemma Removed(v: View, ns: seq<word>, xs: seq<word>, k: nat, w: View)
    requires IsList(v, ns, xs) && k < |ns|
    requires w.Keys == v.Keys - {ns[k]}
    requires forall i :: 0 <= i < |ns| ==> ns[i] in v
    requires 0 < k ==> Node(w[ns[k - 1]], xs[k - 1], NextOf(ns, k), PrevOf(ns, k - 1))
    requires k + 1 < |ns| ==> Node(w[ns[k + 1]], xs[k + 1], NextOf(ns, k + 1), PrevOf(ns, k))
    requires forall i :: 0 <= i < |ns| && i != k - 1 && i != k && i != k + 1 ==> w[ns[i]] == v[ns[i]]
    ensures IsList(w, Without(ns, k), Without(xs, k))
  {
    var ms, ys := Without(ns, k), Without(xs, k);
    forall i | 0 <= i < |ms|
      ensures NodeAt(w, ms, ys, i)
    {
      assert NodeAt(v, ns, xs, if i < k then i else i + 1);
    }
  }

  // ---------- walking ----------

  method GetFirst(h: Heap, list: word, ghost ns: seq<word>, ghost xs: seq<word>, ghost k: nat) returns (r: word)
    requires h.Valid() && (list == 0 || (IsList(h.view, ns, xs) && k < |ns| && list == ns[k]))
    ensures r == if list == 0 then 0 else ns[0]
  {
    if list == 0 {
      return 0;
    }
    r := list;
    ghost var i: nat := k;
    ListNode(h.view, ns, xs, i);
    var prev := h.PeekWord(r, PREV);
    while prev != 0
      invariant i < |ns| && r == ns[i] && prev == PrevOf(ns, i)
      decreases i
    {
      ListNodes(h.view, ns, xs);
      r, i := prev, i - 1;
      ListNode(h.view, ns, xs, i);
      prev := h.PeekWord(r, PREV);
    }
    ListNodes(h.view, ns, xs);
  }

  method GetLast(h: Heap, list: word, ghost ns: seq<word>, ghost xs: seq<word>, ghost k: nat) returns (r: word)
    requires h.Valid() && (list == 0 || (IsList(h.view, ns, xs) && k < |ns| && list == ns[k]))
    ensures r == if list == 0 then 0 else ns[|ns| - 1]
  {
    if list == 0 {
      return 0;
    }
    r := list;
    ghost var i: nat := k;
    ListNode(h.view, ns, xs, i);
    var next := h.PeekWord(r, NEXT);
    while next != 0
      invariant i < |ns| && r == ns[i] && next == NextOf(ns, i)
      decreases |ns| - i
    {
      r, i := next, i + 1;
      ListNode(h.view, ns, xs, i);
      next := h.PeekWord(r, NEXT);
    }
    ListNodes(h.view, ns, xs);
  }

  /** list_count: the same from any node of the list. */
  method ListCount(h: Heap, list: word, ghost ns: seq<word>, ghost xs: seq<word>, ghost k: nat) returns (c: nat)
    requires h.Valid() && (list == 0 || (IsList(h.view, ns, xs) && k < |ns| && list == ns[k]))
    ensures c == if list == 0 then 0 else |ns|
  {
    if list == 0 {
      return 0;
    }
    ListNodes(h.view, ns, xs);
    c := 1;
    var ptr := list;
    ghost var i: nat := k;
    ListNode(h.view, ns, xs, i);
    var prev := h.PeekWord(ptr, PREV);
    while prev != 0
      invariant i <= k && ptr == ns[i] && prev == PrevOf(ns, i) && c == 1 + k - i
      decreases i
    {
      ptr, c, i := prev, c + 1, i - 1;
      ListNode(h.view, ns, xs, i);
      prev := h.PeekWord(ptr, PREV);
    }
    ptr, i := list, k;
    ListNode(h.view, ns, xs, i);
    var next := h.PeekWord(ptr, NEXT);
    while next != 0
      invariant k <= i < |ns| && ptr == ns[i] && next == NextOf(ns, i) && c == 1 + i
      decreases |ns| - i
    {
      ptr, c, i := next, c + 1, i + 1;
      ListNode(h.view, ns, xs, i);
      next := h.PeekWord(ptr, NEXT);
    }
  }

  /** get_at: the node at index, from any node of the list, or NULL when there is none. */
  method GetAt(h: Heap, list: word, index: int, ghost ns: seq<word>, ghost xs: seq<word>, ghost k: nat)
    returns (r: word)
    requires h.Valid() && (list == 0 || (IsList(h.view, ns, xs) && k < |ns| && list == ns[k]))
    ensures r == if list != 0 && 0 <= index < |ns| then ns[index] else 0
  {
    var count := ListCount(h, list, ns, xs, k);
    if list == 0 || index < 0 || index > count - 1 {
      return 0;
    }
    ListNodes(h.view, ns, xs);
    var i := 0;
    ghost var max := count - 1;
    r := GetFirst(h, list, ns, xs, k);
    while i < index
      invariant 0 <= i <= index && r == ns[i]
    {
      ListNode(h.view, ns, xs, i);
      i := i + 1;
      r := h.PeekWord(r, NEXT);
      assert i <= max && r != 0;   // the source's second bounds test, which never fires
    }
  }

  // ---------- changing ----------

  lemma NodeSpends(bs: seq<Block>)
    ensures Spends(bs, Served(bs, NODE_SIZE), Starved(bs, NODE_SIZE), Takes(NODE_SIZE))
  {
    hide Room, Served, Starved;
    RequestSpends(bs, NODE_SIZE);
  }

  /** list_new: a list of one value. */
  method ListNew(h: Heap, val: word) returns (halted: bool, p: word)
    requires h.Valid()
    modifies h, h.mem
    ensures h.Valid() && SameLow(old(h.mem[..]), h.mem[..])
    ensures halted <==> Starved(old(h.bs), NODE_SIZE)
    ensures !halted ==> IsList(h.view, [p], [val]) && p !in old(h.view) && Others(h.view, [p]) == old(h.view)
    ensures !halted ==> h.bs == Served(old(h.bs), NODE_SIZE)
  {
    SmallServable(h, NODE_SIZE);
    halted, p := h.Malloc(NODE_SIZE);
    if halted {
      return;
    }
    FillNode(h, p, val, 0, 0);
    assert NodeAt(h.view, [p], [val], 0);
  }

  /** The three stores that fill in a fresh node; the list functions write the fields in various orders. */
  method FillNode(h: Heap, p: word, val: word, next: word, prev: word)
    requires h.Valid() && p in h.view && NODE_SIZE <= |h.view[p]|
    modifies h, h.mem
    ensures h.Valid() && SameLow(old(h.mem[..]), h.mem[..]) && h.bs == old(h.bs)
    ensures p in h.view && Node(h.view[p], val, next, prev) && h.view == old(h.view)[p := h.view[p]]
  {
    ghost var b := h.view[p];
    h.PokeWord(p, VALUE, val);
    h.PokeWord(p, PREV, prev);
    h.PokeWord(p, NEXT, next);
    FilledNode(b, val, next, prev);
  }

  lemma FilledNode(b: seq<byte>, val: word, next: word, prev: word)
    requires NODE_SIZE <= |b|
    ensures Node(Store(Store(Store(b, VALUE, val), PREV, prev), NEXT, next), val, next, prev)
  {
    var b1 := Store(b, VALUE, val);
    var b2 := Store(b1, PREV, prev);
    LoadOther(b1, PREV, prev, VALUE);
    LoadOther(b2, NEXT, next, VALUE);
    LoadOther(b2, NEXT, next, PREV);
  }

  /** One field of a node is overwritten. */
  method SetNext(h: Heap, p: word, next: word, ghost value: word, ghost was: word, ghost prev: word)
    requires h.Valid() && p in h.view && Node(h.view[p], value, was, prev)
    modifies h, h.mem
    ensures h.Valid() && SameLow(old(h.mem[..]), h.mem[..]) && h.bs == old(h.bs)
    ensures p in h.view && Node(h.view[p], value, next, prev) && h.view == old(h.view)[p := h.view[p]]
  {
    LoadOther(h.view[p], NEXT, next, VALUE);
    LoadOther(h.view[p], NEXT, next, PREV);
    h.PokeWord(p, NEXT, next);
  }

  method SetPrev(h: Heap, p: word, prev: word, ghost value: word, ghost next: word, ghost was: word)
    requires h.Valid() && p in h.view && Node(h.view[p], value, next, was)
    modifies h, h.mem
    ensures h.Valid() && SameLow(old(h.mem[..]), h.mem[..]) && h.bs == old(h.bs)
    ensures p in h.view && Node(h.view[p], value, next, prev) && h.view == old(h.view)[p := h.view[p]]
  {
    LoadOther(h.view[p], PREV, prev, VALUE);
    LoadOther(h.view[p], PREV, prev, NEXT);
    h.PokeWord(p, PREV, prev);
  }

  /** list->value = val in the only node of a list */
  method SetFirstValue(h: Heap, list: word, val: word, ghost ns: seq<word>, ghost xs: seq<word>)
    requires h.Valid() && IsList(h.view, ns, xs) && |ns| == 1 && list == ns[0]
    modifies h, h.mem
    ensures h.Valid() && SameLow(old(h.mem[..]), h.mem[..]) && h.bs == old(h.bs)
    ensures IsList(h.view, ns, [val]) && Others(h.view, ns) == Others(old(h.view), ns)
  {
    ListNode(h.view, ns, xs, 0);
    LoadOther(h.view[list], VALUE, val, NEXT);
    LoadOther(h.view[list], VALUE, val, PREV);
    h.PokeWord(list, VALUE, val);
    assert NodeAt(h.view, ns, [val], 0);
  }

  /** A new node behind position k: malloc, the node's fields, and the links around it. */
  method LinkAfter(h: Heap, prev: word, val: word, ghost ns: seq<word>, ghost xs: seq<word>, ghost k: nat)
    returns (halted: bool, ghost p: word)
    requires h.Valid() && IsList(h.view, ns, xs) && k < |ns| && prev == ns[k]
    modifies h, h.mem
    ensures h.Valid() && SameLow(old(h.mem[..]), h.mem[..])
    ensures halted <==> Starved(old(h.bs), NODE_SIZE)
    ensures !halted ==>
      && h.bs == Served(old(h.bs), NODE_SIZE) && p !in old(h.view)
      && IsList(h.view, InsertAfter(ns, k, p), InsertAfter(xs, k, val))
      && Others(h.view, InsertAfter(ns, k, p)) == Others(old(h.view), ns)
  {
    hide Served, Starved, IsList, Others, Node, NextOf, PrevOf, InsertAfter;
    ghost var v := h.view;
    p := 0;
    ListNodes(v, ns, xs);
    ListNode(v, ns, xs, k);
    ListNext(v, ns, xs, k);
    var next := h.PeekWord(prev, NEXT);
    SmallServable(h, NODE_SIZE);
    var newelem;
    halted, newelem := h.Malloc(NODE_SIZE);
    if halted {
      return;
    }
    p := newelem;
    FillNode(h, newelem, val, next, prev);
    ghost var v1 := h.view;
    SetNext(h, prev, newelem, xs[k], next, PrevOf(ns, k));
    ghost var v2 := h.view;
    if next != 0 {
      ListNode(v, ns, xs, k + 1);
      SetPrev(h, next, newelem, xs[k + 1], NextOf(ns, k + 1), prev);
    }
    Linked(v, v1, v2, h.view, ns, xs, k, p, val);
  }

  /** The stores of LinkAfter, one node at a time. */
  lemma Linked(v: View, v1: View, v2: View, w: View, ns: seq<word>, xs: seq<word>, k: nat, p: word, val: word)
    requires IsList(v, ns, xs) && k < |ns| && p != 0 && p !in v && forall i :: 0 <= i < |ns| ==> ns[i] in v
    requires p in v1 && v1 == v[p := v1[p]] && Node(v1[p], val, NextOf(ns, k), ns[k])
    requires ns[k] in v2 && v2 == v1[ns[k] := v2[ns[k]]] && Node(v2[ns[k]], xs[k], p, PrevOf(ns, k))
    requires if k + 1 == |ns| then w == v2
      else
        && ns[k + 1] in w && w == v2[ns[k + 1] := w[ns[k + 1]]]
        && Node(w[ns[k + 1]], xs[k + 1], NextOf(ns, k + 1), p)
    ensures IsList(w, InsertAfter(ns, k, p), InsertAfter(xs, k, val))
    ensures Others(w, InsertAfter(ns, k, p)) == Others(v, ns)
  {
    hide Others, Node, NextOf, PrevOf, InsertAfter;
    Inserted(v, ns, xs, k, p, val, w);
    OthersInserted(v, w, ns, k, p);
  }

  lemma NodesSplit(ns: seq<word>, k: nat)
    requires k <= |ns|
    ensures forall x :: x in ns <==> x in ns[..k] || x in ns[k..]
  {
    assert ns == ns[..k] + ns[k..];
  }

  lemma OthersInserted(v: View, w: View, ns: seq<word>, k: nat, p: word)
    requires k < |ns| && p !in v && w.Keys == v.Keys + {p}
    requires forall q :: q in v && q !in ns ==> w[q] == v[q]
    ensures Others(w, InsertAfter(ns, k, p)) == Others(v, ns)
  {
    NodesSplit(ns, k + 1);
  }

  /** list_add: the value goes behind the last node. */
  method ListAdd(h: Heap, list: word, val: word, ghost ns: seq<word>, ghost xs: seq<word>, ghost k: nat)
    returns (halted: bool, ghost p: word)
    requires h.Valid() && (list == 0 || (IsList(h.view, ns, xs) && k < |ns| && list == ns[k]))
    modifies h, h.mem
    ensures h.Valid() && SameLow(old(h.mem[..]), h.mem[..])
    ensures halted <==> list != 0 && Starved(old(h.bs), NODE_SIZE)
    ensures list == 0 ==> !halted && h.view == old(h.view) && h.bs == old(h.bs)
    ensures list != 0 && !halted ==>
      && h.bs == Served(old(h.bs), NODE_SIZE) && p !in old(h.view)
      && IsList(h.view, ns + [p], xs + [val]) && Others(h.view, ns + [p]) == Others(old(h.view), ns)
  {
    if list == 0 {
      return false, 0;
    }
    var last := GetLast(h, list, ns, xs, k);
    halted, p := LinkAfter(h, last, val, ns, xs, |ns| - 1);
    assert InsertAfter(ns, |ns| - 1, p) == ns + [p] && InsertAfter(xs, |ns| - 1, val) == xs + [val];
  }

  /** list_addat: the value goes behind position index; a position outside the list changes nothing. */
  method ListAddAt(h: Heap, list: word, val: word, index: int, ghost ns: seq<word>, ghost xs: seq<word>, ghost k: nat)
    returns (halted: bool, ghost p: word)
    requires h.Valid() && (list == 0 || (IsList(h.view, ns, xs) && k < |ns| && list == ns[k]))
    modifies h, h.mem
    ensures h.Valid() && SameLow(old(h.mem[..]), h.mem[..])
    ensures halted <==> list != 0 && 0 <= index < |ns| && Starved(old(h.bs), NODE_SIZE)
    ensures list == 0 || !(0 <= index < |ns|) ==> !halted && h.view == old(h.view) && h.bs == old(h.bs)
    ensures list != 0 && 0 <= index < |ns| && !halted ==>
      && h.bs == Served(old(h.bs), NODE_SIZE) && p !in old(h.view)
      && IsList(h.view, InsertAfter(ns, index, p), InsertAfter(xs, index, val))
      && Others(h.view, InsertAfter(ns, index, p)) == Others(old(h.view), ns)
  {
    var count := ListCount(h, list, ns, xs, k);
    if list == 0 || index < 0 || index > count - 1 {
      return false, 0;
    }
    var prev := GetAt(h, list, index, ns, xs, k);
    halted, p := LinkAfter(h, prev, val, ns, xs, index);
  }

  /** list_remove: the node at position k is spliced out and freed. */
  method ListRemove(h: Heap, item: word, ghost ns: seq<word>, ghost xs: seq<word>, ghost k: nat)
    requires h.Valid() && (item == 0 || (IsList(h.view, ns, xs) && k < |ns| && item == ns[k]))
    modifies h, h.mem
    ensures h.Valid() && SameLow(old(h.mem[..]), h.mem[..])
    ensures item == 0 ==> h.view == old(h.view)
    ensures item != 0 ==>
      && IsList(h.view, Without(ns, k), Without(xs, k))
      && Others(h.view, Without(ns, k)) == Others(old(h.view), ns)
      && h.view.Keys == old(h.view).Keys - {item}
  {
    if item == 0 {
      return;
    }
    ghost var v := h.view;
    ListNodes(v, ns, xs);
    ListNode(v, ns, xs, k);
    var prev := h.PeekWord(item, PREV);
    var next := h.PeekWord(item, NEXT);
    if prev != 0 {
      ListNode(v, ns, xs, k - 1);
      SetNext(h, prev, next, xs[k - 1], item, PrevOf(ns, k - 1));
    }
    ghost var v1 := h.view;
    if next != 0 {
      ListNode(v, ns, xs, k + 1);
      SetPrev(h, next, prev, xs[k + 1], NextOf(ns, k + 1), item);
    }
    ghost var v2 := h.view;
    h.Free(item);
    SplicedOut(v, v1, v2, ns, xs, k);
  }

  /** The two stores and the free of list_remove. */
  lemma SplicedOut(v: View, v1: View, v2: View, ns: seq<word>, xs: seq<word>, k: nat)
    requires IsList(v, ns, xs) && k < |ns| && forall i :: 0 <= i < |ns| ==> ns[i] in v
    requires if k == 0 then v1 == v
             else ns[k - 1] in v1 && v1 == v[ns[k - 1] := v1[ns[k - 1]]]
                  && Node(v1[ns[k - 1]], xs[k - 1], NextOf(ns, k), PrevOf(ns, k - 1))
    requires if k + 1 == |ns| then v2 == v1
             else ns[k + 1] in v2 && v2 == v1[ns[k + 1] := v2[ns[k + 1]]]
                  && Node(v2[ns[k + 1]], xs[k + 1], NextOf(ns, k + 1), PrevOf(ns, k))
    ensures IsList(v2 - {ns[k]}, Without(ns, k), Without(xs, k))
    ensures Others(v2 - {ns[k]}, Without(ns, k)) == Others(v, ns)
    ensures (v2 - {ns[k]}).Keys == v.Keys - {ns[k]}
  {
    var w := v2 - {ns[k]};
    Removed(v, ns, xs, k, w);
    OthersRemoved(v, w, ns, k);
  }

  lemma OthersRemoved(v: View, w: View, ns: seq<word>, k: nat)
    requires k < |ns| && w.Keys == v.Keys - {ns[k]}
    requires forall i, j :: 0 <= i < j < |ns| ==> ns[i] != ns[j]
    requires forall q :: q in v && q !in ns ==> q in w && w[q] == v[q]
    ensures Others(w, Without(ns, k)) == Others(v, ns)
  {
    NodesSplit(ns, k);
    assert ns[k..] == [ns[k]] + ns[k + 1..];
    assert ns[k] !in Without(ns, k);
  }

  /** list_removeat: a position outside the list changes nothing. */
  method ListRemoveAt(h: Heap, list: word, index: int, ghost ns: seq<word>, ghost xs: seq<word>, ghost k: nat)
    requires h.Valid() && (list == 0 || (IsList(h.view, ns, xs) && k < |ns| && list == ns[k]))
    modifies h, h.mem
    ensures h.Valid() && SameLow(old(h.mem[..]), h.mem[..])
    ensures list == 0 || !(0 <= index < |ns|) ==> h.view == old(h.view)
    ensures list != 0 && 0 <= index < |ns| ==>
      && IsList(h.view, Without(ns, index), Without(xs, index))
      && Others(h.view, Without(ns, index)) == Others(old(h.view), ns)
      && h.view.Keys == old(h.view).Keys - {ns[index]}
  {
    var count := ListCount(h, list, ns, xs, k);
    if list == 0 || index < 0 || index > count - 1 {
      return;
    }
    ListNodes(h.view, ns, xs);
    var item := GetAt(h, list, index, ns, xs, k);
    if item != 0 {
      item := GetAt(h, list, index, ns, xs, k);
      ListRemove(h, item, ns, xs, index);
    }
  }

  /** list_removelast */
  method ListRemoveLast(h: Heap, list: word, ghost ns: seq<word>, ghost xs: seq<word>, ghost k: nat)
    requires h.Valid() && (list == 0 || (IsList(h.view, ns, xs) && k < |ns| && list == ns[k]))
    modifies h, h.mem
    ensures h.Valid() && SameLow(old(h.mem[..]), h.mem[..])
    ensures list == 0 ==> h.view == old(h.view)
    ensures list != 0 ==>
      && IsList(h.view, ns[..|ns| - 1], xs[..|xs| - 1])
      && Others(h.view, ns[..|ns| - 1]) == Others(old(h.view), ns)
      && h.view.Keys == old(h.view).Keys - {ns[|ns| - 1]}
  {
    if list == 0 {
      return;
    }
    ListNodes(h.view, ns, xs);
    var last := GetLast(h, list, ns, xs, k);
    ListRemove(h, last, ns, xs, |ns| - 1);
    assert Without(ns, |ns| - 1) == ns[..|ns| - 1] && Without(xs, |xs| - 1) == xs[..|xs| - 1];
  }

  /** list_delete, from any node: every node of the list is freed once, and nothing else. */
  method ListDelete(h: Heap, list: word, ghost ns: seq<word>, ghost xs: seq<word>, ghost k: nat)
    requires h.Valid() && (list == 0 || (IsList(h.view, ns, xs) && k < |ns| && list == ns[k]))
    modifies h, h.mem
    ensures h.Valid() && SameLow(old(h.mem[..]), h.mem[..])
    ensures h.view == if list == 0 then old(h.view) else Others(old(h.view), ns)
    ensures |h.view| == |old(h.view)| - if list == 0 then 0 else |ns|
  {
    if list == 0 {
      return;
    }
    ghost var v := h.view;
    ListNodes(v, ns, xs);
    var cur := GetFirst(h, list, ns, xs, k);
    ghost var ms, ys := ns, xs;
    ListNode(h.view, ms, ys, 0);
    var next := h.PeekWord(cur, NEXT);
    while next != 0
      invariant 0 < |ms| && cur == ms[0] && next == NextOf(ms, 0)
      invariant h.Valid() && SameLow(old(h.mem[..]), h.mem[..])
      invariant IsList(h.view, ms, ys) && Others(h.view, ms) == Others(v, ns)
      invariant |h.view| - |ms| == |v| - |ns|
      decreases |ms|
    {
      cur := next;
      DropFirst(h, cur, ms, ys);
      ms, ys := ms[1..], ys[1..];
      ListNode(h.view, ms, ys, 0);
      next := h.PeekWord(cur, NEXT);
    }
    ListNodes(h.view, ms, ys);
    ghost var w := h.view;
    ListRemove(h, cur, ms, ys, 0);
    FewerKeys(w, h.view, cur);
    assert Without(ms, 0) == [];
    assert Others(h.view, []) == h.view;
  }

  /** One turn of the loop of list_delete: the node before cur goes. */
  method DropFirst(h: Heap, cur: word, ghost ms: seq<word>, ghost ys: seq<word>)
    requires h.Valid() && IsList(h.view, ms, ys) && 2 <= |ms| && cur == ms[1]
    modifies h, h.mem
    ensures h.Valid() && SameLow(old(h.mem[..]), h.mem[..])
    ensures IsList(h.view, ms[1..], ys[1..]) && Others(h.view, ms[1..]) == Others(old(h.view), ms)
    ensures |h.view| == |old(h.view)| - 1
  {
    ghost var w := h.view;
    ListNode(w, ms, ys, 0);
    ListNode(w, ms, ys, 1);
    var prev := h.PeekWord(cur, PREV);
    ListRemove(h, prev, ms, ys, 0);
    FewerKeys(w, h.view, prev);
    assert Without(ms, 0) == ms[1..] && Without(ys, 0) == ys[1..];
  }

  lemma FewerKeys(v: View, w: View, p: nat)
    requires p in v && w.Keys == v.Keys - {p}
    ensures |w| == |v| - 1
  {
    assert |v.Keys - {p}| == |v.Keys| - 1;
    assert |w| == |w.Keys| && |v| == |v.Keys|;
  }
}
