/** The growable strings of string.c: a two-word record and a character buffer, both on the kernel heap. */
module DynString {
  import opened Bytes
  import opened Blocks
  import opened HeapState
  import opened HeapView
  import opened Allocator
  import opened KernelHeap
  import opened Numerals
  import opened CStrings

  // ---------- the record ----------

  const RECORD_SIZE: nat := 8

  /** str->data, or 0 where there is no record. */
  function Data(v: View, p: nat): nat {
    if p in v && 4 <= |v[p]| then Load(v[p], 0) else 0
  }

  /** At p stands a string record of capacity n whose buffer holds the text t, terminated within the capacity. */
  ghost predicate Is(v: View, p: nat, t: seq<byte>, n: nat) {
    && p in v && 8 <= |v[p]|
    && Data(v, p) in v && Data(v, p) != p
    && Load(v[p], 4) == n
    && |t| < n <= |v[Data(v, p)]|
    && CStrAt(v[Data(v, p)], 0, t)
  }

  /** The record byte by byte, data first and size behind it, and the text and its terminator in the buffer. */
  lemma StringBytes(v: View, p: nat, t: seq<byte>, n: nat)
    requires Is(v, p, t, n)
    ensures p in v && 8 <= |v[p]| && Data(v, p) < WORD_LIMIT && n < WORD_LIMIT
    ensures v[p][0..4] == LittleEndian(Data(v, p)) && v[p][4..8] == LittleEndian(n)
    ensures var d := Data(v, p); d in v && |t| < |v[d]| && v[d][..|t|] == t && v[d][|t|] == 0
  {
    hide Load, LittleEndian;
    LoadBytes(v[p], 0);
    LoadBytes(v[p], 4);
    assert v[Data(v, p)][0..0 + |t|] == v[Data(v, p)][..|t|];
  }

  /** Everything in the view but the string at p. */
  function Rest(v: View, p: nat): View {
    v - {p, Data(v, p)}
  }

  /** From v to w nothing changed but the string at p; its buffer stayed or moved to a fresh block. */
  ghost predicate Frame(v: View, w: View, p: nat) {
    && Rest(w, p) == Rest(v, p)
    && Data(w, p) != p
    && (Data(w, p) == Data(v, p) || Data(w, p) !in v)
  }

  lemma FrameTrans(v: View, w: View, x: View, p: nat)
    requires Frame(v, w, p) && Frame(w, x, p)
    ensures Frame(v, x, p)
  {
    assert forall k :: k in Rest(v, p) ==> k in Rest(w, p);
  }

  /** Two strings do not share a block. */
  predicate Separate(v: View, p: nat, q: nat) {
    p != q && p != Data(v, q) && q != Data(v, p) && Data(v, p) != Data(v, q)
  }

  /** An operation on the string at p leaves every separate string as it was, and still separate. */
  lemma FrameKeeps(v: View, w: View, p: nat, q: nat, t: seq<byte>, n: nat)
    requires Frame(v, w, p) && Is(v, q, t, n) && Separate(v, p, q) && p in v
    ensures Is(w, q, t, n) && Data(w, q) == Data(v, q) && Separate(w, p, q)
    ensures w[Data(w, q)] == v[Data(v, q)]
  {
    assert q in Rest(v, p) && Data(v, q) in Rest(v, p);
    assert q in Rest(w, p) && Rest(w, p)[q] == w[q] == v[q];
    assert Data(v, q) in Rest(w, p) && Rest(w, p)[Data(v, q)] == w[Data(v, q)] == v[Data(v, q)];
  }

  // ---------- arguments ----------

  /**
   * The C string t at address src, readable during an operation on the string at p: it lies in low memory (q is 0)
   * or inside a live block q that is neither the record at p nor its buffer.
   */
  ghost predicate Argument(m: seq<byte>, v: View, src: nat, t: seq<byte>, q: nat, p: nat) {
    if q == 0 then
      src + |t| < HEAP_START && CStrAt(m, src, t)
    else
      q in Rest(v, p) && q <= src && CStrAt(v[q], src - q, t)
  }

  lemma ArgumentKept(m: seq<byte>, v: View, m': seq<byte>, w: View, src: nat, t: seq<byte>, q: nat, p: nat)
    requires Argument(m, v, src, t, q, p) && Frame(v, w, p) && SameLow(m, m')
    ensures Argument(m', w, src, t, q, p)
  {
    if q == 0 {
      SliceSame(m, m', src, src + |t|);
    } else {
      assert q in Rest(w, p) && Rest(w, p)[q] == w[q];
    }
  }

  /** A C string inside a live block is a C string in memory. */
  lemma CStrInBlock(s: HState, q: nat, a: nat, t: seq<byte>)
    requires Apart(s.bs, |s.m|) && q in ViewOf(s) && q <= a && CStrAt(ViewOf(s)[q], a - q, t)
    ensures CStrAt(s.m, a, t) && a + |t| < q + |ViewOf(s)[q]|
  {
    var i, b := ViewBlock(s, q);
    assert s.m[q..b.End()][a - q..a - q + |t|] == s.m[a..a + |t|];
  }

  lemma ArgumentAt(s: HState, src: nat, t: seq<byte>, q: nat, p: nat)
    requires Inv(s) && Argument(s.m, ViewOf(s), src, t, q, p) && Data(ViewOf(s), p) in ViewOf(s)
    ensures CStrAt(s.m, src, t)
    ensures var d := Data(ViewOf(s), p); Disjoint(d, |ViewOf(s)[d]|, src, |t| + 1)
  {
    var d := Data(ViewOf(s), p);
    var i, b := ViewBlock(s, d);
    if q != 0 {
      CStrInBlock(s, q, src, t);
      ViewDisjoint(s, d, q);
    }
  }

  // ---------- text inside a live block ----------

  /** Text written into a live block changes that block's bytes and nothing else. */
  lemma TextView(s: HState, d: nat, off: nat, t: seq<byte>)
    requires Inv(s) && d in ViewOf(s) && off + |t| < |ViewOf(s)[d]|
    ensures d + off + |t| < |s.m|
    ensures var m := WithText(s.m, d + off, t);
      && Inv(HState(m, s.bs)) && SameLow(s.m, m)
      && ViewOf(HState(m, s.bs)) == ViewOf(s)[d := WithText(ViewOf(s)[d], off, t)]
  {
    var i, b := ViewBlock(s, d);
    WithTextInside(s.m, d, b.End(), d + off, t);
    WithTextSlice(s.m, d, b.End(), off, t);
    WriteView(s, b, WithText(s.m, d + off, t));
  }

  lemma WithTextInside(m: seq<byte>, a: nat, b: nat, dest: nat, t: seq<byte>)
    requires a <= dest && dest + |t| < b <= |m|
    ensures |WithText(m, dest, t)| == |m|
    ensures forall k :: 0 <= k < |m| && !(a <= k < b) ==> WithText(m, dest, t)[k] == m[k]
  {
    WithTextFrame(m, dest, t);
  }

  lemma WithTextFrame(m: seq<byte>, dest: nat, t: seq<byte>)
    requires dest + |t| < |m|
    ensures |WithText(m, dest, t)| == |m|
    ensures forall k :: 0 <= k < |m| && !(dest <= k <= dest + |t|) ==> WithText(m, dest, t)[k] == m[k]
  {
    forall k | 0 <= k < |m| && !(dest <= k <= dest + |t|)
      ensures WithText(m, dest, t)[k] == m[k]
    {
      WithTextAt(m, dest, t, k);
    }
  }

  lemma WithTextSlice(m: seq<byte>, a: nat, b: nat, off: nat, t: seq<byte>)
    requires a <= b <= |m| && off + |t| < b - a
    ensures WithText(m, a + off, t)[a..b] == WithText(m[a..b], off, t)
  {
    var x, y := WithText(m, a + off, t)[a..b], WithText(m[a..b], off, t);
    WithTextAt(m, a + off, t, a);
    WithTextAt(m[a..b], off, t, 0);
    forall k | 0 <= k < b - a
      ensures x[k] == y[k]
    {
      WithTextAt(m, a + off, t, a + k);
      WithTextAt(m[a..b], off, t, k);
      assert x[k] == WithText(m, a + off, t)[a + k] && m[a..b][k] == m[a + k];
    }
    assert |x| == |y|;
  }

  // ---------- string_resize ----------

  /** The text kept in a capacity of k characters. */
  function Truncated(t: seq<byte>, k: nat): (u: seq<byte>)
    ensures u <= t && |u| <= k && (u == t || |u| == k)
  {
    if k < |t| then t[..k] else t
  }

  lemma TruncatedAt(b: seq<byte>, c: seq<byte>, t: seq<byte>, n: nat, k: nat)
    requires CStrAt(b, 0, t) && |t| < n <= |b| && b <= c && k < |c|
    ensures n <= k + 1 ==> CStrAt(c, 0, Truncated(t, k))
    ensures k + 1 < n ==> CStrAt(Put(c, k, 0), 0, Truncated(t, k))
  {
    var x := if k + 1 < n then Put(c, k, 0) else c;
    var u := Truncated(t, k);
    assert forall j :: 0 <= j < |t| ==> c[j] == b[j] == b[..|t|][j] == t[j];
    assert c[|t|] == b[|t|];
    assert x[..|u|] == u;
  }

  lemma RecordWords(r: seq<byte>, d: word, n: word)
    requires 8 <= |r|
    ensures var x := Store(Store(r, 0, d), 4, n); |x| == |r| && Load(x, 0) == d && Load(x, 4) == n
  {
    LoadOther(Store(r, 0, d), 4, n, 0);
  }

  /** A buffer moved or kept by realloc, a new record, and the repaired terminator: the text cut to its capacity. */
  lemma Resized(v: View, p: nat, t: seq<byte>, n: nat, e: word, k: nat,
                v1: View, v2: View, v3: View, w: View)
    requires Is(v, p, t, n) && k + 1 < WORD_LIMIT
    requires var d := Data(v, p);
      && e in v1 && v1 == (v - {d})[e := v1[e]] && (e == d || e !in v) && k + 1 <= |v1[e]| && v[d] <= v1[e]
    requires p in v1 && v1[p] == v[p]
    requires v2 == v1[p := Store(v1[p], 0, e)] && v3 == v2[p := Store(v2[p], 4, k + 1)]
    requires w == if k + 1 < n then v3[e := Put(v1[e], k, 0)] else v3
    ensures Is(w, p, Truncated(t, k), k + 1) && Frame(v, w, p)
  {
    var d := Data(v, p);
    RecordWords(v[p], e, k + 1);
    TruncatedAt(v[d], v1[e], t, n, k);
    assert Data(w, p) == e != p;
    assert Rest(w, p) == Rest(v, p);
  }

  /** The row of blocks, and where the buffer of a string is. */
  datatype Slot = Slot(bs: seq<Block>, d: nat)

  function SlotOf(bs: seq<Block>, v: View, p: nat): Slot {
    Slot(bs, Data(v, p))
  }

  /** The buffer is smaller than k bytes, and no free block is large enough for k. */
  ghost predicate Stuck(s: Slot, k: nat) {
    SizeAt(s.bs, s.d) < k <= MAX_REQUEST && Starved(s.bs, RoundUp(k))
  }

  /** Afterwards: the buffer stays when it has k bytes, and moves to a new block otherwise. */
  function Regrown(s: Slot, k: nat): Slot {
    if SizeAt(s.bs, s.d) < k <= MAX_REQUEST then
      Slot(Freed(Served(s.bs, RoundUp(k)), s.d), PlacedAt(s.bs, RoundUp(k)))
    else s
  }

  /** What a string of capacity n must get to take k bytes; 0 when it has them. */
  function Lacking(n: nat, k: nat): nat {
    if n < k then k else 0
  }

  lemma NoDemand(s: Slot)
    ensures Regrown(s, 0) == s && !Stuck(s, 0)
  {
  }

  /** string_resize; realloc halts the machine only when the buffer's block is too small and none other fits. */
  method Resize(h: Heap, str: word, newsz: word, ghost t: seq<byte>, ghost n: nat) returns (halted: bool)
    requires h.Valid() && newsz < MAX_REQUEST && (str == 0 || Is(h.view, str, t, n))
    modifies h, h.mem
    ensures h.Valid() && SameLow(old(h.mem[..]), h.mem[..]) && old(|h.bs|) <= |h.bs|
    ensures halted <==> str != 0 && Stuck(old(SlotOf(h.bs, h.view, str)), newsz + 1)
    ensures str != 0 && !halted ==> SlotOf(h.bs, h.view, str) == Regrown(old(SlotOf(h.bs, h.view, str)), newsz + 1)
    ensures str == 0 ==> !halted && h.view == old(h.view) && h.bs == old(h.bs)
    ensures str != 0 && !halted ==> Is(h.view, str, Truncated(t, newsz), newsz + 1) && Frame(old(h.view), h.view, str)
    ensures str != 0 && newsz < |old(h.view)[Data(old(h.view), str)]| ==>
      var d := Data(old(h.view), str);
      !halted && Data(h.view, str) == d && |h.view[d]| == |old(h.view)[d]| && h.bs == old(h.bs)
  {
    hide Served, Starved, PlacedAt, Freed, SizeAt;
    if str == 0 {
      return false;
    }
    ghost var v := h.view;
    SizeOfLive(h, Data(v, str));
    var oldsz := h.PeekWord(str, 4);
    var newdata;
    var data := h.PeekWord(str, 0);
    halted, newdata := h.Realloc(data, newsz + 1);
    if halted {
      return;
    }
    ghost var v1 := h.view;
    h.PokeWord(str, 0, newdata);
    ghost var v2 := h.view;
    h.PokeWord(str, 4, newsz + 1);
    ghost var v3 := h.view;
    if newsz + 1 < oldsz {
      h.Poke(newdata, newsz, 0);
    }
    Resized(v, str, t, n, newdata, newsz, v1, v2, v3, h.view);
  }

  lemma RegrownSpends(s: Slot, k: nat)
    ensures Spends(s.bs, Regrown(s, k).bs, Stuck(s, k), Takes(k))
  {
    hide Room, Served, Starved, Freed, PlacedAt;
    if SizeAt(s.bs, s.d) < k <= MAX_REQUEST {
      RequestSpends(s.bs, k);
      FreedRoom(Served(s.bs, RoundUp(k)), s.d);
    }
  }

  /** A string that has to take k bytes spends no more than a request for size bytes, when k is no more than size. */
  lemma GrowthSpends(s: Slot, n: nat, k: nat, size: nat)
    requires k <= size
    ensures Spends(s.bs, Regrown(s, Lacking(n, k)).bs, Stuck(s, Lacking(n, k)), Takes(size))
  {
    hide Room, Regrown, Stuck;
    RegrownSpends(s, Lacking(n, k));
  }

  /** What a string of capacity k can take. */
  function StringCost(k: nat): nat {
    Takes(RECORD_SIZE) + Takes(k)
  }

  // ---------- sizes that wrap ----------

  /** A well-formed heap and a live pointer to at least k bytes. */
  ghost predicate HasRoom(o: Outcome, k: nat) {
    o.Got? && Inv(o.s) && o.p in ViewOf(o.s) && k <= |ViewOf(o.s)[o.p]|
  }

  lemma TooLarge(o: Outcome, k: nat)
    requires MAX_REQUEST < k
    ensures !HasRoom(o, k)
  {
    if HasRoom(o, k) {
      var i, b := ViewBlock(o.s, o.p);
    }
  }

  /** The buffer string_newsz takes behind the record has room for its capacity exactly when the size does not wrap. */
  lemma NewSzPromise(s: HState, init: word)
    requires Inv(s) && |s.bs| > 1 && !Allocator.Kmalloc(s, Wrap(init + 1)).Halted?
    ensures HasRoom(Allocator.Kmalloc(s, Wrap(init + 1)), init + 1) <==> init < MAX_REQUEST
  {
    if init < MAX_REQUEST {
      KmallocDelivers(s, init + 1);
    } else {
      TooLarge(Allocator.Kmalloc(s, Wrap(init + 1)), init + 1);
    }
  }

  /** For instance string_newsz(0xFFFFFFFF): a split leaves the buffer no byte, and the terminator goes past its end. */
  lemma NewSzExample(s: HState, i: nat)
    requires Inv(s) && |s.bs| > 1 && i == FirstFit(s.bs, 0, 0) < |s.bs|
    requires HEADER_SIZE + SPLIT_THRESHOLD <= s.bs[i].size
    ensures Wrap(0xFFFF_FFFF + 1) == 0
    ensures var o := Allocator.Kmalloc(s, 0);
      o.Got? && Inv(o.s) && o.p in ViewOf(o.s) && ViewOf(o.s)[o.p] == []
  {
    hide Allocator.Kmalloc, ViewOf, FirstFit;
    CutSize(s, 0, i);
  }

  /** The buffer string_resize leaves has room for the new capacity exactly when the size does not wrap. */
  lemma ResizePromise(s: HState, data: nat, newsz: word)
    requires Inv(s) && data in ViewOf(s) && !Allocator.Krealloc(s, data, Wrap(newsz + 1)).Halted?
    ensures HasRoom(Allocator.Krealloc(s, data, Wrap(newsz + 1)), newsz + 1) <==> newsz < MAX_REQUEST
  {
    if newsz < MAX_REQUEST {
      KreallocMoves(s, data, newsz + 1);
    } else {
      TooLarge(Allocator.Krealloc(s, data, Wrap(newsz + 1)), newsz + 1);
    }
  }

  // ---------- sizes ----------

  lemma BlockAddress(h: Heap, p: nat)
    requires h.Valid() && p in h.view
    ensures HEAP_START < p < WORD_LIMIT
  {
    h.Opened();
    var k, b := ViewBlock(h.State(), p);
  }

  /** A capacity is below the size of memory, far from the 32-bit limit. */
  lemma SizeFits(h: Heap, str: nat, t: seq<byte>, n: nat)
    requires h.Valid() && Is(h.view, str, t, n)
    ensures n < h.mem.Length < 0x8010_0000
  {
    h.Opened();
    var i, b := ViewBlock(h.State(), Data(h.view, str));
  }

  /** A text and its argument lie apart in memory, so their lengths together stay below the request limit. */
  lemma SumFits(h: Heap, str: nat, t: seq<byte>, n: nat, src: nat, x: seq<byte>, q: nat)
    requires h.Valid() && Is(h.view, str, t, n) && Argument(h.mem[..], h.view, src, x, q, str)
    ensures |t| + |x| < MAX_REQUEST
  {
    h.Opened();
    SizeFits(h, str, t, n);
    ArgumentAt(h.State(), src, x, q, str);
    var i, b := ViewBlock(h.State(), Data(h.view, str));
  }

  // ---------- the operations ----------

  /** The row after a record and a buffer of k bytes have been taken. */
  function RecordRow(bs: seq<Block>): seq<Block> {
    Served(bs, RECORD_SIZE)
  }

  /** A record of two words and a buffer of k bytes are not to be had. */
  ghost predicate StringStarved(bs: seq<Block>, k: word) {
    Starved(bs, RECORD_SIZE) || Starved(RecordRow(bs), RoundUp(k))
  }

  /** The row behind them, and where the buffer is; the record is at PlacedAt(bs, RECORD_SIZE). */
  function StringSlot(bs: seq<Block>, k: word): Slot {
    Slot(Served(RecordRow(bs), RoundUp(k)), PlacedAt(RecordRow(bs), RoundUp(k)))
  }

  lemma StringSpends(bs: seq<Block>, k: word)
    requires 1 <= k <= MAX_REQUEST
    ensures Spends(bs, StringSlot(bs, k).bs, StringStarved(bs, k), StringCost(k))
  {
    hide Room, Served, Starved, PlacedAt;
    RequestSpends(bs, RECORD_SIZE);
    RequestSpends(RecordRow(bs), k);
  }

  /** string_newsz: a record of two words and a buffer of init characters and a terminator, holding the empty text. */
  method NewSz(h: Heap, init: word) returns (halted: bool, str: word)
    requires h.Valid() && init < MAX_REQUEST
    modifies h, h.mem
    ensures h.Valid() && SameLow(old(h.mem[..]), h.mem[..])
    ensures halted <==> StringStarved(old(h.bs), init + 1)
    ensures !halted ==> str == PlacedAt(old(h.bs), RECORD_SIZE)
    ensures !halted ==> SlotOf(h.bs, h.view, str) == StringSlot(old(h.bs), init + 1)
    ensures !halted ==> Is(h.view, str, [], init + 1) && str !in old(h.view) && Data(h.view, str) !in old(h.view)
    ensures !halted ==> Rest(h.view, str) == old(h.view) && str != 0
    ensures !halted ==> RoundUp(init + 1) <= |h.view[Data(h.view, str)]|
  {
    ghost var v := h.view;
    SmallServable(h, RECORD_SIZE);
    halted, str := h.Malloc(RECORD_SIZE);
    if halted {
      return;
    }
    ghost var v1 := h.view;
    h.PokeWord(str, 4, init + 1);
    ghost var v2 := h.view;
    LaterServable(h.bs, init + 1);
    halted := NewBuffer(h, str, init + 1);
    if !halted {
      Created(v, str, v1, v2, h.view, init + 1);
    }
  }

  /** The buffer of a new record, and the terminator in it. */
  method NewBuffer(h: Heap, str: word, size: word) returns (halted: bool)
    requires h.Valid() && str in h.view && 8 <= |h.view[str]| && 1 <= size && Servable(h.bs, size)
    modifies h, h.mem
    ensures h.Valid() && SameLow(old(h.mem[..]), h.mem[..])
    ensures halted <==> Starved(old(h.bs), RoundUp(size))
    ensures !halted ==>
      SlotOf(h.bs, h.view, str) == Slot(Served(old(h.bs), RoundUp(size)), PlacedAt(old(h.bs), RoundUp(size)))
    ensures !halted ==> HasBuffer(old(h.view), h.view, str, RoundUp(size)) && size <= RoundUp(size)
  {
    ghost var v := h.view;
    var data;
    halted, data := h.Malloc(size);
    if halted {
      return;
    }
    ghost var v3 := h.view;
    h.PokeWord(str, 0, data);
    h.Poke(data, 0, 0);
    BufferMade(v, v3, h.view, str, data);
  }

  /** From v to w the record at p got a fresh buffer of at least k bytes, the first of them zero. */
  ghost predicate HasBuffer(v: View, w: View, p: nat, k: nat) {
    var d := Data(w, p);
    && p in v && p in w && 8 <= |v[p]| && |w[p]| == |v[p]| && Load(w[p], 4) == Load(v[p], 4)
    && d !in v && d in w && k <= |w[d]| && w[d] != [] && w[d][0] == 0
    && w - {p, d} == v - {p}
  }

  lemma BufferMade(v: View, v3: View, w: View, p: nat, d: word)
    requires p in v && 8 <= |v[p]| && d !in v && d in v3 && v3[d] != [] && v3 == v[d := v3[d]]
    requires w == v3[p := Store(v3[p], 0, d)][d := Put(v3[d], 0, 0)]
    ensures HasBuffer(v, w, p, |v3[d]|) && Data(w, p) == d
  {
    LoadOther(v[p], 0, d, 4);
  }

  /** Once there are two blocks the root is no special case. */
  lemma LaterServable(bs: seq<Block>, n: word)
    requires |bs| > 1 && n <= MAX_REQUEST
    ensures Servable(bs, n)
  {
  }

  lemma Created(v: View, p: nat, v1: View, v2: View, w: View, n: word)
    requires p !in v && p in v1 && 8 <= |v1[p]| && v1 == v[p := v1[p]] && 1 <= n
    requires v2 == v1[p := Store(v1[p], 4, n)] && HasBuffer(v2, w, p, n)
    ensures Is(w, p, [], n) && Rest(w, p) == v && Data(w, p) !in v
  {
    assert w - {p, Data(w, p)} == v2 - {p} == v;
  }

  /** string_free: both blocks go, nothing else does. */
  method FreeString(h: Heap, str: word, ghost t: seq<byte>, ghost n: nat)
    requires h.Valid() && (str == 0 || Is(h.view, str, t, n))
    modifies h, h.mem
    ensures h.Valid() && SameLow(old(h.mem[..]), h.mem[..])
    ensures h.bs == if str == 0 then old(h.bs) else Freed(Freed(old(h.bs), Data(old(h.view), str)), str)
    ensures h.view == if str == 0 then old(h.view) else Rest(old(h.view), str)
  {
    if str == 0 {
      return;
    }
    ghost var v := h.view;
    var data := h.PeekWord(str, 0);
    h.Free(data);
    h.Free(str);
    assert v - {data} - {str} == Rest(v, str);
  }

  /** The buffer of a string is a C string in memory. */
  lemma BufferText(h: Heap, str: nat, t: seq<byte>, n: nat)
    requires h.Valid() && Is(h.view, str, t, n)
    ensures CStrAt(h.mem[..], Data(h.view, str), t)
  {
    h.Opened();
    CStrInBlock(h.State(), Data(h.view, str), Data(h.view, str), t);
  }

  lemma ArgumentText(h: Heap, str: nat, src: nat, x: seq<byte>, q: nat)
    requires h.Valid() && Argument(h.mem[..], h.view, src, x, q, str) && Data(h.view, str) in h.view
    ensures CStrAt(h.mem[..], src, x)
  {
    h.Opened();
    ArgumentAt(h.State(), src, x, q, str);
  }

  /** strlen(str->data) */
  method Length(h: Heap, str: word, ghost t: seq<byte>, ghost n: nat) returns (len: nat)
    requires h.Valid() && Is(h.view, str, t, n)
    ensures len == |t|
  {
    var data := h.PeekWord(str, 0);
    BufferText(h, str, t, n);
    len := StrLen(h.mem, data, t);
  }

  /** strcpy of the argument to position off of the buffer. */
  method CopyText(h: Heap, str: word, off: nat, src: word, ghost x: seq<byte>, ghost q: nat)
    requires h.Valid() && str in h.view && 4 <= |h.view[str]| && Data(h.view, str) in h.view
    requires off + |x| < |h.view[Data(h.view, str)]| && Argument(h.mem[..], h.view, src, x, q, str)
    modifies h, h.mem
    ensures h.Valid() && SameLow(old(h.mem[..]), h.mem[..]) && h.bs == old(h.bs)
    ensures var d := Data(old(h.view), str); h.view == old(h.view)[d := WithText(old(h.view)[d], off, x)]
  {
    var data := h.PeekWord(str, 0);
    ghost var s := CopyReady(h, str, off, src, x, q);
    StrCpy(h.mem, data + off, src, x);
    h.Adopt(s);
  }

  /** The copy of CopyText is in bounds, does not overlap its source, and ends in the well-formed heap s. */
  lemma CopyReady(h: Heap, str: nat, off: nat, src: nat, x: seq<byte>, q: nat) returns (s: HState)
    requires h.Valid() && Data(h.view, str) in h.view
    requires off + |x| < |h.view[Data(h.view, str)]| && Argument(h.mem[..], h.view, src, x, q, str)
    ensures CStrAt(h.mem[..], src, x)
    ensures var d := Data(h.view, str);
      && d + off + |x| < h.mem.Length && Disjoint(d + off, |x| + 1, src, |x| + 1)
      && s == HState(WithText(h.mem[..], d + off, x), h.bs) && Inv(s) && SameLow(h.mem[..], s.m)
      && ViewOf(s) == h.view[d := WithText(h.view[d], off, x)]
  {
    CopyApart(h, str, off, src, x, q);
    s := CopyEffect(h, Data(h.view, str), off, x);
  }

  lemma CopyApart(h: Heap, str: nat, off: nat, src: nat, x: seq<byte>, q: nat)
    requires h.Valid() && Data(h.view, str) in h.view
    requires off + |x| < |h.view[Data(h.view, str)]| && Argument(h.mem[..], h.view, src, x, q, str)
    ensures CStrAt(h.mem[..], src, x) && Disjoint(Data(h.view, str) + off, |x| + 1, src, |x| + 1)
  {
    h.Opened();
    ArgumentAt(h.State(), src, x, q, str);
  }

  lemma CopyEffect(h: Heap, d: nat, off: nat, x: seq<byte>) returns (s: HState)
    requires h.Valid() && d in h.view && off + |x| < |h.view[d]|
    ensures d + off + |x| < h.mem.Length
    ensures s == HState(WithText(h.mem[..], d + off, x), h.bs) && Inv(s) && SameLow(h.mem[..], s.m)
    ensures ViewOf(s) == h.view[d := WithText(h.view[d], off, x)]
  {
    h.Opened();
    TextView(h.State(), d, off, x);
    s := HState(WithText(h.mem[..], d + off, x), h.bs);
  }

  /** A text written behind the one already there. */
  lemma Appended(v: View, p: nat, t: seq<byte>, n: nat, x: seq<byte>, w: View)
    requires Is(v, p, t, n) && |t| + |x| < n && NoNul(x)
    requires w == v[Data(v, p) := WithText(v[Data(v, p)], |t|, x)]
    ensures Is(w, p, t + x, n) && Frame(v, w, p) && Data(w, p) == Data(v, p)
  {
    WithTextAppends(v[Data(v, p)], 0, t, x);
  }

  /** A text written over the one already there. */
  lemma Replaced(v: View, p: nat, t: seq<byte>, n: nat, x: seq<byte>, w: View)
    requires Is(v, p, t, n) && |x| < n && NoNul(x)
    requires w == v[Data(v, p) := WithText(v[Data(v, p)], 0, x)]
    ensures Is(w, p, x, n) && Frame(v, w, p) && Data(w, p) == Data(v, p)
  {
    WithTextAppends(v[Data(v, p)], 0, [], x);
    assert [] + x == x;
  }

  /** The test string_add and string_set open with: a resize to k characters when the capacity is too small. */
  method Widen(h: Heap, str: word, k: nat, ghost t: seq<byte>, ghost n: nat,
               ghost src: word, ghost x: seq<byte>, ghost q: nat)
    returns (halted: bool)
    requires h.Valid() && str != 0 && Is(h.view, str, t, n) && k < MAX_REQUEST
    requires Argument(h.mem[..], h.view, src, x, q, str)
    modifies h, h.mem
    ensures h.Valid() && SameLow(old(h.mem[..]), h.mem[..])
    ensures halted <==> Stuck(old(SlotOf(h.bs, h.view, str)), Lacking(n, k + 1))
    ensures !halted ==> SlotOf(h.bs, h.view, str) == Regrown(old(SlotOf(h.bs, h.view, str)), Lacking(n, k + 1))
    ensures !halted ==> Is(h.view, str, t, Max(n, k + 1)) && Frame(old(h.view), h.view, str)
    ensures !halted ==> Argument(h.mem[..], h.view, src, x, q, str)
  {
    ghost var v, m := h.view, h.mem[..];
    NoDemand(SlotOf(h.bs, h.view, str));
    var size := h.PeekWord(str, 4);
    if size < k + 1 {
      halted := Resize(h, str, k, t, n);
      if !halted {
        ArgumentKept(m, v, h.mem[..], h.view, src, x, q, str);
      }
    } else {
      halted := false;
    }
  }

  /** string_add: the argument is appended, after a resize when the capacity is too small. */
  method Add(h: Heap, str: word, src: word, ghost t: seq<byte>, ghost n: nat, ghost x: seq<byte>, ghost q: nat)
    returns (halted: bool)
    requires h.Valid()
    requires str != 0 && src != 0 ==> Is(h.view, str, t, n) && Argument(h.mem[..], h.view, src, x, q, str)
    modifies h, h.mem
    ensures h.Valid() && SameLow(old(h.mem[..]), h.mem[..])
    ensures halted <==>
      str != 0 && src != 0 && Stuck(old(SlotOf(h.bs, h.view, str)), Lacking(n, |t| + |x| + 1))
    ensures str == 0 || src == 0 ==> h.view == old(h.view) && h.bs == old(h.bs)
    ensures str != 0 && src != 0 && !halted ==>
      && Is(h.view, str, t + x, Max(n, |t| + |x| + 1)) && Frame(old(h.view), h.view, str)
      && SlotOf(h.bs, h.view, str) == Regrown(old(SlotOf(h.bs, h.view, str)), Lacking(n, |t| + |x| + 1))
  {
    if str == 0 || src == 0 {
      return false;
    }
    ghost var v := h.view;
    ArgumentText(h, str, src, x, q);
    SumFits(h, str, t, n, src, x, q);
    var len := Length(h, str, t, n);
    var extra := StrLen(h.mem, src, x);
    halted := Widen(h, str, len + extra, t, n, src, x, q);
    if halted {
      return;
    }
    ghost var v1 := h.view;
    var end := Length(h, str, t, Max(n, |t| + |x| + 1));   // strcat looks for the terminator first
    CopyText(h, str, end, src, x, q);
    Appended(v1, str, t, Max(n, |t| + |x| + 1), x, h.view);
    FrameTrans(v, v1, h.view, str);
  }

  /** string_set: the argument replaces the text, after a resize when the capacity is too small. */
  method Set(h: Heap, str: word, src: word, ghost t: seq<byte>, ghost n: nat, ghost x: seq<byte>, ghost q: nat)
    returns (halted: bool)
    requires h.Valid()
    requires str != 0 && src != 0 ==> Is(h.view, str, t, n) && Argument(h.mem[..], h.view, src, x, q, str)
    modifies h, h.mem
    ensures h.Valid() && SameLow(old(h.mem[..]), h.mem[..])
    ensures halted <==> str != 0 && src != 0 && Stuck(old(SlotOf(h.bs, h.view, str)), Lacking(n, |x| + 1))
    ensures str == 0 || src == 0 ==> h.view == old(h.view) && h.bs == old(h.bs)
    ensures str != 0 && src != 0 && !halted ==>
      && Is(h.view, str, x, Max(n, |x| + 1)) && Frame(old(h.view), h.view, str)
      && SlotOf(h.bs, h.view, str) == Regrown(old(SlotOf(h.bs, h.view, str)), Lacking(n, |x| + 1))
  {
    if str == 0 || src == 0 {
      return false;
    }
    ghost var v := h.view;
    ArgumentText(h, str, src, x, q);
    SumFits(h, str, t, n, src, x, q);
    var len := StrLen(h.mem, src, x);
    halted := Widen(h, str, len, t, n, src, x, q);
    if halted {
      return;
    }
    ghost var v1 := h.view;
    CopyText(h, str, 0, src, x, q);
    Replaced(v1, str, t, Max(n, |x| + 1), x, h.view);
    FrameTrans(v, v1, h.view, str);
  }

  /** string_trim: the text stays, and the capacity becomes its length and two. */
  method Trim(h: Heap, str: word, ghost t: seq<byte>, ghost n: nat) returns (halted: bool)
    requires h.Valid() && (str == 0 || Is(h.view, str, t, n))
    modifies h, h.mem
    ensures h.Valid() && SameLow(old(h.mem[..]), h.mem[..])
    ensures halted <==> str != 0 && Stuck(old(SlotOf(h.bs, h.view, str)), |t| + 2)
    ensures str == 0 ==> h.bs == old(h.bs)
    ensures str != 0 && !halted ==> SlotOf(h.bs, h.view, str) == Regrown(old(SlotOf(h.bs, h.view, str)), |t| + 2)
    ensures str == 0 ==> !halted && h.view == old(h.view)
    ensures str != 0 && !halted ==> Is(h.view, str, t, |t| + 2) && Frame(old(h.view), h.view, str)
  {
    if str == 0 {
      return false;
    }
    var size := h.PeekWord(str, 4);
    SizeFits(h, str, t, n);
    var padding := Padding(h, str, t, n);
    halted := Resize(h, str, size - padding, t, n);
  }

  /** string_padding: the bytes of capacity behind the terminator, or -1 for no string. */
  method Padding(h: Heap, str: word, ghost t: seq<byte>, ghost n: nat) returns (k: int)
    requires h.Valid() && (str == 0 || Is(h.view, str, t, n))
    ensures k == if str == 0 then -1 else n - (|t| + 1)
  {
    if str == 0 {
      return -1;
    }
    var size := h.PeekWord(str, 4);
    var len := Length(h, str, t, n);
    k := size - (len + 1);
  }

  /** The text after one character is appended; a NUL ends it where it ended before. */
  function Typed(t: seq<byte>, c: byte): seq<byte> {
    if c == 0 then t else t + [c]
  }

  lemma CharAppended(b: seq<byte>, t: seq<byte>, c: byte)
    requires |t| + 1 < |b| && CStrAt(b, 0, t)
    ensures CStrAt(Put(Put(b, |t|, c), |t| + 1, 0), 0, Typed(t, c))
  {
    var w := Put(Put(b, |t|, c), |t| + 1, 0);
    assert forall k :: 0 <= k < |t| ==> w[k] == b[..|t|][k] == t[k];
    assert w[..|Typed(t, c)|] == Typed(t, c);
  }

  /** The capacity string_addchar writes into: one more when fewer than two bytes are left behind the text. */
  function CharCapacity(len: nat, n: nat): (n': nat)
    ensures n' == n <==> len + 3 <= n
    ensures n' != n ==> n' == n + 2
  {
    if n <= len + 2 then n + 2 else n
  }

  /** string_addchar: the capacity grows if need be, and the character goes in front of the terminator. */
  method AddChar(h: Heap, str: word, c: byte, ghost t: seq<byte>, ghost n: nat) returns (halted: bool)
    requires h.Valid() && (str == 0 || Is(h.view, str, t, n))
    modifies h, h.mem
    ensures h.Valid() && SameLow(old(h.mem[..]), h.mem[..])
    ensures halted <==> str != 0 && Stuck(old(SlotOf(h.bs, h.view, str)), Lacking(n, CharCapacity(|t|, n)))
    ensures str == 0 ==> h.view == old(h.view) && h.bs == old(h.bs)
    ensures str != 0 && !halted ==>
      && Is(h.view, str, if c == 0 then t else t + [c], CharCapacity(|t|, n)) && Frame(old(h.view), h.view, str)
      && SlotOf(h.bs, h.view, str) == Regrown(old(SlotOf(h.bs, h.view, str)), Lacking(n, CharCapacity(|t|, n)))
    ensures str != 0 && CharCapacity(|t|, n) <= |old(h.view)[Data(old(h.view), str)]| ==>
      !halted && SameBuffer(old(h.view), h.view, str) && h.bs == old(h.bs)
  {
    if str == 0 {
      return false;
    }
    ghost var v := h.view;
    var len;
    halted, len := MakeRoom(h, str, t, n);
    if halted {
      return;
    }
    ghost var v1 := h.view;
    PutChar(h, str, c, t, CharCapacity(|t|, n));
    FrameTrans(v, v1, h.view, str);
  }

  /** The string at p kept its buffer, and the buffer its size. */
  ghost predicate SameBuffer(v: View, w: View, p: nat) {
    && Data(w, p) == Data(v, p) && Data(v, p) in v && Data(v, p) in w
    && |w[Data(v, p)]| == |v[Data(v, p)]|
  }

  /** The resize string_addchar opens with. */
  method MakeRoom(h: Heap, str: word, ghost t: seq<byte>, ghost n: nat) returns (halted: bool, len: nat)
    requires h.Valid() && str != 0 && Is(h.view, str, t, n)
    modifies h, h.mem
    ensures h.Valid() && SameLow(old(h.mem[..]), h.mem[..])
    ensures halted <==> Stuck(old(SlotOf(h.bs, h.view, str)), Lacking(n, CharCapacity(|t|, n)))
    ensures !halted ==>
      && Is(h.view, str, t, CharCapacity(|t|, n)) && Frame(old(h.view), h.view, str)
      && SlotOf(h.bs, h.view, str) == Regrown(old(SlotOf(h.bs, h.view, str)), Lacking(n, CharCapacity(|t|, n)))
    ensures CharCapacity(|t|, n) <= |old(h.view)[Data(old(h.view), str)]| ==>
      !halted && SameBuffer(old(h.view), h.view, str) && h.bs == old(h.bs)
  {
    hide Stuck, Regrown;
    SizeFits(h, str, t, n);
    NoDemand(SlotOf(h.bs, h.view, str));
    halted := false;
    var size := h.PeekWord(str, 4);
    len := Length(h, str, t, n);
    if size <= len + 2 {
      halted := Resize(h, str, size + 1, t, n);
    }
  }

  /** The two stores string_addchar ends with; the source scans for the terminator again. */
  method PutChar(h: Heap, str: word, c: byte, ghost t: seq<byte>, ghost n: nat)
    requires h.Valid() && Is(h.view, str, t, n) && |t| + 1 < n
    modifies h, h.mem
    ensures h.Valid() && SameLow(old(h.mem[..]), h.mem[..]) && h.bs == old(h.bs)
    ensures Is(h.view, str, Typed(t, c), n) && Frame(old(h.view), h.view, str)
    ensures SameBuffer(old(h.view), h.view, str)
  {
    ghost var v := h.view;
    var x := Length(h, str, t, n);
    CharAppended(v[Data(v, str)], t, c);
    WriteAt(h, str, x, c);
    ghost var v2 := h.view;
    WriteAt(h, str, x + 1, 0);
    TypedView(v, str, t, n, c, v2, h.view);
  }

  lemma TypedView(v: View, p: nat, t: seq<byte>, n: nat, c: byte, v2: View, w: View)
    requires Is(v, p, t, n) && |t| + 1 < n
    requires var d := Data(v, p); v2 == v[d := Put(v[d], |t|, c)] && w == v2[d := Put(v2[d], |t| + 1, 0)]
    ensures Is(w, p, Typed(t, c), n) && Frame(v, w, p) && Data(w, p) == Data(v, p)
  {
    CharAppended(v[Data(v, p)], t, c);
  }

  /** str->data[k] = c */
  method WriteAt(h: Heap, str: word, k: nat, c: byte)
    requires h.Valid() && str in h.view && 4 <= |h.view[str]|
    requires Data(h.view, str) in h.view && k < |h.view[Data(h.view, str)]|
    modifies h, h.mem
    ensures h.Valid() && SameLow(old(h.mem[..]), h.mem[..]) && h.bs == old(h.bs)
    ensures var d := Data(old(h.view), str); h.view == old(h.view)[d := Put(old(h.view)[d], k, c)]
  {
    var data := h.PeekWord(str, 0);
    h.Poke(data, k, c);
  }

  /** b with its first k bytes zero. */
  function Zeroed(b: seq<byte>, k: nat): seq<byte>
    requires k <= |b|
  {
    seq(k, _ => 0) + b[k..]
  }

  lemma ZeroedStep(b: seq<byte>, k: nat)
    requires k < |b|
    ensures Put(Zeroed(b, k), k, 0) == Zeroed(b, k + 1)
  {
  }

  /** string_clear: zeros over the whole capacity, which stays. */
  method Clear(h: Heap, str: word, ghost t: seq<byte>, ghost n: nat)
    requires h.Valid() && (str == 0 || Is(h.view, str, t, n))
    modifies h, h.mem
    ensures h.Valid() && SameLow(old(h.mem[..]), h.mem[..]) && h.bs == old(h.bs)
    ensures str == 0 ==> h.view == old(h.view)
    ensures str != 0 ==> Is(h.view, str, [], n) && Frame(old(h.view), h.view, str)
    ensures str != 0 ==> Data(h.view, str) == Data(old(h.view), str)
    ensures str != 0 ==> h.view[Data(h.view, str)][..n] == seq(n, _ => 0)
    ensures str != 0 ==> |h.view[Data(h.view, str)]| == |old(h.view)[Data(h.view, str)]|
  {
    if str == 0 {
      return;
    }
    ghost var v, d := h.view, Data(h.view, str);
    assert Zeroed(v[d], 0) == v[d];
    var i := 0;
    var size := h.PeekWord(str, 4);
    while i < size
      invariant i <= n == size && h.Valid() && SameLow(old(h.mem[..]), h.mem[..]) && h.bs == old(h.bs)
      invariant h.view == v[d := Zeroed(v[d], i)]
    {
      ZeroedStep(v[d], i);
      WriteAt(h, str, i, 0);
      i := i + 1;
      size := h.PeekWord(str, 4);
    }
    Cleared(v, str, t, n, h.view);
  }

  lemma Cleared(v: View, p: nat, t: seq<byte>, n: nat, w: View)
    requires Is(v, p, t, n) && w == v[Data(v, p) := Zeroed(v[Data(v, p)], n)]
    ensures Is(w, p, [], n) && Frame(v, w, p) && Data(w, p) == Data(v, p)
    ensures w[Data(v, p)][..n] == seq(n, _ => 0)
  {
  }

  // ---------- string_addnum ----------

  /** The number buffer: none yet, a chunk of low memory, or a live block outside the string at p. */
  ghost predicate NumBuffer(v: View, nb: nat, p: nat) {
    nb == 0 || nb + MAX_INT_CHARS <= HEAP_START || (nb in Rest(v, p) && MAX_INT_CHARS <= |v[nb]|)
  }

  /** Low memory is the same but for the number buffer. */
  ghost predicate SameLowBut(m: seq<byte>, m': seq<byte>, nb: nat) {
    && |m| == |m'|
    && forall k :: 0 <= k < HEAP_START && k < |m| && !(nb <= k < nb + MAX_INT_CHARS) ==> m'[k] == m[k]
  }

  lemma LowButTrans(m: seq<byte>, m1: seq<byte>, m2: seq<byte>, nb: nat)
    requires SameLowBut(m, m1, nb) && SameLow(m1, m2)
    ensures SameLowBut(m, m2, nb)
  {
  }

  /** tostring into the number buffer leaves the text there and every other block alone. */
  method WriteNumber(h: Heap, nb: word, num: int, base: nat, ghost p: nat) returns (ghost q: nat)
    requires h.Valid() && nb != 0 && NumBuffer(h.view, nb, p)
    requires INT_MIN < num <= INT_MAX && ValidBase(base) && |IntText(num, base)| < MAX_INT_CHARS
    modifies h, h.mem
    ensures h.Valid() && h.bs == old(h.bs) && SameLowBut(old(h.mem[..]), h.mem[..], nb)
    ensures nb + MAX_INT_CHARS <= HEAP_START ==> q == 0 && h.view == old(h.view)
    ensures HEAP_START < nb + MAX_INT_CHARS ==>
              q == nb && nb in h.view && h.view == old(h.view)[nb := WithText(old(h.view)[nb], 0, IntText(num, base))]
    ensures q == 0 ==> CStrAt(h.mem[..], nb, IntText(num, base))
  {
    ghost var s;
    q, s := NumberReady(h, nb, IntText(num, base), p);
    WriteInto(h, nb, num, base, s);
  }

  /** The heap s that a number text in the buffer leaves; q is the block it is in, 0 for low memory. */
  lemma NumberReady(h: Heap, nb: nat, t: seq<byte>, p: nat) returns (q: nat, s: HState)
    requires h.Valid() && nb != 0 && NumBuffer(h.view, nb, p) && |t| < MAX_INT_CHARS && NoNul(t)
    ensures nb + |t| < h.mem.Length && s == HState(WithText(h.mem[..], nb, t), h.bs) && Inv(s)
    ensures SameLowBut(h.mem[..], s.m, nb)
    ensures nb + MAX_INT_CHARS <= HEAP_START ==> q == 0 && ViewOf(s) == h.view
    ensures HEAP_START < nb + MAX_INT_CHARS ==>
              q == nb && nb in h.view && ViewOf(s) == h.view[nb := WithText(h.view[nb], 0, t)]
    ensures q == 0 ==> CStrAt(s.m, nb, t)
  {
    if nb + MAX_INT_CHARS <= HEAP_START {
      q := 0;
      s := LowText(h, nb, t);
      LowCStr(h.mem[..], nb, t);
      WithTextFrame(h.mem[..], nb, t);
    } else {
      q := nb;
      s := CopyEffect(h, nb, 0, t);
    }
  }

  method WriteInto(h: Heap, nb: word, num: int, base: nat, ghost s: HState)
    requires INT_MIN < num <= INT_MAX && ValidBase(base) && nb + |IntText(num, base)| < h.mem.Length
    requires s == HState(WithText(h.mem[..], nb, IntText(num, base)), h.bs) && Inv(s)
    modifies h, h.mem
    ensures h.Valid() && h.bs == old(h.bs) && h.view == ViewOf(s) && h.mem[..] == s.m
  {
    ToString(h.mem, nb, num, base);
    h.Adopt(s);
  }

  lemma LowCStr(m: seq<byte>, nb: nat, t: seq<byte>)
    requires nb + |t| < |m| && NoNul(t)
    ensures CStrAt(WithText(m, nb, t), nb, t)
  {
    WithTextAppends(m, nb, [], t);
    assert [] + t == t;
  }

  lemma LowText(h: Heap, nb: nat, t: seq<byte>) returns (s: HState)
    requires h.Valid() && nb + |t| < HEAP_START
    ensures nb + |t| < h.mem.Length
    ensures s == HState(WithText(h.mem[..], nb, t), h.bs) && Inv(s) && ViewOf(s) == h.view
  {
    h.Opened();
    s := HState(WithText(h.mem[..], nb, t), h.bs);
    LowWrite(h.State(), s.m);
  }

  /** The row once there is a number buffer; the string stays where it is. */
  function Buffered(s: Slot, nb: nat): Slot {
    if nb == 0 then Slot(Served(s.bs, RoundUp(MAX_INT_CHARS)), s.d) else s
  }

  /** There is no block for the number buffer, or behind it the string can not grow to k bytes. */
  ghost predicate NumberStuck(s: Slot, n: nat, k: nat, nb: nat) {
    || (nb == 0 && Starved(s.bs, RoundUp(MAX_INT_CHARS)))
    || Stuck(Buffered(s, nb), Lacking(n, k))
  }

  /** From v to w the number text x went into the buffer nb and behind the text t of the string at p. */
  ghost predicate NumberAppended(v: View, w: View, p: nat, t: seq<byte>, n: nat, x: seq<byte>, nb0: nat, nb: nat) {
    && Is(w, p, t + x, Max(n, |t| + |x| + 1))
    && nb != 0 && NumBuffer(w, nb, p)
    && (if nb0 != 0 then nb == nb0 else nb !in v && HEAP_START < nb)
    && Frame(v - {nb}, w - {nb}, p)
  }

  /** string_addnum: the signed digits of num are appended; the number buffer is allocated on first use. */
  method AddNum(h: Heap, str: word, num: int, base: nat, numbuffer: word, ghost t: seq<byte>, ghost n: nat)
    returns (halted: bool, nb: word)
    requires h.Valid() && (str == 0 || (Is(h.view, str, t, n) && NumBuffer(h.view, numbuffer, str)))
    requires INT_MIN < num <= INT_MAX && ValidBase(base) && |IntText(num, base)| < MAX_INT_CHARS
    modifies h, h.mem
    ensures h.Valid()
    ensures halted <==>
      str != 0 && NumberStuck(old(SlotOf(h.bs, h.view, str)), n, |t| + |IntText(num, base)| + 1, numbuffer)
    ensures str == 0 ==> nb == numbuffer && h.view == old(h.view) && h.bs == old(h.bs) && h.mem[..] == old(h.mem[..])
    ensures str != 0 && !halted ==>
      && NumberAppended(old(h.view), h.view, str, t, n, IntText(num, base), numbuffer, nb)
      && (numbuffer == 0 ==> nb == PlacedAt(old(h.bs), RoundUp(MAX_INT_CHARS)))
      && SlotOf(h.bs, h.view, str) ==
         Regrown(Buffered(old(SlotOf(h.bs, h.view, str)), numbuffer), Lacking(n, |t| + |IntText(num, base)| + 1))
      && SameLowBut(old(h.mem[..]), h.mem[..], nb)
  {
    hide Starved, Stuck, Regrown, Buffered, PlacedAt, Is, Frame, Argument, Data, Rest, IntText, Lacking;
    hide SameLow, SameLowBut, Putting, NumberAppended;
    nb, halted := numbuffer, false;
    if str == 0 {
      return;
    }
    ghost var v0, q := h.view, 0;
    halted, nb, q := PutNumber(h, str, num, base, numbuffer, t, n);
    if halted {
      return;
    }
    ghost var v2, m2 := h.view, h.mem[..];
    halted := Add(h, str, nb, t, n, IntText(num, base), q);
    if !halted {
      LowButTrans(old(h.mem[..]), m2, h.mem[..], nb);
      NumberAdded(v0, v2, h.view, str, t, n, IntText(num, base), numbuffer, nb);
    }
  }

  /** The number buffer, allocated if need be, holds the digits; the string is as it was. */
  method PutNumber(h: Heap, str: word, num: int, base: nat, numbuffer: word, ghost t: seq<byte>, ghost n: nat)
    returns (halted: bool, nb: word, ghost q: nat)
    requires h.Valid() && str != 0 && Is(h.view, str, t, n) && NumBuffer(h.view, numbuffer, str)
    requires INT_MIN < num <= INT_MAX && ValidBase(base) && |IntText(num, base)| < MAX_INT_CHARS
    modifies h, h.mem
    ensures h.Valid()
    ensures halted <==> numbuffer == 0 && Starved(old(h.bs), RoundUp(MAX_INT_CHARS))
    ensures !halted ==>
      && nb != 0 && str in h.view && Is(h.view, str, t, n)
      && SlotOf(h.bs, h.view, str) == Buffered(old(SlotOf(h.bs, h.view, str)), numbuffer)
      && (numbuffer == 0 ==> nb == PlacedAt(old(h.bs), RoundUp(MAX_INT_CHARS)))
      && SameLowBut(old(h.mem[..]), h.mem[..], nb)
      && Argument(h.mem[..], h.view, nb, IntText(num, base), q, str)
      && Putting(old(h.view), h.view, str, numbuffer, nb)
  {
    ghost var v0 := h.view;
    nb, halted, q := numbuffer, false, 0;
    BlockAddress(h, str);
    if nb == 0 {
      SmallServable(h, MAX_INT_CHARS);
      halted, nb := h.Malloc(MAX_INT_CHARS);
      if halted {
        return;
      }
    }
    ghost var v1 := h.view;
    q := WriteNumber(h, nb, num, base, str);
    NumberWritten(v0, v1, h.view, str, t, n, nb, IntText(num, base));
  }

  /** From v to w only the number buffer changed or came, which the string at p does not use. */
  ghost predicate Putting(v: View, w: View, p: nat, nb0: nat, nb: nat) {
    && nb != 0 && nb != p && NumBuffer(w, nb, p)
    && (if nb0 != 0 then nb == nb0 else nb !in v && HEAP_START < nb)
    && Data(w, p) == Data(v, p) && Rest(w, p) - {nb} == Rest(v, p) - {nb}
    && p in v && Data(v, p) in v && (forall q :: q in v && q != nb ==> q in w)
    && (HEAP_START < nb + MAX_INT_CHARS ==> nb in Rest(w, p))
  }

  lemma NumberAdded(v: View, v2: View, w: View, p: nat, t: seq<byte>, n: nat, x: seq<byte>, nb0: nat, nb: nat)
    requires Putting(v, v2, p, nb0, nb) && Frame(v2, w, p) && p in v2
    requires Is(w, p, t + x, Max(n, |t| + |x| + 1))
    ensures NumberAppended(v, w, p, t, n, x, nb0, nb)
  {
    var a, b := v - {nb}, w - {nb};
    assert Data(a, p) == Data(v, p) && Data(b, p) == Data(w, p);
    assert Rest(b, p) == Rest(w, p) - {nb};
    assert Rest(a, p) == Rest(v, p) - {nb};
    if HEAP_START < nb + MAX_INT_CHARS {
      assert nb in Rest(w, p) && Rest(w, p)[nb] == Rest(v2, p)[nb];
    }
  }

  lemma NumberWritten(v0: View, v1: View, v2: View, p: nat, t: seq<byte>, n: nat, nb: nat, x: seq<byte>)
    requires Is(v0, p, t, n) && nb != 0 && |x| < MAX_INT_CHARS && NoNul(x)
    requires || (v1 == v0 && NumBuffer(v0, nb, p))
             || (nb !in v0 && nb in v1 && MAX_INT_CHARS <= |v1[nb]| && v1 == v0[nb := v1[nb]])
    requires if nb + MAX_INT_CHARS <= HEAP_START then v2 == v1
             else nb in v1 && |x| < |v1[nb]| && v2 == v1[nb := WithText(v1[nb], 0, x)]
    ensures Is(v2, p, t, n) && NumBuffer(v2, nb, p) && Data(v2, p) == Data(v0, p)
    ensures |v2[Data(v0, p)]| == |v0[Data(v0, p)]|
    ensures Rest(v2, p) - {nb} == Rest(v0, p) - {nb}
    ensures HEAP_START < nb + MAX_INT_CHARS ==> nb in Rest(v2, p) && CStrAt(v2[nb], 0, x)
  {
    if HEAP_START < nb + MAX_INT_CHARS {
      WithTextAppends(v1[nb], 0, [], x);
      assert [] + x == x;
    }
  }
}
