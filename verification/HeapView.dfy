/** The heap as its callers see it: a finite map from the pointers handed out to the bytes behind them. */
module HeapView {
  import opened Bytes
  import opened Blocks
  import opened HeapState

  type View = map<nat, seq<byte>>

  ghost predicate Used(bs: seq<Block>, b: Block) {
    b in bs && !b.free
  }

  /** Every pointer handed out and not freed, with the bytes behind it. */
  ghost function ViewOf(s: HState): View
    requires Apart(s.bs, |s.m|)
  {
    map b | b in s.bs && !b.free :: b.Data() := s.m[b.Data()..b.End()]
  }

  lemma ViewHas(s: HState, b: Block)
    requires Apart(s.bs, |s.m|) && Used(s.bs, b)
    ensures b.End() <= |s.m|
    ensures b.Data() in ViewOf(s) && ViewOf(s)[b.Data()] == s.m[b.Data()..b.End()]
  {
  }

  lemma ViewBlock(s: HState, p: nat) returns (i: nat, b: Block)
    requires Apart(s.bs, |s.m|) && p in ViewOf(s)
    ensures i < |s.bs| && s.bs[i] == b && !b.free && b.Data() == p && b.End() <= |s.m|
    ensures ViewOf(s)[p] == s.m[p..b.End()]
  {
    b :| b in s.bs && !b.free && b.Data() == p;
    i :| 0 <= i < |s.bs| && s.bs[i] == b;
    ViewHas(s, b);
  }

  lemma FreeNotOwned(s: HState, i: nat)
    requires Apart(s.bs, |s.m|) && i < |s.bs| && s.bs[i].free
    ensures s.bs[i].Data() !in ViewOf(s)
  {
    forall b | b in s.bs && b.Data() == s.bs[i].Data()
      ensures b == s.bs[i]
    {
    }
  }

  /** Distinct pointers own disjoint stretches of memory, none of which reaches into low memory. */
  lemma ViewDisjoint(s: HState, p: nat, q: nat)
    requires Apart(s.bs, |s.m|) && p in ViewOf(s) && q in ViewOf(s) && p != q
    ensures p + |ViewOf(s)[p]| <= q || q + |ViewOf(s)[q]| <= p
    ensures HEAP_START + HEADER_SIZE <= p
  {
    var i, b := ViewBlock(s, p);
    var j, c := ViewBlock(s, q);
  }

  // ---------- how the steps change the view ----------

  /** Used block b of s, unless it sits at p, is a used block of t with the same bytes in it. */
  ghost predicate Kept(s: HState, t: HState, p: nat, b: Block) {
    Used(s.bs, b) && b.Data() != p ==>
      && Used(t.bs, b)
      && b.End() <= |s.m| && b.End() <= |t.m|
      && t.m[b.Data()..b.End()] == s.m[b.Data()..b.End()]
  }

  lemma KeptBindings(s: HState, t: HState, p: nat)
    requires Apart(s.bs, |s.m|) && Apart(t.bs, |t.m|)
    requires forall b :: Kept(s, t, p, b)
    ensures forall q :: q in ViewOf(s) && q != p ==> q in ViewOf(t) && ViewOf(t)[q] == ViewOf(s)[q]
  {
    forall q | q in ViewOf(s) && q != p
      ensures q in ViewOf(t) && ViewOf(t)[q] == ViewOf(s)[q]
    {
      var i, b := ViewBlock(s, q);
      assert Kept(s, t, p, b);
      ViewHas(t, b);
    }
  }

  /** Steps that keep every block but the one at p keep every binding but the one of p. */
  lemma ViewStep(s: HState, t: HState, p: nat)
    requires Apart(s.bs, |s.m|) && Apart(t.bs, |t.m|)
    requires forall b :: Kept(s, t, p, b)
    requires forall b :: Kept(t, s, p, b)
    ensures ViewOf(t) - {p} == ViewOf(s) - {p}
  {
    KeptBindings(s, t, p);
    KeptBindings(t, s, p);
  }

  /** t is s with is_free of block i rewritten. */
  ghost predicate Marked(s: HState, t: HState, i: nat, f: bool)
    requires i < |s.bs|
  {
    && t.bs == MarkAt(s.bs, i, f)
    && |t.m| == |s.m|
    && forall k :: 0 <= k < |s.m| && !(s.bs[i].addr <= k < s.bs[i].Data()) ==> t.m[k] == s.m[k]
  }

  lemma MarkKeepsPayload(s: HState, t: HState, i: nat, f: bool, b: Block)
    requires Apart(s.bs, |s.m|) && i < |s.bs| && Marked(s, t, i, f)
    requires b in s.bs
    ensures b.End() <= |s.m| && t.m[b.Data()..b.End()] == s.m[b.Data()..b.End()]
  {
    SliceSame(s.m, t.m, b.Data(), b.End());
  }

  lemma MarkKeeps(s: HState, t: HState, i: nat, f: bool)
    requires Apart(s.bs, |s.m|) && i < |s.bs| && Marked(s, t, i, f)
    ensures forall b :: Kept(s, t, s.bs[i].Data(), b)
  {
    forall b | Used(s.bs, b) && b.Data() != s.bs[i].Data()
      ensures Kept(s, t, s.bs[i].Data(), b)
    {
      var k :| 0 <= k < |s.bs| && s.bs[k] == b;
      assert t.bs[k] == b;
      MarkKeepsPayload(s, t, i, f, b);
    }
  }

  lemma MarkAddsNone(s: HState, t: HState, i: nat, f: bool)
    requires Apart(s.bs, |s.m|) && i < |s.bs| && Marked(s, t, i, f)
    ensures forall b :: Kept(t, s, s.bs[i].Data(), b)
  {
    forall b | Used(t.bs, b) && b.Data() != s.bs[i].Data()
      ensures Kept(t, s, s.bs[i].Data(), b)
    {
      var k :| 0 <= k < |t.bs| && t.bs[k] == b;
      assert s.bs[k] == b;
      MarkKeepsPayload(s, t, i, f, b);
    }
  }

  lemma MarkView(s: HState, t: HState, i: nat, f: bool)
    requires Apart(s.bs, |s.m|) && Apart(t.bs, |t.m|) && i < |s.bs| && Marked(s, t, i, f)
    ensures ViewOf(t) - {s.bs[i].Data()} == ViewOf(s) - {s.bs[i].Data()}
  {
    MarkKeeps(s, t, i, f);
    MarkAddsNone(s, t, i, f);
    ViewStep(s, t, s.bs[i].Data());
  }

  lemma Rebuild(v: View, w: View, p: nat)
    requires w - {p} == v - {p} && p in w
    ensures w == v[p := w[p]]
  {
    assert forall q :: q in w && q != p ==> q in w - {p};
    assert forall q :: q in v && q != p ==> q in v - {p};
    assert forall q :: q in w && q != p ==> w[q] == (w - {p})[q] == v[q];
  }

  lemma RebuildWithout(v: View, w: View, p: nat)
    requires w - {p} == v - {p} && p !in w
    ensures w == v - {p}
  {
    assert w - {p} == w;
  }

  lemma MarkIsMarked(s: HState, i: nat, f: bool)
    requires Inv(s) && i < |s.bs|
    ensures Inv(Mark(s, i, f)) && Marked(s, Mark(s, i, f), i, f)
  {
    MarkInv(s, i, f);
  }

  lemma TakenView(s: HState, t: HState, i: nat)
    requires Apart(s.bs, |s.m|) && Apart(t.bs, |t.m|) && i < |s.bs| && Marked(s, t, i, false)
    ensures ViewOf(t) == ViewOf(s)[s.bs[i].Data() := s.m[s.bs[i].Data()..s.bs[i].End()]]
  {
    var p, b := s.bs[i].Data(), t.bs[i];
    assert b == s.bs[i].(free := false);
    MarkView(s, t, i, false);
    MarkKeepsPayload(s, t, i, false, s.bs[i]);
    ViewHas(t, b);
    assert ViewOf(t)[p] == s.m[p..s.bs[i].End()];
    Rebuild(ViewOf(s), ViewOf(t), s.bs[i].Data());
  }

  lemma FreedView(s: HState, t: HState, i: nat)
    requires Apart(s.bs, |s.m|) && Apart(t.bs, |t.m|) && i < |s.bs| && Marked(s, t, i, true)
    ensures ViewOf(t) == ViewOf(s) - {s.bs[i].Data()}
  {
    MarkView(s, t, i, true);
    FreeNotOwned(t, i);
    RebuildWithout(ViewOf(s), ViewOf(t), s.bs[i].Data());
  }

  /** Taking free block i adds its payload to the view and changes nothing else. */
  lemma TakeView(s: HState, i: nat)
    requires Inv(s) && i < |s.bs| && s.bs[i].free
    ensures Inv(Mark(s, i, false)) && s.bs[i].Data() !in ViewOf(s)
    ensures ViewOf(Mark(s, i, false)) == ViewOf(s)[s.bs[i].Data() := s.m[s.bs[i].Data()..s.bs[i].End()]]
  {
    MarkIsMarked(s, i, false);
    TakenView(s, Mark(s, i, false), i);
    FreeNotOwned(s, i);
  }

  /** Freeing block i removes its pointer from the view and changes nothing else. */
  lemma FreeView(s: HState, i: nat)
    requires Inv(s) && i < |s.bs|
    ensures Inv(Mark(s, i, true))
    ensures ViewOf(Mark(s, i, true)) == ViewOf(s) - {s.bs[i].Data()}
  {
    MarkIsMarked(s, i, true);
    FreedView(s, Mark(s, i, true), i);
  }

  lemma SplitHasOthers(bs: seq<Block>, i: nat, n: word, b: Block)
    requires i < |bs| && n + HEADER_SIZE <= bs[i].size && b in bs && b.Data() != bs[i].Data()
    ensures b in SplitAt(bs, i, n)
  {
    var k :| 0 <= k < |bs| && bs[k] == b;
    assert SplitAt(bs, i, n)[if k < i then k else k + 1] == b;
  }

  lemma SplitOrigin(bs: seq<Block>, i: nat, n: word, b: Block)
    requires i < |bs| && n + HEADER_SIZE <= bs[i].size
    requires b in SplitAt(bs, i, n) && !b.free && b.Data() != bs[i].Data()
    ensures b in bs
  {
    var k :| 0 <= k < |SplitAt(bs, i, n)| && SplitAt(bs, i, n)[k] == b;
    assert bs[if k < i then k else k - 1] == b;
  }

  lemma SplitKeepsPayload(s: HState, t: HState, i: nat, n: word, b: Block)
    requires Apart(s.bs, |s.m|) && i < |s.bs| && n + HEADER_SIZE <= s.bs[i].size && SplitMemory(s, s.bs[i], n, t.m)
    requires b in s.bs && b.Data() != s.bs[i].Data()
    ensures b.End() <= |s.m| && t.m[b.Data()..b.End()] == s.m[b.Data()..b.End()]
  {
    SliceSame(s.m, t.m, b.Data(), b.End());
  }

  lemma SplitKeeps(s: HState, t: HState, i: nat, n: word)
    requires Apart(s.bs, |s.m|) && i < |s.bs| && n + HEADER_SIZE <= s.bs[i].size && SplitMemory(s, s.bs[i], n, t.m)
    requires t.bs == SplitAt(s.bs, i, n)
    ensures forall b :: Kept(s, t, s.bs[i].Data(), b)
  {
    forall b | Used(s.bs, b) && b.Data() != s.bs[i].Data()
      ensures Kept(s, t, s.bs[i].Data(), b)
    {
      SplitHasOthers(s.bs, i, n, b);
      SplitKeepsPayload(s, t, i, n, b);
    }
  }

  lemma SplitAddsNone(s: HState, t: HState, i: nat, n: word)
    requires Apart(s.bs, |s.m|) && i < |s.bs| && n + HEADER_SIZE <= s.bs[i].size && SplitMemory(s, s.bs[i], n, t.m)
    requires t.bs == SplitAt(s.bs, i, n)
    ensures forall b :: Kept(t, s, s.bs[i].Data(), b)
  {
    forall b | Used(t.bs, b) && b.Data() != s.bs[i].Data()
      ensures Kept(t, s, s.bs[i].Data(), b)
    {
      SplitOrigin(s.bs, i, n, b);
      SplitKeepsPayload(s, t, i, n, b);
    }
  }

  /** Splitting free block i at n adds its first n bytes to the view and changes nothing else. */
  lemma CutView(s: HState, i: nat, n: word)
    requires Inv(s) && i < |s.bs| && s.bs[i].free && n % 4 == 0 && n + HEADER_SIZE <= s.bs[i].size
    ensures Inv(Split(s, i, n)) && |Split(s, i, n).m| == |s.m| && s.bs[i].Data() !in ViewOf(s)
    ensures ViewOf(Split(s, i, n)) == ViewOf(s)[s.bs[i].Data() := s.m[s.bs[i].Data()..s.bs[i].Data() + n]]
  {
    var t := Split(s, i, n);
    SplitInv(s, i, n);
    FreeNotOwned(s, i);
    SplitKeeps(s, t, i, n);
    SplitAddsNone(s, t, i, n);
    ViewStep(s, t, s.bs[i].Data());
    CutPayload(s, t, i, n);
    Rebuild(ViewOf(s), ViewOf(t), s.bs[i].Data());
  }

  lemma CutBytes(s: HState, b: Block, n: word, m: seq<byte>)
    requires b.End() <= |s.m| && n + HEADER_SIZE <= b.size && SplitMemory(s, b, n, m)
    ensures m[b.Data()..b.Data() + n] == s.m[b.Data()..b.Data() + n]
  {
    SliceSame(s.m, m, b.Data(), b.Data() + n);
  }

  lemma CutPayload(s: HState, t: HState, i: nat, n: word)
    requires i < |s.bs| && s.bs[i].End() <= |s.m| && n + HEADER_SIZE <= s.bs[i].size && SplitMemory(s, s.bs[i], n, t.m)
    requires t.bs == SplitAt(s.bs, i, n) && Apart(t.bs, |t.m|)
    ensures var p := s.bs[i].Data(); p in ViewOf(t) && ViewOf(t)[p] == s.m[p..p + n]
  {
    hide SplitMemory, ViewOf;
    CutBytes(s, s.bs[i], n, t.m);
    var b := t.bs[i];
    assert b == Block(s.bs[i].addr, s.bs[i].prev, n, false);
    assert b.Data() == s.bs[i].Data() && b.End() == s.bs[i].Data() + n;
    ViewHas(t, b);
  }

  lemma PokeKeeps(s: HState, t: HState, b: Block)
    requires Apart(s.bs, |s.m|) && b in s.bs && t.bs == s.bs && |t.m| == |s.m|
    requires forall k :: 0 <= k < |s.m| && !(b.Data() <= k < b.End()) ==> t.m[k] == s.m[k]
    ensures forall c :: Kept(s, t, b.Data(), c) && Kept(t, s, b.Data(), c)
  {
    forall c | Used(s.bs, c) && c.Data() != b.Data()
      ensures c.End() <= |s.m| && t.m[c.Data()..c.End()] == s.m[c.Data()..c.End()]
    {
      SliceSame(s.m, t.m, c.Data(), c.End());
    }
  }

  lemma WrittenView(s: HState, t: HState, b: Block)
    requires Apart(s.bs, |s.m|) && Used(s.bs, b) && t.bs == s.bs && |t.m| == |s.m|
    requires forall k :: 0 <= k < |s.m| && !(b.Data() <= k < b.End()) ==> t.m[k] == s.m[k]
    ensures b.End() <= |s.m| && ViewOf(t) == ViewOf(s)[b.Data() := t.m[b.Data()..b.End()]]
  {
    PokeKeeps(s, t, b);
    ViewStep(s, t, b.Data());
    ViewHas(t, b);
    Rebuild(ViewOf(s), ViewOf(t), b.Data());
  }

  /** Writes behind a live pointer change its bytes in the view and nothing else, headers included. */
  lemma WriteView(s: HState, b: Block, m: seq<byte>)
    requires Inv(s) && Used(s.bs, b) && |m| == |s.m|
    requires forall k :: 0 <= k < |m| && !(b.Data() <= k < b.End()) ==> m[k] == s.m[k]
    ensures b.End() <= |m| && Inv(HState(m, s.bs))
    ensures ViewOf(HState(m, s.bs)) == ViewOf(s)[b.Data() := m[b.Data()..b.End()]]
  {
    PayloadFrame(s.m, m, s.bs, b);
    WrittenView(s, HState(m, s.bs), b);
  }

  // ---------- loads and stores through live pointers ----------

  lemma PeekAt(s: HState, p: nat, k: nat)
    requires Apart(s.bs, |s.m|) && p in ViewOf(s) && k < |ViewOf(s)[p]|
    ensures p + k < |s.m| && s.m[p + k] == ViewOf(s)[p][k]
  {
    var i, b := ViewBlock(s, p);
  }

  lemma PokeAt(s: HState, p: nat, k: nat, x: byte)
    requires Inv(s) && p in ViewOf(s) && k < |ViewOf(s)[p]|
    ensures p + k < |s.m| && Inv(HState(Put(s.m, p + k, x), s.bs)) && SameLow(s.m, Put(s.m, p + k, x))
    ensures ViewOf(HState(Put(s.m, p + k, x), s.bs)) == ViewOf(s)[p := Put(ViewOf(s)[p], k, x)]
  {
    var i, b := ViewBlock(s, p);
    PutInside(s.m, p, b.End(), p + k, x);
    PutSlice(s.m, p, b.End(), k, x);
    WriteView(s, b, Put(s.m, p + k, x));
  }

  lemma PutInside(m: seq<byte>, a: nat, b: nat, i: nat, x: byte)
    requires a <= i < b <= |m|
    ensures |Put(m, i, x)| == |m|
    ensures forall k :: 0 <= k < |m| && !(a <= k < b) ==> Put(m, i, x)[k] == m[k]
  {
  }

  lemma PutSlice(m: seq<byte>, a: nat, b: nat, k: nat, x: byte)
    requires a <= b <= |m| && k < b - a
    ensures Put(m, a + k, x)[a..b] == Put(m[a..b], k, x)
  {
  }

  lemma PeekWordAt(s: HState, p: nat, k: nat)
    requires Apart(s.bs, |s.m|) && p in ViewOf(s) && k + 4 <= |ViewOf(s)[p]|
    ensures p + k + 4 <= |s.m| && Load(s.m, p + k) == Load(ViewOf(s)[p], k)
  {
    var i, b := ViewBlock(s, p);
    LoadSlice(s.m, p, b.End(), k);
  }

  lemma LoadSlice(m: seq<byte>, a: nat, b: nat, k: nat)
    requires a <= b <= |m| && k + 4 <= b - a
    ensures Load(m[a..b], k) == Load(m, a + k)
  {
    var x, y := m[a..b][k..k + 4], m[a + k..a + k + 4];
    assert forall j :: 0 <= j < 4 ==> x[j] == y[j];
    assert x == y;
  }

  lemma StoreSlice(m: seq<byte>, a: nat, b: nat, k: nat, v: word)
    requires a <= b <= |m| && k + 4 <= b - a
    ensures Store(m, a + k, v)[a..b] == Store(m[a..b], k, v)
  {
    var x := Store(m, a + k, v);
    LoadSlice(x, a, b, k);
    assert Stored(m[a..b], k, v, x[a..b]);
    StoredUnique(m[a..b], k, v, x[a..b], Store(m[a..b], k, v));
  }

  lemma PokeWordAt(s: HState, p: nat, k: nat, v: word)
    requires Inv(s) && p in ViewOf(s) && k + 4 <= |ViewOf(s)[p]|
    ensures p + k + 4 <= |s.m| && Inv(HState(Store(s.m, p + k, v), s.bs)) && SameLow(s.m, Store(s.m, p + k, v))
    ensures ViewOf(HState(Store(s.m, p + k, v), s.bs)) == ViewOf(s)[p := Store(ViewOf(s)[p], k, v)]
  {
    var i, b := ViewBlock(s, p);
    StoreSlice(s.m, p, b.End(), k, v);
    WriteView(s, b, Store(s.m, p + k, v));
  }

  /** Writes below the heap change neither the headers nor the view. */
  lemma LowWrite(s: HState, m: seq<byte>)
    requires Inv(s) && |m| == |s.m| && forall k :: HEAP_START <= k < |m| ==> m[k] == s.m[k]
    ensures Inv(HState(m, s.bs)) && ViewOf(HState(m, s.bs)) == ViewOf(s)
  {
    forall j | 0 <= j < |s.bs|
      ensures Encodes(m, s.bs, j)
    {
      assert Encodes(s.m, s.bs, j);
      SameHeader(s.m, m, s.bs, s.bs, j, j);
    }
    LowView(s, HState(m, s.bs));
  }

  lemma LowView(s: HState, t: HState)
    requires Apart(s.bs, |s.m|) && t.bs == s.bs && |t.m| == |s.m|
    requires forall k :: HEAP_START <= k < |s.m| ==> t.m[k] == s.m[k]
    ensures ViewOf(t) == ViewOf(s)
  {
    forall b | Used(s.bs, b)
      ensures t.m[b.Data()..b.End()] == s.m[b.Data()..b.End()]
    {
      SliceSame(s.m, t.m, b.Data(), b.End());
    }
  }

  // ---------- the number of live pointers ----------

  ghost function OwnedBy(bs: seq<Block>): set<nat> {
    set b | b in bs && !b.free :: b.Data()
  }

  lemma OwnedSnoc(ds: seq<Block>, b: Block)
    ensures OwnedBy(ds + [b]) == OwnedBy(ds) + if b.free then {} else {b.Data()}
  {
    assert forall c :: c in ds + [b] <==> c in ds || c == b;
  }

  lemma {:induction false} OwnedCount(bs: seq<Block>, top: nat)
    requires Apart(bs, top)
    ensures |OwnedBy(bs)| == Count(bs, false)
  {
    if bs != [] {
      var ds, b := bs[..|bs| - 1], bs[|bs| - 1];
      OwnedCount(ds, top);
      assert bs == ds + [b];
      OwnedSnoc(ds, b);
      NotOwnedBefore(bs, top);
    }
  }

  lemma NotOwnedBefore(bs: seq<Block>, top: nat)
    requires Apart(bs, top) && bs != []
    ensures bs[|bs| - 1].Data() !in OwnedBy(bs[..|bs| - 1])
  {
    LastNotBefore(bs, top);
  }

  /** used_blocks counts exactly the pointers handed out and not freed. */
  lemma UsedBlocksAreLive(s: HState)
    requires Apart(s.bs, |s.m|)
    ensures |ViewOf(s)| == Count(s.bs, false)
  {
    OwnedCount(s.bs, |s.m|);
    assert ViewOf(s).Keys == OwnedBy(s.bs);
    assert |ViewOf(s)| == |ViewOf(s).Keys|;
  }

  // ---------- the bytes behind them ----------

  ghost function Pick(v: View): (p: nat)
    requires v != map[]
    ensures p in v
  {
    var p :| p in v;
    p
  }

  /** How many bytes are behind all pointers of the view together. */
  ghost function Held(v: View): nat
    decreases |v|
  {
    if v == map[] then 0
    else
      var p := Pick(v);
      Fewer(v, p);
      |v[p]| + Held(v - {p})
  }

  lemma Fewer(v: View, p: nat)
    requires p in v
    ensures |v - {p}| < |v|
  {
    assert v.Keys == (v - {p}).Keys + {p};
    assert |v - {p}| == |(v - {p}).Keys| && |v| == |v.Keys|;
  }

  lemma {:induction false} HeldWithout(v: View, p: nat)
    requires p in v
    ensures Held(v) == |v[p]| + Held(v - {p})
    decreases |v|
  {
    var q := Pick(v);
    if q != p {
      Fewer(v, p);
      Fewer(v, q);
      HeldWithout(v - {q}, p);
      HeldWithout(v - {p}, q);
      assert v - {q} - {p} == v - {p} - {q};
    }
  }

  /** used_memory counts exactly the bytes behind the pointers handed out and not freed. */
  lemma UsedMemoryIsLive(s: HState)
    requires Apart(s.bs, |s.m|)
    ensures Total(s.bs, false) == Held(ViewOf(s))
  {
    HeldCount(s.m, s.bs);
  }

  lemma {:induction false} HeldCount(m: seq<byte>, bs: seq<Block>)
    requires Apart(bs, |m|)
    ensures Total(bs, false) == Held(ViewOf(HState(m, bs)))
  {
    if bs == [] {
      assert ViewOf(HState(m, bs)) == map[];
    } else {
      var ds, b := bs[..|bs| - 1], bs[|bs| - 1];
      HeldCount(m, ds);
      LastBlock(m, bs);
    }
  }

  lemma LastBlock(m: seq<byte>, bs: seq<Block>)
    requires Apart(bs, |m|) && bs != []
    ensures var ds, b := bs[..|bs| - 1], bs[|bs| - 1];
      Held(ViewOf(HState(m, bs))) == Held(ViewOf(HState(m, ds))) + if b.free then 0 else b.size
  {
    hide Held, ViewOf;
    var ds, b := bs[..|bs| - 1], bs[|bs| - 1];
    var v, w, p := ViewOf(HState(m, ds)), ViewOf(HState(m, bs)), b.Data();
    LastNotBefore(bs, |m|);
    LastKept(m, bs);
    ViewStep(HState(m, ds), HState(m, bs), p);
    NotInView(HState(m, ds), p);
    if b.free {
      FreeNotOwned(HState(m, bs), |bs| - 1);
      RebuildWithout(v, w, p);
    } else {
      ViewHas(HState(m, bs), b);
      HeldWithout(w, p);
    }
    assert v - {p} == v;
  }

  lemma NotInView(s: HState, p: nat)
    requires Apart(s.bs, |s.m|) && forall c :: c in s.bs ==> c.Data() != p
    ensures p !in ViewOf(s)
  {
  }

  lemma LastKept(m: seq<byte>, bs: seq<Block>)
    requires Apart(bs, |m|) && bs != []
    ensures var ds, b := bs[..|bs| - 1], bs[|bs| - 1];
      forall c :: Kept(HState(m, ds), HState(m, bs), b.Data(), c) && Kept(HState(m, bs), HState(m, ds), b.Data(), c)
  {
    var ds, b := bs[..|bs| - 1], bs[|bs| - 1];
    assert bs == ds + [b];
    forall c | c in bs && c.Data() != b.Data()
      ensures c in ds && c.End() <= |m|
    {
      assert c in ds + [b];
    }
  }

  lemma LastNotBefore(bs: seq<Block>, top: nat)
    requires Apart(bs, top) && bs != []
    ensures forall c :: c in bs[..|bs| - 1] ==> c.Data() != bs[|bs| - 1].Data()
  {
    forall c | c in bs[..|bs| - 1]
      ensures c.Data() != bs[|bs| - 1].Data()
    {
      var k :| 0 <= k < |bs| - 1 && bs[..|bs| - 1][k] == c;
      assert bs[k] == c;
    }
  }
}
