/** What kmalloc, kfree and krealloc do to a well-formed heap, and what they promise. */
module Allocator {
  import opened Bytes
  import opened RawMemory
  import opened Blocks
  import opened HeapState
  import opened HeapView

  /**
   * How a request ends: the machine halts, bytes that are not the caller's are overwritten before p comes back, the
   * store runs past the end of memory, or p comes back from a well-formed heap.
   */
  datatype Outcome = Halted | Corrupt(m: seq<byte>, p: nat) | Outside | Got(s: HState, p: nat)

  /** The address sum of splitblock wraps, so the split is not refused although the request cannot fit. */
  predicate SplitWraps(bs: seq<Block>, n: word) {
    Lone(bs) && RoundUp(n) + HEADER_SIZE >= WORD_LIMIT
  }

  lemma RootHasRoom(n: word)
    requires RoundUp(n) + HEADER_SIZE >= WORD_LIMIT
    ensures NewHeader(HEAP_START, RoundUp(n)) <= HEAP_START + 12
  {
    var x := HEAP_START + HEADER_SIZE + RoundUp(n) - WORD_LIMIT;
    assert Wrap(x + WORD_LIMIT) == x;
  }

  ghost function Kmalloc(s: HState, n: word): Outcome
    requires Inv(s)
  {
    var r := RoundUp(n);
    if SplitWraps(s.bs, n) then
      RootHasRoom(n);
      Corrupt(SplitBytes(s.m, HEAP_START, NewHeader(HEAP_START, r), r), HEAP_START + HEADER_SIZE)
    else
      match Place(s.bs, r)
      case OutOfMemory => Halted
      case RefusedSplit => Got(s, HEAP_START + HEADER_SIZE)
      case Cut(i) => Got(Split(s, i, r), s.bs[i].Data())
      case Whole(i) => Got(Mark(s, i, false), s.bs[i].Data())
  }

  /** On an untouched heap splitblock stays inside memory, even when its address sum wraps. */
  lemma LoneInside(s: HState, n: word)
    requires Inv(s) && Lone(s.bs)
    ensures HEAP_START + HEADER_SIZE <= |s.m| <= WORD_LIMIT
    ensures GoesAhead(s.m, HEAP_START, RoundUp(n)) ==> NewHeader(HEAP_START, RoundUp(n)) + HEADER_SIZE <= |s.m|
  {
    HeaderRead(s, 0);
    if SplitWraps(s.bs, n) {
      RootHasRoom(n);
    } else if RoundUp(n) + HEADER_SIZE <= s.bs[0].size {
      SplitBlockSplits(s, 0, RoundUp(n));
    }
  }

  /** A request on an untouched heap ends as splitblock on the root leaves it. */
  lemma LoneOutcome(s: HState, n: word)
    requires Inv(s) && Lone(s.bs) && !SplitWraps(s.bs, n)
    requires HEAP_START + HEADER_SIZE <= |s.m| <= WORD_LIMIT
    requires GoesAhead(s.m, HEAP_START, RoundUp(n)) ==> NewHeader(HEAP_START, RoundUp(n)) + HEADER_SIZE <= |s.m|
    ensures var o := Kmalloc(s, n);
      && o.Got? && o.p == HEAP_START + HEADER_SIZE && Inv(o.s)
      && o.s.m == AfterSplitBlock(s.m, HEAP_START, RoundUp(n))
  {
    var r := RoundUp(n);
    if r + HEADER_SIZE <= s.bs[0].size {
      SplitBlockSplits(s, 0, r);
      SplitInv(s, 0, r);
    } else {
      SplitBlockRefuses(s, 0, r);
    }
  }

  lemma LoneCorrupt(s: HState, n: word)
    requires Inv(s) && SplitWraps(s.bs, n)
    ensures HEAP_START + HEADER_SIZE <= |s.m| <= WORD_LIMIT
    ensures NewHeader(HEAP_START, RoundUp(n)) + HEADER_SIZE <= |s.m| && GoesAhead(s.m, HEAP_START, RoundUp(n))
    ensures Kmalloc(s, n) == Corrupt(AfterSplitBlock(s.m, HEAP_START, RoundUp(n)), HEAP_START + HEADER_SIZE)
  {
    HeaderRead(s, 0);
    RootHasRoom(n);
    assert InPlace(s.bs, |s.m|, 0);
    var x := RoundUp(n) + HEADER_SIZE - WORD_LIMIT;
    assert Wrap(x + WORD_LIMIT) == x;
  }

  /** What one turn of the search loop reads in the header of block k, and what that says about the first fit. */
  lemma Probe(s: HState, n: nat, k: nat)
    requires Inv(s) && k < |s.bs|
    ensures s.bs[k].addr + HEADER_SIZE <= |s.m|
    ensures var miss := Load(s.m, s.bs[k].addr + 8) < n || Load(s.m, s.bs[k].addr + 12) == 0;
      && (miss ==> FirstFit(s.bs, n, k) == FirstFit(s.bs, n, k + 1))
      && (!miss ==> FirstFit(s.bs, n, k) == k)
    ensures Load(s.m, s.bs[k].addr) == 0 ==> FirstFit(s.bs, n, k + 1) == |s.bs|
    ensures Load(s.m, s.bs[k].addr) != 0 ==>
      k + 1 < |s.bs| && Load(s.m, s.bs[k].addr) == s.bs[k + 1].addr && s.bs[k + 1].addr + HEADER_SIZE <= |s.m|
  {
    HeaderRead(s, k);
    if k + 1 < |s.bs| {
      HeaderEnds(s, k + 1);
    }
  }

  /** What a statistics walk reads in the header of block k. */
  lemma WalkStep(s: HState, k: nat)
    requires Inv(s) && k < |s.bs|
    ensures s.bs[k].addr + HEADER_SIZE <= |s.m| && s.bs[k].addr != 0
    ensures Load(s.m, s.bs[k].addr) == NextPtr(s.bs, k)
    ensures Load(s.m, s.bs[k].addr + 8) == s.bs[k].size
    ensures Load(s.m, s.bs[k].addr + 12) == if s.bs[k].free then 1 else 0
  {
    HeaderRead(s, k);
    assert Encodes(s.m, s.bs, k);
  }

  /** A request on any other heap ends at the first fit. */
  lemma FitOutcome(s: HState, n: word)
    requires Inv(s) && !Lone(s.bs)
    ensures var r, i := RoundUp(n), FirstFit(s.bs, RoundUp(n), 0);
      && (i == |s.bs| ==> Kmalloc(s, n) == Halted)
      && (i < |s.bs| && s.bs[i].size >= r + HEADER_SIZE + SPLIT_THRESHOLD ==>
            Kmalloc(s, n) == Got(Split(s, i, r), s.bs[i].Data()))
      && (i < |s.bs| && s.bs[i].size < r + HEADER_SIZE + SPLIT_THRESHOLD ==>
            s.bs[i].End() <= |s.m| && Kmalloc(s, n) == Got(Mark(s, i, false), s.bs[i].Data()))
  {
  }

  /** A block that is split leaves the caller the rounded size and no byte more. */
  lemma CutSize(s: HState, n: word, i: nat)
    requires Inv(s) && !Lone(s.bs) && i == FirstFit(s.bs, RoundUp(n), 0) < |s.bs|
    requires RoundUp(n) + HEADER_SIZE + SPLIT_THRESHOLD <= s.bs[i].size
    ensures var o := Kmalloc(s, n); o.Got? && Inv(o.s) && o.p in ViewOf(o.s) && |ViewOf(o.s)[o.p]| == RoundUp(n)
  {
    hide Kmalloc;
    FitOutcome(s, n);
    CutView(s, i, RoundUp(n));
  }

  // ---------- kmalloc ----------

  /** The condition a caller can check before the call: the request does not wrap, and the first one fits. */
  predicate Servable(bs: seq<Block>, n: word) {
    n <= MAX_REQUEST && Roomed(bs, n)
  }

  predicate Roomed(bs: seq<Block>, n: word) {
    Lone(bs) ==> RoundUp(n) + HEADER_SIZE <= bs[0].size
  }

  /** The outcome is a well-formed heap in which p is a new live pointer to at least n bytes. */
  ghost predicate Delivers(s: HState, o: Outcome, n: nat) {
    && o.Got? && Inv(o.s) && SameLow(s.m, o.s.m)
    && Apart(s.bs, |s.m|)
    && o.p !in ViewOf(s) && o.p in ViewOf(o.s) && n <= |ViewOf(o.s)[o.p]|
    && ViewOf(o.s) == ViewOf(s)[o.p := ViewOf(o.s)[o.p]]
  }

  lemma Delivered(s: HState, t: HState, p: nat, n: nat, x: seq<byte>)
    requires Apart(s.bs, |s.m|) && Inv(t) && SameLow(s.m, t.m)
    requires p !in ViewOf(s) && ViewOf(t) == ViewOf(s)[p := x] && n <= |x|
    ensures Delivers(s, Got(t, p), n)
  {
  }

  lemma CutDelivers(s: HState, i: nat, r: word)
    requires Inv(s) && i < |s.bs| && s.bs[i].free && r % 4 == 0 && r + HEADER_SIZE <= s.bs[i].size
    ensures Delivers(s, Got(Split(s, i, r), s.bs[i].Data()), r)
  {
    CutView(s, i, r);
    SplitInv(s, i, r);
    Delivered(s, Split(s, i, r), s.bs[i].Data(), r, s.m[s.bs[i].Data()..s.bs[i].Data() + r]);
  }

  lemma WholeDelivers(s: HState, i: nat)
    requires Inv(s) && i < |s.bs| && s.bs[i].free
    ensures s.bs[i].addr + HEADER_SIZE <= |s.m|
    ensures Delivers(s, Got(Mark(s, i, false), s.bs[i].Data()), s.bs[i].size)
  {
    MarkIsMarked(s, i, false);
    TakeView(s, i);
    Delivered(s, Mark(s, i, false), s.bs[i].Data(), s.bs[i].size, s.m[s.bs[i].Data()..s.bs[i].End()]);
  }

  lemma KmallocDelivers(s: HState, n: word)
    requires Inv(s) && Roomed(s.bs, n) && !Kmalloc(s, n).Halted?
    ensures Delivers(s, Kmalloc(s, n), RoundUp(n))
  {
    match Place(s.bs, RoundUp(n)) {
      case Cut(i) => CutDelivers(s, i, RoundUp(n));
      case Whole(i) => WholeDelivers(s, i);
    }
  }

  lemma RootInside(m: seq<byte>, bs: seq<Block>)
    requires Inv(HState(m, bs))
    ensures Load(m, HEAP_START + 8) < |m|
  {
    assert Encodes(m, bs, 0);
  }

  /** A wrapped split leaves bytes that no row of blocks describes. */
  lemma WrappedSplitCorrupts(s: HState, n: word, bs: seq<Block>)
    requires Inv(s) && SplitWraps(s.bs, n)
    ensures !Inv(HState(Kmalloc(s, n).m, bs))
  {
    RootHasRoom(n);
    var c := NewHeader(HEAP_START, RoundUp(n));
    ShrinkEffect(FillHeader(s.m, HEAP_START, c, RoundUp(n)), HEAP_START, c, RoundUp(n));
    if Inv(HState(Kmalloc(s, n).m, bs)) {
      RootInside(Kmalloc(s, n).m, bs);
    }
  }

  /** A request that returns meets its promise exactly when it is servable. */
  lemma KmallocPromise(s: HState, n: word)
    requires Inv(s) && !Kmalloc(s, n).Halted?
    ensures Delivers(s, Kmalloc(s, n), n) <==> Servable(s.bs, n)
  {
    var o := Kmalloc(s, n);
    if Servable(s.bs, n) {
      KmallocDelivers(s, n);
    } else if Lone(s.bs) && o.Got? && o.s == s {
      FreeNotOwned(s, 0);
    } else if Delivers(s, o, n) {
      var i, b := ViewBlock(o.s, o.p);
    }
  }

  /** The machine halts exactly when something was allocated before and no free block is large enough. */
  lemma KmallocHalts(s: HState, n: word)
    requires Inv(s)
    ensures Kmalloc(s, n).Halted? <==> !Lone(s.bs) && Starved(s.bs, RoundUp(n))
    ensures Kmalloc(s, n).Halted? <==>
      !(|s.bs| == 1 && s.bs[0].free) && forall b :: b in s.bs && b.free ==> b.size < RoundUp(n)
  {
    StarvedIsNoFit(s.bs, RoundUp(n));
    assert Starved(s.bs, RoundUp(n)) <==> forall b :: b in s.bs && b.free ==> b.size < RoundUp(n);
  }

  /** A request that the root has room for changes the row as Served says, or halts for want of a block. */
  lemma KmallocRow(s: HState, n: word)
    requires Inv(s) && Roomed(s.bs, n)
    ensures Kmalloc(s, n).Halted? <==> Starved(s.bs, RoundUp(n))
    ensures Kmalloc(s, n).Got? ==>
      Kmalloc(s, n).s.bs == Served(s.bs, RoundUp(n)) && Kmalloc(s, n).p == PlacedAt(s.bs, RoundUp(n))
  {
    KmallocHalts(s, n);
    if Lone(s.bs) {
      assert Fits(s.bs[0], RoundUp(n)) && s.bs[0] in s.bs;
    }
  }

  /** A refused split hands out the root while it stays free, and does so again for every such request. */
  lemma RefusedAgain(s: HState, n: word)
    requires Inv(s) && Lone(s.bs) && s.bs[0].size < RoundUp(n) + HEADER_SIZE < WORD_LIMIT
    ensures Kmalloc(s, n) == Got(s, HEAP_START + HEADER_SIZE) && HEAP_START + HEADER_SIZE !in ViewOf(s)
  {
    FreeNotOwned(s, 0);
  }

  /** For instance a first request for 2000 bytes on a heap of 1 KiB: it meets no promise, however often it is made. */
  lemma RefusedExample(s: HState)
    requires Inv(s) && Lone(s.bs) && |s.m| == HEAP_START + 1024
    ensures var o := Kmalloc(s, 2000);
      && o == Got(s, HEAP_START + HEADER_SIZE) && o.p !in ViewOf(o.s)
      && Kmalloc(o.s, 2000) == o && !Delivers(s, o, 2000)
  {
    assert InPlace(s.bs, |s.m|, 0);
    RefusedAgain(s, 2000);
  }

  /** And a request for 0xFFFFFFFF bytes: it is rounded to zero, and the new pointer has no byte behind it. */
  lemma WrappedExample(s: HState)
    requires Inv(s) && Lone(s.bs)
    ensures var o := Kmalloc(s, 0xFFFF_FFFF);
      && Delivers(s, o, 0) && ViewOf(o.s)[o.p] == []
      && !Delivers(s, o, 0xFFFF_FFFF)
  {
    var o := Kmalloc(s, 0xFFFF_FFFF);
    assert InPlace(s.bs, |s.m|, 0);
    KmallocDelivers(s, 0xFFFF_FFFF);
    CutView(s, 0, 0);
  }

  /** Otherwise it serves the fitting block with the lowest address. */
  lemma KmallocFirstFit(s: HState, n: word) returns (b: Block)
    requires Inv(s) && !Lone(s.bs) && Kmalloc(s, n).Got?
    ensures b in s.bs && b.Data() == Kmalloc(s, n).p && b.free && RoundUp(n) <= b.size
    ensures forall c :: c in s.bs && c.addr < b.addr ==> !c.free || c.size < RoundUp(n)
  {
    var i := FirstFit(s.bs, RoundUp(n), 0);
    b := s.bs[i];
    forall c | c in s.bs && c.addr < b.addr
      ensures !Fits(c, RoundUp(n))
    {
      var j :| 0 <= j < |s.bs| && s.bs[j] == c;
      assert j < i;
    }
  }

  /**
   * What a served request leaves: twenty bytes or more to spare become a free block of their own, whose back pointer
   * names the block it was cut from; fewer stay with the caller. Every other block is as it was.
   */
  lemma KmallocLeaves(s: HState, n: word) returns (i: nat)
    requires Inv(s) && Servable(s.bs, n) && Kmalloc(s, n).Got?
    ensures i < |s.bs| && s.bs[i].Data() == Kmalloc(s, n).p
    ensures var b, ds, r := s.bs[i], Kmalloc(s, n).s.bs, RoundUp(n);
      if |s.bs| == 1 || r + 20 <= b.size then
        && r + 16 <= b.size && |ds| == |s.bs| + 1 && ds[..i] == s.bs[..i] && ds[i + 2..] == s.bs[i + 1..]
        && ds[i] == Block(b.addr, b.prev, r, false)
        && ds[i + 1] == Block(b.addr + 16 + r, b.addr, b.size - r - 16, true)
      else
        |ds| == |s.bs| && ds[..i] == s.bs[..i] && ds[i] == b.(free := false) && ds[i + 1..] == s.bs[i + 1..]
  {
    i := if Lone(s.bs) then 0 else FirstFit(s.bs, RoundUp(n), 0);
    if |s.bs| == 1 || RoundUp(n) + HEADER_SIZE + SPLIT_THRESHOLD <= s.bs[i].size {
      SplitParts(s.bs, i, RoundUp(n));
    }
  }

  // ---------- kfree ----------

  ghost predicate HasBlock(bs: seq<Block>, p: nat) {
    exists b :: b in bs && b.Data() == p
  }

  /** The block whose header to_header(p) finds. */
  ghost function BlockIndex(bs: seq<Block>, p: nat): (i: nat)
    requires HasBlock(bs, p)
    ensures i < |bs| && bs[i].Data() == p
  {
    var b :| b in bs && b.Data() == p;
    var i :| 0 <= i < |bs| && bs[i] == b;
    i
  }

  lemma LiveHasBlock(s: HState, p: nat)
    requires Apart(s.bs, |s.m|) && p in ViewOf(s)
    ensures HasBlock(s.bs, p)
    ensures var b := s.bs[BlockIndex(s.bs, p)]; !b.free && b.End() <= |s.m| && ViewOf(s)[p] == s.m[p..b.End()]
  {
    var i, b := ViewBlock(s, p);
  }

  lemma OneIndex(bs: seq<Block>, top: nat, p: nat)
    requires Apart(bs, top) && HasBlock(bs, p)
    ensures BlockIndex(bs, p) == IndexOf(bs, p) < |bs|
  {
    if BlockIndex(bs, p) < IndexOf(bs, p) {
      assert false;
    }
  }

  ghost function Kfree(s: HState, p: nat): HState
    requires Inv(s) && HasBlock(s.bs, p)
  {
    Mark(s, BlockIndex(s.bs, p), true)
  }

  /** kfree takes its pointer out of the view and touches nothing else; freeing twice changes nothing more. */
  lemma KfreeReleases(s: HState, p: nat)
    requires Inv(s) && HasBlock(s.bs, p)
    ensures Inv(Kfree(s, p)) && SameLow(s.m, Kfree(s, p).m)
    ensures ViewOf(Kfree(s, p)) == ViewOf(s) - {p}
  {
    FreeView(s, BlockIndex(s.bs, p));
  }

  lemma KfreeRow(s: HState, p: nat)
    requires Inv(s) && HasBlock(s.bs, p)
    ensures Kfree(s, p).bs == Freed(s.bs, p)
  {
    OneIndex(s.bs, |s.m|, p);
  }

  /** The row says how many bytes are behind a live pointer. */
  lemma SizeBehind(s: HState, p: nat)
    requires Inv(s) && p in ViewOf(s)
    ensures SizeAt(s.bs, p) == |ViewOf(s)[p]|
  {
    LiveHasBlock(s, p);
    OneIndex(s.bs, |s.m|, p);
  }

  // ---------- krealloc ----------

  /** While p is live a request is never served from the lone block, so it is delivered beside p. */
  lemma NewAndOld(s: HState, p: nat, n: word)
    requires Inv(s) && p in ViewOf(s) && Kmalloc(s, n).Got?
    ensures Delivers(s, Kmalloc(s, n), RoundUp(n))
    ensures var o := Kmalloc(s, n); p in ViewOf(o.s) && p != o.p && ViewOf(o.s)[p] == ViewOf(s)[p]
  {
    NotLone(s, p);
    KmallocDelivers(s, n);
  }

  lemma TailKept(m: seq<byte>, m': seq<byte>, q: nat, end: nat, x: seq<byte>)
    requires q + |x| <= end <= |m| == |m'|
    requires m'[q..q + |x|] == x
    requires forall k :: q + |x| <= k < end ==> m'[k] == m[k]
    ensures m'[q..end] == x + m[q..end][|x|..]
  {
    SliceSame(m, m', q + |x|, end);
    assert m'[q..end] == m'[q..q + |x|] + m'[q + |x|..end];
    assert m[q..end][|x|..] == m[q + |x|..end];
  }

  /** Overwriting the start of block c with x changes its binding to x followed by the rest. */
  lemma PrefixView(t: HState, c: Block, m: seq<byte>, x: seq<byte>)
    requires Inv(t) && Used(t.bs, c) && |x| <= c.size && c.End() <= |t.m| == |m|
    requires m[c.Data()..c.Data() + |x|] == x
    requires forall k :: 0 <= k < |m| && !(c.Data() <= k < c.Data() + |x|) ==> m[k] == t.m[k]
    ensures Inv(HState(m, t.bs)) && c.Data() in ViewOf(t) && |ViewOf(t)[c.Data()]| == c.size
    ensures ViewOf(HState(m, t.bs)) == ViewOf(t)[c.Data() := x + ViewOf(t)[c.Data()][|x|..]]
  {
    TailKept(t.m, m, c.Data(), c.End(), x);
    ViewHas(t, c);
    assert |t.m[c.Data()..c.End()]| == c.size;
    WriteView(t, c, m);
  }

  /** Copying the bytes of p over the start of q gives q that prefix and leaves every other binding. */
  lemma CopyView(t: HState, p: nat, q: nat)
    requires Inv(t) && p in ViewOf(t) && q in ViewOf(t) && p != q && |ViewOf(t)[p]| <= |ViewOf(t)[q]|
    ensures var len := |ViewOf(t)[p]|; q + len <= |t.m| && p + len <= |t.m| && (p + len <= q || q + len <= p)
    ensures var len := |ViewOf(t)[p]|; Inv(HState(Copied(t.m, q, p, len), t.bs))
    ensures var len := |ViewOf(t)[p]|;
      ViewOf(HState(Copied(t.m, q, p, len), t.bs)) == ViewOf(t)[q := ViewOf(t)[p] + ViewOf(t)[q][len..]]
  {
    hide ViewOf, Copied;
    var i, b := ViewBlock(t, p);
    var j, c := ViewBlock(t, q);
    ViewDisjoint(t, p, q);
    CopiedBytes(t.m, q, p, b.size);
    PrefixView(t, c, Copied(t.m, q, p, b.size), ViewOf(t)[p]);
  }

  /** kmemcpy to q and kfree of p. */
  ghost function Relocate(t: HState, p: nat, q: nat): HState
    requires Inv(t) && p in ViewOf(t) && q in ViewOf(t) && p != q && |ViewOf(t)[p]| <= |ViewOf(t)[q]|
  {
    CopyView(t, p, q);
    var u := HState(Copied(t.m, q, p, |ViewOf(t)[p]|), t.bs);
    LiveHasBlock(u, p);
    Kfree(u, p)
  }

  /** The header in front of a live pointer says how many bytes are behind it. */
  lemma HeaderOf(s: HState, p: nat)
    requires Inv(s) && p in ViewOf(s)
    ensures HEADER_SIZE <= p && p + |ViewOf(s)[p]| <= |s.m|
    ensures Load(s.m, p - HEADER_SIZE + 8) == |ViewOf(s)[p]|
  {
    var i, b := ViewBlock(s, p);
    HeaderRead(s, i);
  }

  lemma RelocateSteps(t: HState, p: nat, q: nat)
    requires Inv(t) && p in ViewOf(t) && q in ViewOf(t) && p != q && |ViewOf(t)[p]| <= |ViewOf(t)[q]|
    ensures p + |ViewOf(t)[p]| <= |t.m| && q + |ViewOf(t)[p]| <= |t.m|
    ensures p + |ViewOf(t)[p]| <= q || q + |ViewOf(t)[p]| <= p
    ensures var u := HState(Copied(t.m, q, p, |ViewOf(t)[p]|), t.bs);
      Inv(u) && HasBlock(u.bs, p) && Relocate(t, p, q) == Kfree(u, p)
  {
    CopyView(t, p, q);
    LiveHasBlock(t, p);
  }

  lemma RelocateView(t: HState, p: nat, q: nat)
    requires Inv(t) && p in ViewOf(t) && q in ViewOf(t) && p != q && |ViewOf(t)[p]| <= |ViewOf(t)[q]|
    ensures var u := Relocate(t, p, q);
      && Inv(u) && SameLow(t.m, u.m)
      && ViewOf(u) == ViewOf(t)[q := ViewOf(t)[p] + ViewOf(t)[q][|ViewOf(t)[p]|..]] - {p}
  {
    CopyView(t, p, q);
    CopyIsHigh(t, p, q);
    RelocateSteps(t, p, q);
    KfreeReleases(HState(Copied(t.m, q, p, |ViewOf(t)[p]|), t.bs), p);
  }

  lemma CopyIsHigh(t: HState, p: nat, q: nat)
    requires Inv(t) && p in ViewOf(t) && q in ViewOf(t) && p != q && |ViewOf(t)[p]| <= |ViewOf(t)[q]|
    requires p + |ViewOf(t)[p]| <= |t.m| && q + |ViewOf(t)[p]| <= |t.m|
    ensures SameLow(t.m, Copied(t.m, q, p, |ViewOf(t)[p]|))
  {
    ViewDisjoint(t, q, p);
    CopiedBytes(t.m, q, p, |ViewOf(t)[p]|);
  }

  /** The bytes after kmemcpy to q and the store of kfree of p, wherever the copy ends. */
  ghost function MovedBytes(m: seq<byte>, p: nat, q: nat, len: nat): (m': seq<byte>)
    requires HEADER_SIZE <= p && p + len <= |m| && q + len <= |m|
    ensures |m'| == |m|
  {
    Store(Copied(m, q, p, len), p - HEADER_SIZE + 12, 1)
  }

  /** A copy that fits the new block moves the bytes; after a wrapped request it may run over the end of it. */
  ghost function MoveOut(t: HState, p: nat, q: nat): Outcome
    requires Inv(t) && p in ViewOf(t) && q in ViewOf(t) && p != q
  {
    var len := |ViewOf(t)[p]|;
    HeaderOf(t, p);
    if len <= |ViewOf(t)[q]| then Got(Relocate(t, p, q), q)
    else if q + len <= |t.m| then Corrupt(MovedBytes(t.m, p, q, len), q)
    else Outside
  }

  /** o hands out p and leaves memory m, well-formed or not. */
  ghost predicate Leaves(o: Outcome, m: seq<byte>, p: nat) {
    match o
    case Got(u, q) => q == p && Inv(u) && u.m == m
    case Corrupt(m', q) => q == p && m' == m
    case _ => false
  }

  /** Relocation is the copy and the store of kfree, and the copy may run forwards. */
  lemma MoveOutBytes(t: HState, p: nat, q: nat)
    requires Inv(t) && p in ViewOf(t) && q in ViewOf(t) && p != q
    ensures var len := |ViewOf(t)[p]|;
      && HEADER_SIZE <= p && p + len <= |t.m| && (q <= p || p + len <= q)
      && (MoveOut(t, p, q).Outside? ||
            (q + len <= |t.m| && Leaves(MoveOut(t, p, q), MovedBytes(t.m, p, q, len), q)))
  {
    HeaderOf(t, p);
    ViewDisjoint(t, p, q);
    if |ViewOf(t)[p]| <= |ViewOf(t)[q]| {
      RelocateBytes(t, p, q);
    }
  }

  lemma KfreeStores(u: HState, p: nat)
    requires Inv(u) && HasBlock(u.bs, p)
    ensures HEADER_SIZE <= p <= |u.m| && Inv(Kfree(u, p))
    ensures Kfree(u, p).m == Store(u.m, p - HEADER_SIZE + 12, 1)
  {
    MarkInv(u, BlockIndex(u.bs, p), true);
    HeaderEnds(u, BlockIndex(u.bs, p));
  }

  lemma RelocateBytes(t: HState, p: nat, q: nat)
    requires Inv(t) && p in ViewOf(t) && q in ViewOf(t) && p != q && |ViewOf(t)[p]| <= |ViewOf(t)[q]|
    ensures var len := |ViewOf(t)[p]|;
      && HEADER_SIZE <= p && p + len <= |t.m| && q + len <= |t.m|
      && Inv(Relocate(t, p, q)) && Relocate(t, p, q).m == MovedBytes(t.m, p, q, len)
  {
    RelocateSteps(t, p, q);
    KfreeStores(HState(Copied(t.m, q, p, |ViewOf(t)[p]|), t.bs), p);
  }

  ghost function Krealloc(s: HState, p: nat, n: word): Outcome
    requires Inv(s) && p in ViewOf(s)
  {
    if |ViewOf(s)[p]| < n then
      match Kmalloc(s, n)
      case Got(t, q) => NewAndOld(s, p, n); MoveOut(t, p, q)
      case other => other
    else
      Got(s, p)
  }

  /** What krealloc promises: room for n bytes, the old bytes in front, every other pointer untouched. */
  ghost predicate Moves(s: HState, p: nat, n: nat, o: Outcome) {
    && o.Got? && Inv(o.s) && SameLow(s.m, o.s.m)
    && Apart(s.bs, |s.m|) && p in ViewOf(s)
    && o.p in ViewOf(o.s) && n <= |ViewOf(o.s)[o.p]|
    && ViewOf(s)[p] <= ViewOf(o.s)[o.p]
    && (o.p == p || o.p !in ViewOf(s))
    && ViewOf(o.s) == (ViewOf(s) - {p})[o.p := ViewOf(o.s)[o.p]]
  }

  lemma MoveBinding(v0: View, v1: View, v2: View, v3: View, p: nat, q: nat)
    requires p in v0 && q !in v0 && q in v1 && v1 == v0[q := v1[q]] && |v0[p]| <= |v1[q]|
    requires v2 == v1[q := v0[p] + v1[q][|v0[p]|..]] && v3 == v2 - {p}
    ensures q in v3 && |v3[q]| == |v1[q]| && v0[p] <= v3[q]
    ensures v3 == (v0 - {p})[q := v3[q]]
  {
  }

  lemma RelocateMoves(s: HState, p: nat, n: nat, t: HState, q: nat)
    requires Inv(s) && p in ViewOf(s) && |ViewOf(s)[p]| < n && Delivers(s, Got(t, q), n)
    ensures p in ViewOf(t) && p != q && ViewOf(t)[p] == ViewOf(s)[p]
    ensures Moves(s, p, n, Got(Relocate(t, p, q), q))
  {
    RelocateView(t, p, q);
    MoveBinding(ViewOf(s), ViewOf(t), ViewOf(t)[q := ViewOf(t)[p] + ViewOf(t)[q][|ViewOf(t)[p]|..]],
                ViewOf(Relocate(t, p, q)), p, q);
  }

  lemma KreallocMoves(s: HState, p: nat, n: word)
    requires Inv(s) && p in ViewOf(s) && n <= MAX_REQUEST && !Krealloc(s, p, n).Halted?
    ensures Moves(s, p, n, Krealloc(s, p, n))
    ensures n <= |ViewOf(s)[p]| ==> Krealloc(s, p, n) == Got(s, p)
  {
    if |ViewOf(s)[p]| < n {
      KreallocNoneOrOut(s, p, n);
      var o := Kmalloc(s, n);
      RelocateMoves(s, p, n, o.s, o.p);
    } else {
      assert ViewOf(s) == (ViewOf(s) - {p})[p := ViewOf(s)[p]];
    }
  }

  lemma KreallocNoneOrOut(s: HState, p: nat, n: word)
    requires Inv(s) && p in ViewOf(s) && |ViewOf(s)[p]| < n <= MAX_REQUEST && !Krealloc(s, p, n).Halted?
    ensures Kmalloc(s, n).Got? && Delivers(s, Kmalloc(s, n), n)
    ensures var o := Kmalloc(s, n);
      && p in ViewOf(o.s) && p != o.p && |ViewOf(o.s)[p]| <= |ViewOf(o.s)[o.p]|
      && Krealloc(s, p, n) == Got(Relocate(o.s, p, o.p), o.p)
  {
    if Kmalloc(s, n).Got? {
      KreallocMovesOut(s, p, n);
    } else {
      KreallocNoRoom(s, p, n);
    }
  }

  lemma KreallocStays(s: HState, p: nat, n: word)
    requires Inv(s) && p in ViewOf(s) && n <= |ViewOf(s)[p]|
    ensures Krealloc(s, p, n) == Got(s, p)
  {
  }

  lemma KreallocMovesOut(s: HState, p: nat, n: word)
    requires Inv(s) && p in ViewOf(s) && |ViewOf(s)[p]| < n && Kmalloc(s, n).Got?
    ensures var o := Kmalloc(s, n);
      && Delivers(s, o, RoundUp(n)) && p in ViewOf(o.s) && p != o.p && ViewOf(o.s)[p] == ViewOf(s)[p]
      && Krealloc(s, p, n) == MoveOut(o.s, p, o.p)
      && (n <= MAX_REQUEST ==>
            |ViewOf(s)[p]| <= |ViewOf(o.s)[o.p]| && Krealloc(s, p, n) == Got(Relocate(o.s, p, o.p), o.p))
  {
    NewAndOld(s, p, n);
  }

  lemma KreallocNoRoom(s: HState, p: nat, n: word)
    requires Inv(s) && p in ViewOf(s) && |ViewOf(s)[p]| < n && !Kmalloc(s, n).Got?
    ensures Kmalloc(s, n).Halted? && Krealloc(s, p, n).Halted?
  {
    NotLone(s, p);
  }

  /** krealloc halts exactly when the block is too small and no free block is large enough. */
  lemma KreallocHalts(s: HState, p: nat, n: word)
    requires Inv(s) && p in ViewOf(s)
    ensures Krealloc(s, p, n).Halted? <==> |ViewOf(s)[p]| < n && Starved(s.bs, RoundUp(n))
  {
    NotLone(s, p);
    KmallocHalts(s, n);
    if |ViewOf(s)[p]| < n && Kmalloc(s, n).Got? {
      KreallocMovesOut(s, p, n);
    }
  }

  /** What krealloc does to the row when the size does not wrap. */
  lemma KreallocRow(s: HState, p: nat, n: word)
    requires Inv(s) && p in ViewOf(s) && |ViewOf(s)[p]| < n <= MAX_REQUEST && Krealloc(s, p, n).Got?
    ensures var o := Krealloc(s, p, n);
      o.p == PlacedAt(s.bs, RoundUp(n)) && o.s.bs == Freed(Served(s.bs, RoundUp(n)), p)
  {
    NotLone(s, p);
    KmallocRow(s, n);
    KreallocNoneOrOut(s, p, n);
    var t, q := Kmalloc(s, n).s, Kmalloc(s, n).p;
    RelocateSteps(t, p, q);
    KfreeRow(HState(Copied(t.m, q, p, |ViewOf(t)[p]|), t.bs), p);
  }

  lemma TooLarge(s: HState, p: nat, n: nat, o: Outcome)
    requires MAX_REQUEST < n
    ensures !Moves(s, p, n, o)
  {
    if o.Got? && Inv(o.s) && o.p in ViewOf(o.s) {
      var i, b := ViewBlock(o.s, o.p);
    }
  }

  /** A size that wraps breaks the promise whenever any block is free. */
  lemma KreallocFails(s: HState, p: nat, n: word)
    requires Inv(s) && p in ViewOf(s) && MAX_REQUEST < n && exists b :: b in s.bs && b.free
    ensures !Krealloc(s, p, n).Halted? && !Moves(s, p, n, Krealloc(s, p, n))
  {
    var b :| b in s.bs && b.free;
    assert Fits(b, RoundUp(n));
    KreallocHalts(s, p, n);
    KreallocPromise(s, p, n);
  }

  /** A call of krealloc that returns keeps its promise exactly when the new size does not wrap. */
  lemma KreallocPromise(s: HState, p: nat, n: word)
    requires Inv(s) && p in ViewOf(s) && !Krealloc(s, p, n).Halted?
    ensures Moves(s, p, n, Krealloc(s, p, n)) <==> n <= MAX_REQUEST
  {
    if n <= MAX_REQUEST {
      KreallocMoves(s, p, n);
    } else {
      TooLarge(s, p, n, Krealloc(s, p, n));
    }
  }

  lemma NotLone(s: HState, p: nat)
    requires Apart(s.bs, |s.m|) && p in ViewOf(s)
    ensures !Lone(s.bs)
  {
    var i, b := ViewBlock(s, p);
  }

  // ---------- reuse ----------

  /** Marking a used block free and used again restores memory byte for byte. */
  lemma MarkTwice(s: HState, i: nat)
    requires Inv(s) && i < |s.bs| && !s.bs[i].free
    ensures s.bs[i].addr + HEADER_SIZE <= |s.m|
    ensures Mark(Mark(s, i, true), i, false) == s
  {
    assert Encodes(s.m, s.bs, i);
    StoreStore(s.m, s.bs[i].addr + 12, 1, 0);
    StoreSame(s.m, s.bs[i].addr + 12);
    assert MarkAt(MarkAt(s.bs, i, true), i, false) == s.bs;
  }

  /** Used block i is where a request of r bytes was served: nothing before it fits, and it is too small to split. */
  ghost predicate ServedAt(bs: seq<Block>, i: nat, r: nat) {
    && i < |bs| && |bs| > 1 && !bs[i].free
    && r <= bs[i].size < r + HEADER_SIZE + SPLIT_THRESHOLD
    && forall j :: 0 <= j < i ==> !Fits(bs[j], r)
  }

  lemma ServedSomewhere(s: HState, n: word) returns (i: nat)
    requires Inv(s) && Servable(s.bs, n) && Kmalloc(s, n).Got?
    ensures var o := Kmalloc(s, n); ServedAt(o.s.bs, i, RoundUp(n)) && o.p == o.s.bs[i].Data()
  {
    i := match Place(s.bs, RoundUp(n)) case Cut(k) => k case Whole(k) => k;
  }

  lemma ServedAgain(t: HState, i: nat, n: word)
    requires Inv(t) && ServedAt(t.bs, i, RoundUp(n))
    ensures Inv(Mark(t, i, true)) && Kmalloc(Mark(t, i, true), n) == Got(t, t.bs[i].Data())
  {
    MarkInv(t, i, true);
    MarkTwice(t, i);
    FirstFitUnique(Mark(t, i, true).bs, RoundUp(n), i);
  }

  lemma IndexUnique(s: HState, i: nat)
    requires Apart(s.bs, |s.m|) && i < |s.bs|
    ensures HasBlock(s.bs, s.bs[i].Data()) && BlockIndex(s.bs, s.bs[i].Data()) == i
  {
    assert s.bs[i] in s.bs;
  }

  /** Allocating, freeing and allocating the same size again gives the same pointer and the very same memory. */
  lemma MallocFreeMalloc(s: HState, n: word)
    requires Inv(s) && Servable(s.bs, n) && Kmalloc(s, n).Got?
    ensures var o := Kmalloc(s, n); Inv(o.s) && HasBlock(o.s.bs, o.p)
    ensures var o := Kmalloc(s, n); Inv(Kfree(o.s, o.p)) && Kmalloc(Kfree(o.s, o.p), n) == o
  {
    KmallocDelivers(s, n);
    var i := ServedSomewhere(s, n);
    IndexUnique(Kmalloc(s, n).s, i);
    ServedAgain(Kmalloc(s, n).s, i, n);
  }

  // ---------- the number of blocks ----------

  /** After a served request the heap has at least two blocks, so no request is ever served from a lone block again. */
  lemma MallocLeaves(s: HState, n: word)
    requires Inv(s) && Servable(s.bs, n) && Kmalloc(s, n).Got?
    ensures |s.bs| <= |Kmalloc(s, n).s.bs| && 1 < |Kmalloc(s, n).s.bs| && HEAP_START < Kmalloc(s, n).p
  {
  }

  lemma KreallocGrows(s: HState, p: nat, n: word)
    requires Inv(s) && p in ViewOf(s) && n <= MAX_REQUEST && Krealloc(s, p, n).Got?
    ensures |s.bs| <= |Krealloc(s, p, n).s.bs|
  {
    if |ViewOf(s)[p]| < n && Kmalloc(s, n).Got? {
      NotLone(s, p);
      MallocLeaves(s, n);
      KreallocMovesOut(s, p, n);
    }
  }
}
