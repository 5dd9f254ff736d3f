/** Block headers inside raw memory, and the allocator's steps on that memory. An index into memory is an address. */
module HeapState {
  import opened Bytes
  import opened Blocks

  /** Raw memory together with the row of blocks its headers describe. */
  datatype HState = HState(m: seq<byte>, bs: seq<Block>)

  /** Address of the header after block i, or NULL. */
  function NextPtr(bs: seq<Block>, i: nat): nat
    requires i < |bs|
  {
    if i + 1 < |bs| then bs[i + 1].addr else 0
  }

  /** The sixteen bytes at bs[i].addr are the header of block i: next_ptr, prev_ptr, block_size, is_free. */
  ghost predicate Encodes(m: seq<byte>, bs: seq<Block>, i: nat)
    requires i < |bs|
  {
    && bs[i].addr + HEADER_SIZE <= |m|
    && Load(m, bs[i].addr) == NextPtr(bs, i)
    && Load(m, bs[i].addr + 4) == bs[i].prev
    && Load(m, bs[i].addr + 8) == bs[i].size
    && Load(m, bs[i].addr + 12) == if bs[i].free then 1 else 0
  }

  ghost predicate AllEncoded(m: seq<byte>, bs: seq<Block>) {
    forall i {:trigger Encodes(m, bs, i)} :: 0 <= i < |bs| ==> Encodes(m, bs, i)
  }

  /** A well-formed heap. */
  ghost predicate Inv(s: HState) {
    && HEAP_START + 1024 <= |s.m| < HEAP_START + 0x8000_0000
    && Tiled(s.bs, |s.m|)
    && Apart(s.bs, |s.m|)
    && PrevsEarlier(s.bs)
    && AllEncoded(s.m, s.bs)
  }

  // ---------- reading the row back from raw bytes ----------

  /** Follows next_ptr from the header at p for at most fuel headers; cut short when it leaves memory or goes on. */
  ghost function Walk(m: seq<byte>, p: nat, fuel: nat): (bs: seq<Block>)
    decreases fuel
  {
    if fuel == 0 || p + HEADER_SIZE > |m| then []
    else
      var b := Block(p, Load(m, p + 4), Load(m, p + 8), Load(m, p + 12) == 1);
      if Load(m, p) == 0 then [b] else [b] + Walk(m, Load(m, p), fuel - 1)
  }

  lemma HeaderEnds(s: HState, i: nat)
    requires Inv(s) && i < |s.bs|
    ensures s.bs[i].End() <= |s.m|
  {
  }

  lemma HeaderRead(s: HState, i: nat)
    requires Inv(s) && i < |s.bs|
    ensures s.bs[i].End() <= |s.m|
    ensures Block(s.bs[i].addr, Load(s.m, s.bs[i].addr + 4), Load(s.m, s.bs[i].addr + 8),
                  Load(s.m, s.bs[i].addr + 12) == 1) == s.bs[i]
    ensures Load(s.m, s.bs[i].addr + 12) == if s.bs[i].free then 1 else 0
    ensures i + 1 < |s.bs| ==> Load(s.m, s.bs[i].addr) == s.bs[i + 1].addr != 0
    ensures i + 1 == |s.bs| ==> Load(s.m, s.bs[i].addr) == 0
  {
    assert Encodes(s.m, s.bs, i);
  }

  /** Every header, byte by byte: next_ptr, prev_ptr, block_size and is_free in this order, least significant first. */
  lemma HeaderBytes(s: HState, i: nat)
    requires Inv(s) && i < |s.bs|
    ensures var b, next := s.bs[i], if i + 1 < |s.bs| then s.bs[i + 1].addr else 0;
      && b.addr + 16 <= |s.m| && next < WORD_LIMIT && b.prev < WORD_LIMIT && b.size < WORD_LIMIT
      && s.m[b.addr..b.addr + 4] == LittleEndian(next)
      && s.m[b.addr + 4..b.addr + 8] == LittleEndian(b.prev)
      && s.m[b.addr + 8..b.addr + 12] == LittleEndian(b.size)
      && s.m[b.addr + 12..b.addr + 16] == LittleEndian(if b.free then 1 else 0)
  {
    hide Inv, Load, LittleEndian;
    HeaderRead(s, i);
    LoadBytes(s.m, s.bs[i].addr);
    LoadBytes(s.m, s.bs[i].addr + 4);
    LoadBytes(s.m, s.bs[i].addr + 8);
    LoadBytes(s.m, s.bs[i].addr + 12);
  }

  lemma {:induction false} WalkFrom(s: HState, i: nat, fuel: nat)
    requires Inv(s) && i < |s.bs| && |s.bs| - i <= fuel
    ensures Walk(s.m, s.bs[i].addr, fuel) == s.bs[i..]
    decreases |s.bs| - i
  {
    HeaderRead(s, i);
    if i + 1 < |s.bs| {
      WalkFrom(s, i + 1, fuel - 1);
    }
    HeadAndTail(s.bs, i);
  }

  lemma HeadAndTail(bs: seq<Block>, i: nat)
    requires i < |bs|
    ensures bs[i..] == [bs[i]] + bs[i + 1..]
  {
  }

  /** The walk along next_ptr ends, and it reads back exactly the blocks that tile the heap. */
  lemma WalkReadsRow(s: HState, fuel: nat)
    requires Inv(s) && |s.bs| <= fuel
    ensures Walk(s.m, HEAP_START, fuel) == s.bs
  {
    WalkFrom(s, 0, fuel);
  }

  /** The bytes alone determine the row. */
  lemma RowUnique(m: seq<byte>, bs: seq<Block>, ds: seq<Block>)
    requires Inv(HState(m, bs)) && Inv(HState(m, ds))
    ensures bs == ds
  {
    WalkReadsRow(HState(m, bs), |bs| + |ds|);
    WalkReadsRow(HState(m, ds), |bs| + |ds|);
  }

  /** Follows prev_ptr at most fuel times. */
  ghost function WalkBack(m: seq<byte>, p: nat, fuel: nat): nat
    decreases fuel
  {
    if fuel == 0 || p + HEADER_SIZE > |m| || Load(m, p + 4) == 0 then p
    else WalkBack(m, Load(m, p + 4), fuel - 1)
  }

  /** From every header the back pointers reach the root, in at most as many steps as there are earlier headers. */
  lemma {:induction false} WalkBackReachesRoot(s: HState, i: nat, fuel: nat)
    requires Inv(s) && i < |s.bs| && i <= fuel
    ensures WalkBack(s.m, s.bs[i].addr, fuel) == HEAP_START
    decreases i
  {
    assert Encodes(s.m, s.bs, i) && PrevEarlier(s.bs, i);
    if i > 0 {
      var j :| 0 <= j < i && s.bs[j].addr == s.bs[i].prev;
      WalkBackReachesRoot(s, j, fuel - 1);
    }
  }

  // ---------- framing ----------

  /** Memory below the heap is the same. */
  ghost predicate SameLow(m: seq<byte>, m': seq<byte>) {
    && |m| == |m'|
    && forall k :: 0 <= k < HEAP_START && k < |m| ==> m'[k] == m[k]
  }

  lemma FourLoadsSame(m: seq<byte>, m': seq<byte>, a: nat)
    requires a + HEADER_SIZE <= |m| && |m'| == |m|
    requires forall k :: a <= k < a + HEADER_SIZE ==> m'[k] == m[k]
    ensures Load(m', a) == Load(m, a) && Load(m', a + 4) == Load(m, a + 4)
    ensures Load(m', a + 8) == Load(m, a + 8) && Load(m', a + 12) == Load(m, a + 12)
  {
    LoadSame(m, m', a);
    LoadSame(m, m', a + 4);
    LoadSame(m, m', a + 8);
    LoadSame(m, m', a + 12);
  }

  /** Memories that agree on a header agree on what it says. */
  lemma SameHeader(m: seq<byte>, m': seq<byte>, bs: seq<Block>, ds: seq<Block>, i: nat, j: nat)
    requires i < |bs| && j < |ds| && Encodes(m, bs, i)
    requires |m'| == |m|
    requires forall k :: bs[i].addr <= k < bs[i].addr + HEADER_SIZE ==> m'[k] == m[k]
    requires ds[j] == bs[i] && NextPtr(ds, j) == NextPtr(bs, i)
    ensures Encodes(m', ds, j)
  {
    FourLoadsSame(m, m', bs[i].addr);
  }

  /** Bytes outside every header can change without changing the row. */
  lemma PayloadFrame(m: seq<byte>, m': seq<byte>, bs: seq<Block>, b: Block)
    requires Inv(HState(m, bs)) && b in bs && |m'| == |m|
    requires forall k :: 0 <= k < |m| && !(b.Data() <= k < b.End()) ==> m'[k] == m[k]
    ensures Inv(HState(m', bs))
  {
    forall j | 0 <= j < |bs|
      ensures Encodes(m', bs, j)
    {
      assert Encodes(m, bs, j);
      SameHeader(m, m', bs, bs, j, j);
    }
  }

  // ---------- steps ----------

  /** is_free of block i becomes f. */
  ghost function Mark(s: HState, i: nat, f: bool): HState
    requires i < |s.bs| && s.bs[i].addr + HEADER_SIZE <= |s.m|
  {
    HState(Store(s.m, s.bs[i].addr + 12, if f then 1 else 0), MarkAt(s.bs, i, f))
  }

  lemma MarkHeader(s: HState, i: nat, f: bool)
    requires i < |s.bs| && Encodes(s.m, s.bs, i)
    ensures Encodes(Mark(s, i, f).m, Mark(s, i, f).bs, i)
  {
    var a, v := s.bs[i].addr, if f then 1 else 0;
    LoadOther(s.m, a + 12, v, a);
    LoadOther(s.m, a + 12, v, a + 4);
    LoadOther(s.m, a + 12, v, a + 8);
  }

  lemma MarkInv(s: HState, i: nat, f: bool)
    requires Inv(s) && i < |s.bs|
    ensures s.bs[i].addr + HEADER_SIZE <= |s.m|
    ensures Inv(Mark(s, i, f))
  {
    var t := Mark(s, i, f);
    MarkKeepsRow(s.bs, |s.m|, i, f);
    TiledApart(t.bs, |t.m|);
    forall j | 0 <= j < |s.bs|
      ensures Encodes(t.m, t.bs, j)
    {
      assert Encodes(s.m, s.bs, j);
      if j == i {
        MarkHeader(s, i, f);
      } else {
        assert s.bs[i].End() <= s.bs[j].addr || s.bs[j].End() <= s.bs[i].addr;
        SameHeader(s.m, t.m, s.bs, t.bs, j, j);
      }
    }
  }

  /** Where splitblock puts the new header; the address sum is taken modulo 2^32. */
  function NewHeader(a: nat, n: word): word {
    Wrap(a + HEADER_SIZE + n)
  }

  /** First four stores of splitblock: the header at c of the part cut off the block at a. */
  ghost function FillHeader(m: seq<byte>, a: nat, c: nat, n: word): (m': seq<byte>)
    requires a + HEADER_SIZE <= |m| <= WORD_LIMIT && c + HEADER_SIZE <= |m|
    ensures |m'| == |m|
  {
    var m1 := Store(m, c + 12, 1);
    var m2 := Store(m1, c + 4, a);
    var m3 := Store(m2, c, Load(m2, a));
    Store(m3, c + 8, Wrap(Load(m3, a + 8) - (n + HEADER_SIZE)))
  }

  /** Last three stores of splitblock: the block at a now ends before c and is used. */
  ghost function ShrinkHeader(m: seq<byte>, a: nat, c: word, n: word): (m': seq<byte>)
    requires a + HEADER_SIZE <= |m|
    ensures |m'| == |m|
  {
    Store(Store(Store(m, a, c), a + 8, n), a + 12, 0)
  }

  /** All seven stores of splitblock on the block at a with the new header at c, in source order. */
  ghost function SplitBytes(m: seq<byte>, a: nat, c: word, n: word): (m': seq<byte>)
    requires a + HEADER_SIZE <= |m| <= WORD_LIMIT && c + HEADER_SIZE <= |m|
    ensures |m'| == |m|
  {
    ShrinkHeader(FillHeader(m, a, c, n), a, c, n)
  }

  /** Four stores in the order of splitblock fill the header at c. */
  lemma FourStores(m: seq<byte>, c: nat, next: word, prev: word, size: word, free: word)
    requires c + HEADER_SIZE <= |m|
    ensures var m' := Store(Store(Store(Store(m, c + 12, free), c + 4, prev), c, next), c + 8, size);
      && Load(m', c) == next && Load(m', c + 4) == prev && Load(m', c + 8) == size && Load(m', c + 12) == free
      && forall k :: 0 <= k < |m| && !(c <= k < c + HEADER_SIZE) ==> m'[k] == m[k]
  {
    var m1 := Store(m, c + 12, free);
    var m2 := Store(m1, c + 4, prev);
    var m3 := Store(m2, c, next);
    LoadOther(m1, c + 4, prev, c + 12);
    LoadOther(m2, c, next, c + 4);
    LoadOther(m2, c, next, c + 12);
    LoadOther(m3, c + 8, size, c);
    LoadOther(m3, c + 8, size, c + 4);
    LoadOther(m3, c + 8, size, c + 12);
  }

  /** m' is m with the header of the cut-off part filled in at c. */
  ghost predicate Filled(m: seq<byte>, a: nat, c: nat, n: word, m': seq<byte>)
    requires a + HEADER_SIZE <= |m| && c + HEADER_SIZE <= |m|
  {
    && |m'| == |m|
    && Load(m', c) == Load(m, a) && Load(m', c + 4) == a
    && Load(m', c + 8) == Load(m, a + 8) - n - HEADER_SIZE && Load(m', c + 12) == 1
    && forall k :: 0 <= k < |m| && !(c <= k < c + HEADER_SIZE) ==> m'[k] == m[k]
  }

  lemma FillEffect(m: seq<byte>, a: nat, c: nat, n: word)
    requires a + HEADER_SIZE <= c && c + HEADER_SIZE <= |m| <= WORD_LIMIT && n + HEADER_SIZE <= Load(m, a + 8)
    ensures Filled(m, a, c, n, FillHeader(m, a, c, n))
  {
    var m1 := Store(m, c + 12, 1);
    var m2 := Store(m1, c + 4, a);
    LoadOther(m, c + 12, 1, a);
    LoadOther(m, c + 12, 1, a + 8);
    LoadOther(m1, c + 4, a, a);
    LoadOther(m1, c + 4, a, a + 8);
    LoadOther(m2, c, Load(m2, a), a + 8);
    FourStores(m, c, Load(m, a), a, Load(m, a + 8) - n - HEADER_SIZE, 1);
  }

  /** m' is m with the block at a cut short before c and marked used. */
  ghost predicate Shrunk(m: seq<byte>, a: nat, c: nat, n: word, m': seq<byte>)
    requires a + HEADER_SIZE <= |m|
  {
    && |m'| == |m|
    && Load(m', a) == c && Load(m', a + 4) == Load(m, a + 4) && Load(m', a + 8) == n && Load(m', a + 12) == 0
    && forall k :: 0 <= k < |m| && !(a <= k < a + HEADER_SIZE) ==> m'[k] == m[k]
  }

  lemma ShrinkEffect(m: seq<byte>, a: nat, c: word, n: word)
    requires a + HEADER_SIZE <= |m|
    ensures Shrunk(m, a, c, n, ShrinkHeader(m, a, c, n))
  {
    var m1 := Store(m, a, c);
    var m2 := Store(m1, a + 8, n);
    LoadOther(m, a, c, a + 4);
    LoadOther(m1, a + 8, n, a);
    LoadOther(m1, a + 8, n, a + 4);
    LoadOther(m2, a + 12, 0, a);
    LoadOther(m2, a + 12, 0, a + 4);
    LoadOther(m2, a + 12, 0, a + 8);
  }

  /** Memory m after the split: the headers at a and c are rewritten, every other byte is as it was. */
  ghost predicate SplitMemory(s: HState, b: Block, n: word, m: seq<byte>)
    requires b.End() <= |s.m| && n + HEADER_SIZE <= b.size
  {
    var c := b.Data() + n;
    && |m| == |s.m|
    && Load(m, b.addr) == c && Load(m, b.addr + 4) == Load(s.m, b.addr + 4)
    && Load(m, b.addr + 8) == n && Load(m, b.addr + 12) == 0
    && Load(m, c) == Load(s.m, b.addr) && Load(m, c + 4) == b.addr
    && Load(m, c + 8) == b.size - n - HEADER_SIZE && Load(m, c + 12) == 1
    && forall k :: 0 <= k < |m| && !(b.addr <= k < b.Data()) && !(c <= k < c + HEADER_SIZE) ==> m[k] == s.m[k]
  }

  lemma FilledThenShrunk(s: HState, b: Block, n: word, m1: seq<byte>, m: seq<byte>)
    requires b.End() <= |s.m| && n + HEADER_SIZE <= b.size == Load(s.m, b.addr + 8)
    requires Filled(s.m, b.addr, b.Data() + n, n, m1) && Shrunk(m1, b.addr, b.Data() + n, n, m)
    ensures SplitMemory(s, b, n, m)
  {
    hide Load;
    OneThenOther(s.m, m1, m, b.Data() + n, b.addr);
    LoadSame(s.m, m1, b.addr + 4);
    FourLoadsSame(m1, m, b.Data() + n);
  }

  /** A change of the header at c and then of the one at a is a change of these two. */
  lemma OneThenOther(m: seq<byte>, m1: seq<byte>, m2: seq<byte>, c: nat, a: nat)
    requires |m| == |m1| == |m2|
    requires forall k :: 0 <= k < |m| && !(c <= k < c + HEADER_SIZE) ==> m1[k] == m[k]
    requires forall k :: 0 <= k < |m| && !(a <= k < a + HEADER_SIZE) ==> m2[k] == m1[k]
    ensures forall k :: 0 <= k < |m| && !(a <= k < a + HEADER_SIZE) && !(c <= k < c + HEADER_SIZE) ==> m2[k] == m[k]
  {
  }

  lemma SplitBytesEffect(s: HState, b: Block, n: word)
    requires b.End() <= |s.m| <= WORD_LIMIT && n + HEADER_SIZE <= b.size == Load(s.m, b.addr + 8)
    ensures SplitMemory(s, b, n, SplitBytes(s.m, b.addr, b.Data() + n, n))
  {
    var a, c: word := b.addr, b.Data() + n;
    FillEffect(s.m, a, c, n);
    ShrinkEffect(FillHeader(s.m, a, c, n), a, c, n);
    FilledThenShrunk(s, b, n, FillHeader(s.m, a, c, n), SplitBytes(s.m, a, c, n));
  }

  lemma FourSame(x: seq<byte>, y: seq<byte>, i: nat)
    requires i + 4 <= |x| && i + 4 <= |y| && Load(x, i) == Load(y, i)
    ensures x[i..i + 4] == y[i..i + 4]
  {
    ToFromBytes(x[i..i + 4]);
    ToFromBytes(y[i..i + 4]);
  }

  lemma SixteenSame(x: seq<byte>, y: seq<byte>, i: nat)
    requires i + HEADER_SIZE <= |x| && i + HEADER_SIZE <= |y|
    requires Load(x, i) == Load(y, i) && Load(x, i + 4) == Load(y, i + 4)
    requires Load(x, i + 8) == Load(y, i + 8) && Load(x, i + 12) == Load(y, i + 12)
    ensures forall k :: i <= k < i + HEADER_SIZE ==> x[k] == y[k]
  {
    FourSame(x, y, i);
    FourSame(x, y, i + 4);
    FourSame(x, y, i + 8);
    FourSame(x, y, i + 12);
    forall k | i <= k < i + HEADER_SIZE
      ensures x[k] == y[k]
    {
      var j := i + (k - i) / 4 * 4;
      assert x[k] == x[j..j + 4][k - j] && y[k] == y[j..j + 4][k - j];
    }
  }

  /** Only one memory is the result of a split. */
  lemma SplitMemoryUnique(s: HState, b: Block, n: word, x: seq<byte>, y: seq<byte>)
    requires b.End() <= |s.m| && n + HEADER_SIZE <= b.size
    requires SplitMemory(s, b, n, x) && SplitMemory(s, b, n, y)
    ensures x == y
  {
    SixteenSame(x, y, b.addr);
    SixteenSame(x, y, b.Data() + n);
  }

  /** splitblock on free block i, when n and a header fit. */
  ghost function Split(s: HState, i: nat, n: word): HState
    requires Inv(s) && i < |s.bs| && n + HEADER_SIZE <= s.bs[i].size
  {
    HeaderRead(s, i);
    SplitBytesEffect(s, s.bs[i], n);
    var m :| SplitMemory(s, s.bs[i], n, m);
    HState(m, SplitAt(s.bs, i, n))
  }

  lemma SplitHere(s: HState, i: nat, n: word, m: seq<byte>)
    requires Inv(s) && i < |s.bs| && n + HEADER_SIZE <= s.bs[i].size && SplitMemory(s, s.bs[i], n, m)
    ensures Encodes(m, SplitAt(s.bs, i, n), i)
  {
    HeaderRead(s, i);
    var ds := SplitAt(s.bs, i, n);
    assert ds[i + 1].addr == s.bs[i].Data() + n;
  }

  lemma SplitBehind(s: HState, i: nat, n: word, m: seq<byte>)
    requires Inv(s) && i < |s.bs| && n + HEADER_SIZE <= s.bs[i].size && SplitMemory(s, s.bs[i], n, m)
    ensures Encodes(m, SplitAt(s.bs, i, n), i + 1)
  {
    HeaderRead(s, i);
    var ds := SplitAt(s.bs, i, n);
    assert NextPtr(ds, i + 1) == NextPtr(s.bs, i) by {
      assert i + 1 < |s.bs| ==> ds[i + 2] == s.bs[i + 1];
    }
  }

  /** Every other block keeps its place and its successor's address. */
  lemma SplitNeighbours(bs: seq<Block>, i: nat, n: word, k: nat)
    requires i < |bs| && n + HEADER_SIZE <= bs[i].size && k < |bs| && k != i
    ensures var ds, j := SplitAt(bs, i, n), if k < i then k else k + 1;
      j < |ds| && ds[j] == bs[k] && NextPtr(ds, j) == NextPtr(bs, k)
  {
    var ds, j := SplitAt(bs, i, n), if k < i then k else k + 1;
    if k + 1 < |bs| && k + 1 != i {
      assert ds[j + 1] == bs[k + 1];
    }
  }

  lemma SplitElsewhere(s: HState, i: nat, n: word, m: seq<byte>, j: nat)
    requires Inv(s) && i < |s.bs| && n + HEADER_SIZE <= s.bs[i].size && SplitMemory(s, s.bs[i], n, m)
    requires j <= |s.bs| && j != i && j != i + 1
    ensures Encodes(m, SplitAt(s.bs, i, n), j)
  {
    var k := if j < i then j else j - 1;
    assert Encodes(s.m, s.bs, k);
    SplitNeighbours(s.bs, i, n, k);
    SameHeader(s.m, m, s.bs, SplitAt(s.bs, i, n), k, j);
  }

  lemma SplitEncodes(s: HState, i: nat, n: word, m: seq<byte>)
    requires Inv(s) && i < |s.bs| && n + HEADER_SIZE <= s.bs[i].size && SplitMemory(s, s.bs[i], n, m)
    ensures AllEncoded(m, SplitAt(s.bs, i, n))
  {
    var ds := SplitAt(s.bs, i, n);
    forall j | 0 <= j < |ds|
      ensures Encodes(m, ds, j)
    {
      if j == i {
        SplitHere(s, i, n, m);
      } else if j == i + 1 {
        SplitBehind(s, i, n, m);
      } else {
        SplitElsewhere(s, i, n, m, j);
      }
    }
  }

  /** The test at the head of splitblock, on 32-bit sums, lets the split go ahead. */
  predicate GoesAhead(m: seq<byte>, a: nat, n: word)
    requires a + HEADER_SIZE <= |m|
  {
    Wrap(n + HEADER_SIZE) <= Load(m, a + 8) && Load(m, a + 12) != 0
  }

  /** Memory after a call of splitblock. */
  ghost function AfterSplitBlock(m: seq<byte>, a: nat, n: word): (m': seq<byte>)
    requires a + HEADER_SIZE <= |m| <= WORD_LIMIT
    requires GoesAhead(m, a, n) ==> NewHeader(a, n) + HEADER_SIZE <= |m|
    ensures |m'| == |m|
  {
    if GoesAhead(m, a, n) then SplitBytes(m, a, NewHeader(a, n), n) else m
  }

  lemma SplitBytesIsSplit(s: HState, i: nat, n: word)
    requires Inv(s) && i < |s.bs| && n + HEADER_SIZE <= s.bs[i].size
    ensures s.bs[i].End() <= |s.m| <= WORD_LIMIT && NewHeader(s.bs[i].addr, n) == s.bs[i].Data() + n
    ensures SplitBytes(s.m, s.bs[i].addr, s.bs[i].Data() + n, n) == Split(s, i, n).m
  {
    HeaderRead(s, i);
    var b := s.bs[i];
    SplitBytesEffect(s, b, n);
    SplitMemoryUnique(s, b, n, SplitBytes(s.m, b.addr, b.Data() + n, n), Split(s, i, n).m);
  }

  /** On a free block with room for the request and a header, splitblock splits. */
  lemma SplitBlockSplits(s: HState, i: nat, n: word)
    requires Inv(s) && i < |s.bs| && s.bs[i].free && n + HEADER_SIZE <= s.bs[i].size
    ensures s.bs[i].End() <= |s.m| <= WORD_LIMIT && NewHeader(s.bs[i].addr, n) == s.bs[i].Data() + n
    ensures AfterSplitBlock(s.m, s.bs[i].addr, n) == Split(s, i, n).m
  {
    SplitBytesIsSplit(s, i, n);
    SplitBlockAllows(s, i, n);
    GoingAhead(s.m, s.bs[i].addr, s.bs[i].Data() + n, n);
  }

  lemma GoingAhead(m: seq<byte>, a: nat, c: word, n: word)
    requires a + HEADER_SIZE <= |m| <= WORD_LIMIT && c + HEADER_SIZE <= |m|
    requires GoesAhead(m, a, n) && NewHeader(a, n) == c
    ensures AfterSplitBlock(m, a, n) == SplitBytes(m, a, c, n)
  {
  }

  lemma SplitBlockAllows(s: HState, i: nat, n: word)
    requires Inv(s) && i < |s.bs| && s.bs[i].free && n + HEADER_SIZE <= s.bs[i].size
    ensures s.bs[i].End() <= |s.m| && GoesAhead(s.m, s.bs[i].addr, n)
  {
    HeaderRead(s, i);
  }

  /** On a used block, or one without that room, it does nothing, as long as the sum does not wrap. */
  lemma SplitBlockRefuses(s: HState, i: nat, n: word)
    requires Inv(s) && i < |s.bs| && n + HEADER_SIZE < WORD_LIMIT && (s.bs[i].size < n + HEADER_SIZE || !s.bs[i].free)
    ensures s.bs[i].addr + HEADER_SIZE <= |s.m| <= WORD_LIMIT && !GoesAhead(s.m, s.bs[i].addr, n)
    ensures AfterSplitBlock(s.m, s.bs[i].addr, n) == s.m
  {
    HeaderRead(s, i);
  }

  lemma SplitInv(s: HState, i: nat, n: word)
    requires Inv(s) && i < |s.bs| && n % 4 == 0 && n + HEADER_SIZE <= s.bs[i].size
    ensures Inv(Split(s, i, n))
    ensures SplitMemory(s, s.bs[i], n, Split(s, i, n).m)
  {
    SplitEncodes(s, i, n, Split(s, i, n).m);
    SplitKeepsTiling(s.bs, |s.m|, i, n);
    TiledApart(SplitAt(s.bs, i, n), |s.m|);
    SplitKeepsPrevs(s.bs, i, n);
  }
}
