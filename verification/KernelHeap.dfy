/** The kernel heap of memory.c: headers updated in place in one array of bytes whose index is the address. */
module KernelHeap {
  import opened Bytes
  import opened RawMemory
  import opened Blocks
  import opened HeapState
  import opened HeapView
  import opened Allocator
  import opened Seals

  class Heap {
    const mem: array<byte>     // physical memory from address 0 to the end of the heap
    ghost var bs: seq<Block>   // the row of blocks the headers spell
    ghost var view: View       // the pointers handed out and the bytes behind them

    ghost function State(): HState
      reads this, mem
    {
      HState(mem[..], bs)
    }

    /** The headers in memory are well-formed and view is what they hand out. */
    ghost predicate WellFormed()
      reads this, mem
    {
      Inv(State()) && view == ViewOf(State())
    }

    /** WellFormed, sealed: callers that only use view need not see the headers. */
    ghost predicate Valid()
      reads this, mem
    {
      forall s {:trigger Look(s)} :: Look(s) && s == State() ==> WellFormed()
    }

    lemma Opened()
      requires Valid()
      ensures WellFormed()
    {
      assert Look(State());
    }

    /** memory_init: one free root block over the whole heap, whatever the memory held before. */
    constructor (mem: array<byte>, heapsize: nat)
      requires 1 <= heapsize && heapsize * 1024 < 0x8000_0000 && mem.Length == HEAP_START + heapsize * 1024
      modifies mem
      ensures this.mem == mem && WellFormed() && Valid() && view == map[]
      ensures bs == [Block(HEAP_START, 0, heapsize * 1024 - HEADER_SIZE, true)]
      ensures SameLow(old(mem[..]), mem[..])
      ensures mem[HEAP_START..HEAP_START + 16] ==
        [0, 0, 0, 0] + [0, 0, 0, 0] + LittleEndian(heapsize * 1024 - HEADER_SIZE) + [1, 0, 0, 0]
    {
      this.mem := mem;
      bs := [Block(HEAP_START, 0, heapsize * 1024 - HEADER_SIZE, true)];
      view := map[];
      new;
      WriteWord(mem, HEAP_START, 0);
      WriteWord(mem, HEAP_START + 4, 0);
      WriteWord(mem, HEAP_START + 8, heapsize * 1024 - HEADER_SIZE);
      WriteWord(mem, HEAP_START + 12, 1);
      InitStores(old(mem[..]), HEAP_START, heapsize * 1024 - HEADER_SIZE);
      InitInv(mem[..], heapsize);
      InitBytes(mem[..], heapsize);
    }

    /** The heap fields catch up with memory that already holds the headers of t. */
    ghost method Adopt(t: HState)
      requires mem[..] == t.m && Inv(t)
      modifies this
      ensures WellFormed() && Valid() && State() == t && view == ViewOf(t)
    {
      bs := t.bs;
      assert State() == t;
      view := ViewOf(t);
    }

    /** The search loop of kmalloc: the first free block that is large enough, if the walk along next_ptr finds one. */
    method FindFit(sz: word) returns (found: bool, newptr: word, ghost k: nat)
      requires WellFormed()
      ensures k == FirstFit(bs, sz, 0) && (found <==> k < |bs|)
      ensures found ==> newptr == bs[k].addr
    {
      newptr, k := HEAP_START, 0;
      ghost var s, fit := State(), FirstFit(bs, sz, 0);
      HeaderEnds(s, k);
      while Word(mem, newptr + 8) < sz || Word(mem, newptr + 12) == 0
        invariant k < |bs| && newptr == bs[k].addr && newptr + HEADER_SIZE <= mem.Length
        invariant FirstFit(bs, sz, k) == fit
        decreases |bs| - k
      {
        Probe(s, sz, k);
        if Word(mem, newptr) == 0 {
          assert fit == |bs|;
          return false, 0, |bs|;
        }
        newptr, k := Word(mem, newptr), k + 1;
      }
      Probe(s, sz, k);
      assert fit == k;
      found := true;
    }

    /** The method ended as o says it must. */
    ghost predicate Answers(o: Outcome, s: HState, halted: bool, p: nat)
      reads this, mem
    {
      match o
      case Halted => halted && State() == s && WellFormed()
      case Corrupt(m, q) => !halted && mem[..] == m && p == q
      case Outside => false
      case Got(t, q) => !halted && WellFormed() && State() == t && p == q
    }

    /** kmalloc; halted stands for the call of haltdump, which never returns. */
    method Kmalloc(size: word) returns (halted: bool, p: word)
      requires WellFormed()
      modifies this, mem
      ensures Answers(Allocator.Kmalloc(old(State()), size), old(State()), halted, p)
    {
      var sz := CountUp(size);
      HeaderRead(State(), 0);
      if Word(mem, HEAP_START) == 0 && Word(mem, HEAP_START + 12) == 1 {
        p := SplitLone(size, sz);
        halted := false;
      } else {
        halted, p := SearchRow(size, sz);
      }
    }

    /** The first branch of kmalloc: nothing has been allocated yet. */
    method SplitLone(ghost size: word, sz: word) returns (p: word)
      requires WellFormed() && Lone(bs) && sz == RoundUp(size)
      modifies this, mem
      ensures Answers(Allocator.Kmalloc(old(State()), size), old(State()), false, p)
    {
      p := HEAP_START + HEADER_SIZE;
      ghost var o := Allocator.Kmalloc(State(), size);
      LoneInside(State(), size);
      if SplitWraps(bs, size) {
        LoneCorrupt(State(), size);
      } else {
        LoneOutcome(State(), size);
      }
      SplitBlock(HEAP_START, sz);
      if o.Got? {
        Adopt(o.s);
      }
    }

    /** The rest of kmalloc: search, then split or take the block found. */
    method SearchRow(ghost size: word, sz: word) returns (halted: bool, p: word)
      requires WellFormed() && !Lone(bs) && sz == RoundUp(size)
      modifies this, mem
      ensures Answers(Allocator.Kmalloc(old(State()), size), old(State()), halted, p)
    {
      FitOutcome(State(), size);
      var found, newptr, k := FindFit(sz);
      if !found {
        return true, 0;
      }
      HeaderEnds(State(), k);
      halted, p := false, newptr + HEADER_SIZE;
      var next, size', free := Fields(newptr, k);
      if size' >= Wrap(sz + HEADER_SIZE + SPLIT_THRESHOLD) {
        TakePart(k, newptr, sz);
      } else {
        TakeAll(k, newptr);
      }
    }

    /** Free block k is split at sz. */
    method TakePart(ghost k: nat, block: word, sz: word)
      requires WellFormed() && k < |bs| && bs[k].free && bs[k].addr == block
      requires sz % 4 == 0 && sz + HEADER_SIZE <= bs[k].size
      modifies this, mem
      ensures WellFormed() && State() == Split(old(State()), k, sz)
    {
      ghost var t := Split(State(), k, sz);
      SplitBlockSplits(State(), k, sz);
      SplitInv(State(), k, sz);
      SplitBlock(block, sz);
      Adopt(t);
    }

    /** Free block k is marked used and kept whole. */
    method TakeAll(ghost k: nat, block: word)
      requires WellFormed() && k < |bs| && bs[k].free && bs[k].addr == block && bs[k].End() <= mem.Length
      modifies this, mem
      ensures WellFormed() && State() == Mark(old(State()), k, false)
    {
      ghost var t := Mark(State(), k, false);
      MarkInv(State(), k, false);
      WriteWord(mem, block + 12, 0);
      Adopt(t);
    }

    /** kfree: the header sixteen bytes before ptr is marked free. */
    method Kfree(ptr: word)
      requires WellFormed() && HasBlock(bs, ptr)
      modifies this, mem
      ensures WellFormed() && State() == Allocator.Kfree(old(State()), ptr)
      ensures view == old(view) - {ptr} && SameLow(old(mem[..]), mem[..])
    {
      ghost var t := Allocator.Kfree(State(), ptr);
      KfreeReleases(State(), ptr);
      HeaderEnds(State(), BlockIndex(bs, ptr));
      WriteWord(mem, ptr - HEADER_SIZE + 12, 1);
      Adopt(t);
    }

    /** krealloc: the block stays when it is large enough, and moves with its bytes otherwise. */
    method Krealloc(ptr: word, newsz: word) returns (halted: bool, p: word)
      requires WellFormed() && ptr in view && !Allocator.Krealloc(State(), ptr, newsz).Outside?
      modifies this, mem
      ensures Answers(Allocator.Krealloc(old(State()), ptr, newsz), old(State()), halted, p)
    {
      HeaderOf(State(), ptr);
      if Word(mem, ptr - HEADER_SIZE + 8) < newsz {
        if Allocator.Kmalloc(State(), newsz).Got? {
          KreallocMovesOut(State(), ptr, newsz);
        } else {
          KreallocNoRoom(State(), ptr, newsz);
        }
        halted, p := Kmalloc(newsz);
        if !halted {
          ghost var o := MoveOut(State(), ptr, p);
          Moving(this, ptr, p, o);
          MoveBytes(p, ptr, o);
        }
      } else {
        halted, p := false, ptr;
      }
    }

    /** The second half of krealloc, once the new block has been found. */
    method MoveBytes(newptr: word, ptr: word, ghost o: Outcome)
      requires HEADER_SIZE <= ptr <= mem.Length
      requires var len := Word(mem, ptr - HEADER_SIZE + 8);
        && ptr + len <= mem.Length && newptr + len <= mem.Length && (newptr <= ptr || ptr + len <= newptr)
        && Leaves(o, MovedBytes(mem[..], ptr, newptr, len), newptr)
      modifies this, mem
      ensures forall s :: Answers(o, s, false, newptr)
    {
      hide Answers, Leaves, Copied, Load;
      MemCpy(mem, newptr, ptr, Word(mem, ptr - HEADER_SIZE + 8));
      WriteWord(mem, ptr - HEADER_SIZE + 12, 1);   // kfree(ptr)
      Settle(o, newptr);
    }

    /** The heap fields catch up with memory that already is as o says. */
    ghost method Settle(o: Outcome, p: nat)
      requires Leaves(o, mem[..], p)
      modifies this
      ensures forall s :: Answers(o, s, false, p)
    {
      if o.Got? {
        Adopt(o.s);
      }
    }

    /** next_ptr, block_size and is_free of the header of block k. */
    method Fields(blockptr: word, ghost k: nat) returns (next: word, size: word, free: bool)
      requires WellFormed() && k < |bs| && blockptr == bs[k].addr
      ensures next == (if k + 1 < |bs| then bs[k + 1].addr else 0) && blockptr != 0
      ensures size == bs[k].size && free == bs[k].free
    {
      WalkStep(State(), k);
      next, size := Word(mem, blockptr), Word(mem, blockptr + 8);
      var flag := Word(mem, blockptr + 12);
      free := flag == 1;
    }

    /** total_blocks */
    method TotalBlocks() returns (n: nat)
      requires WellFormed()
      ensures n == |bs|
    {
      n := 0;
      var blockptr := HEAP_START;
      ghost var k := 0;
      while blockptr != 0
        invariant k <= |bs| && blockptr == (if k < |bs| then bs[k].addr else 0)
        invariant n == |bs[..k]|
        decreases |bs| - k
      {
        var next, size, free := Fields(blockptr, k);
        n := n + 1;
        blockptr, k := next, k + 1;
      }
      assert bs[..k] == bs;
    }

    /** free_blocks */
    method FreeBlocks() returns (n: nat)
      requires WellFormed()
      ensures n == Count(bs, true)
    {
      n := 0;
      var blockptr := HEAP_START;
      ghost var k := 0;
      while blockptr != 0
        invariant k <= |bs| && blockptr == (if k < |bs| then bs[k].addr else 0)
        invariant n == Count(bs[..k], true)
        decreases |bs| - k
      {
        var next, size, free := Fields(blockptr, k);
        SumStep(bs, k, true);
        if free {
          n := n + 1;
        }
        blockptr, k := next, k + 1;
      }
      assert bs[..k] == bs;
    }

    /** used_blocks */
    method UsedBlocks() returns (n: nat)
      requires WellFormed()
      ensures n == Count(bs, false)
    {
      n := 0;
      var blockptr := HEAP_START;
      ghost var k := 0;
      while blockptr != 0
        invariant k <= |bs| && blockptr == (if k < |bs| then bs[k].addr else 0)
        invariant n == Count(bs[..k], false)
        decreases |bs| - k
      {
        var next, size, free := Fields(blockptr, k);
        SumStep(bs, k, false);
        if !free {
          n := n + 1;
        }
        blockptr, k := next, k + 1;
      }
      assert bs[..k] == bs;
    }

    /** free_memory */
    method FreeMemory() returns (n: nat)
      requires WellFormed()
      ensures n == Total(bs, true)
    {
      n := 0;
      var blockptr := HEAP_START;
      ghost var k := 0;
      while blockptr != 0
        invariant k <= |bs| && blockptr == (if k < |bs| then bs[k].addr else 0)
        invariant n == Total(bs[..k], true)
        decreases |bs| - k
      {
        var next, size, free := Fields(blockptr, k);
        SumStep(bs, k, true);
        if free {
          n := n + size;
        }
        blockptr, k := next, k + 1;
      }
      assert bs[..k] == bs;
    }

    /** used_memory */
    method UsedMemory() returns (n: nat)
      requires WellFormed()
      ensures n == Total(bs, false)
    {
      n := 0;
      var blockptr := HEAP_START;
      ghost var k := 0;
      while blockptr != 0
        invariant k <= |bs| && blockptr == (if k < |bs| then bs[k].addr else 0)
        invariant n == Total(bs[..k], false)
        decreases |bs| - k
      {
        var next, size, free := Fields(blockptr, k);
        SumStep(bs, k, false);
        if !free {
          n := n + size;
        }
        blockptr, k := next, k + 1;
      }
      assert bs[..k] == bs;
    }

    // ---------- the calls of the system library ----------

    /** malloc: a kmalloc that the caller has made sure can be served. */
    method Malloc(size: word) returns (halted: bool, p: word)
      requires Valid() && Servable(bs, size)
      modifies this, mem
      ensures Valid() && SameLow(old(mem[..]), mem[..])
      ensures halted <==> Starved(old(bs), RoundUp(size))
      ensures halted ==> view == old(view) && bs == old(bs)
      ensures !halted ==> bs == Served(old(bs), RoundUp(size)) && p == PlacedAt(old(bs), RoundUp(size))
      ensures !halted ==> p !in old(view) && p in view && view == old(view)[p := view[p]]
      ensures !halted ==> size <= RoundUp(size) <= |view[p]|
      ensures !halted ==> HEAP_START < p && |bs| > 1
    {
      Opened();
      ghost var s := State();
      KmallocRow(s, size);
      halted, p := Kmalloc(size);
      if !halted {
        KmallocDelivers(s, size);
        MallocLeaves(s, size);
      }
    }

    /** free */
    method Free(ptr: word)
      requires Valid() && ptr in view
      modifies this, mem
      ensures Valid() && view == old(view) - {ptr} && SameLow(old(mem[..]), mem[..])
      ensures bs == Freed(old(bs), ptr)
    {
      Opened();
      LiveHasBlock(State(), ptr);
      KfreeRow(State(), ptr);
      Kfree(ptr);
    }

    /** realloc */
    method Realloc(ptr: word, newsz: word) returns (halted: bool, p: word)
      requires Valid() && ptr in view && newsz <= MAX_REQUEST
      modifies this, mem
      ensures Valid() && SameLow(old(mem[..]), mem[..])
      ensures halted <==> |old(view)[ptr]| < newsz && Starved(old(bs), RoundUp(newsz))
      ensures halted ==> view == old(view) && bs == old(bs)
      ensures !halted ==> p in view && newsz <= |view[p]| && old(view)[ptr] <= view[p]
      ensures !halted ==> view == (old(view) - {ptr})[p := view[p]] && (p == ptr || p !in old(view))
      ensures !halted && newsz <= |old(view)[ptr]| ==> p == ptr && bs == old(bs) && view == old(view)
      ensures !halted && |old(view)[ptr]| < newsz ==>
        p == PlacedAt(old(bs), RoundUp(newsz)) && bs == Freed(Served(old(bs), RoundUp(newsz)), ptr)
      ensures old(|bs|) <= |bs|
    {
      Opened();
      ghost var s := State();
      KreallocHalts(s, ptr, newsz);
      if newsz <= |ViewOf(s)[ptr]| {
        KreallocStays(s, ptr, newsz);
      }
      if !Allocator.Krealloc(s, ptr, newsz).Halted? {
        KreallocMoves(s, ptr, newsz);
        KreallocGrows(s, ptr, newsz);
        if |ViewOf(s)[ptr]| < newsz {
          KreallocRow(s, ptr, newsz);
        }
      }
      halted, p := Krealloc(ptr, newsz);
    }

    /** One byte behind a live pointer. */
    method Peek(p: word, k: nat) returns (x: byte)
      requires Valid() && p in view && k < |view[p]|
      ensures x == view[p][k]
    {
      Opened();
      PeekAt(State(), p, k);
      x := mem[p + k];
    }

    /** A store through a live pointer: one byte of the view changes, and the heap stays well-formed. */
    method Poke(p: word, k: nat, x: byte)
      requires Valid() && p in view && k < |view[p]|
      modifies this, mem
      ensures Valid() && view == old(view)[p := Put(old(view)[p], k, x)] && SameLow(old(mem[..]), mem[..])
      ensures bs == old(bs)
    {
      Opened();
      PokeAt(State(), p, k, x);
      ghost var t := HState(Put(mem[..], p + k, x), bs);
      mem[p + k] := x;
      Adopt(t);
    }

    method PeekWord(p: word, k: nat) returns (v: word)
      requires Valid() && p in view && k + 4 <= |view[p]|
      ensures v == Load(view[p], k)
    {
      Opened();
      PeekWordAt(State(), p, k);
      v := Word(mem, p + k);
    }

    method PokeWord(p: word, k: nat, v: word)
      requires Valid() && p in view && k + 4 <= |view[p]|
      modifies this, mem
      ensures Valid() && view == old(view)[p := Store(old(view)[p], k, v)] && SameLow(old(mem[..]), mem[..])
      ensures bs == old(bs)
    {
      ghost var t := PokedWord(this, p, k, v);
      WriteWord(mem, p + k, v);
      Adopt(t);
    }

    /** size rounded up by the source's counting loop. */
    static method CountUp(size: word) returns (r: word)
      ensures r == RoundUp(size)
    {
      r := size;
      while r % 4 != 0
        invariant RoundUp(r) == RoundUp(size)
        decreases Short(r)
      {
        OneMore(r);
        r := Wrap(r + 1);
      }
    }

    /** splitblock on the header at block, with the refusal test and the address sum in 32-bit arithmetic. */
    method SplitBlock(block: word, size: word)
      requires block + HEADER_SIZE <= mem.Length <= WORD_LIMIT
      requires GoesAhead(mem[..], block, size) ==> NewHeader(block, size) + HEADER_SIZE <= mem.Length
      modifies mem
      ensures mem[..] == AfterSplitBlock(old(mem[..]), block, size)
    {
      if Wrap(size + HEADER_SIZE) > Word(mem, block + 8) || Word(mem, block + 12) == 0 {
        return;
      }
      var newblock := Wrap(block + HEADER_SIZE + size);
      FillNewBlock(block, newblock, size);
      WriteWord(mem, block, newblock);
      WriteWord(mem, block + 8, size);
      WriteWord(mem, block + 12, 0);
    }

    /** The part of splitblock that sets up the header of the new block. */
    method FillNewBlock(block: word, newblock: word, size: word)
      requires block + HEADER_SIZE <= mem.Length && newblock + HEADER_SIZE <= mem.Length <= WORD_LIMIT
      modifies mem
      ensures mem[..] == FillHeader(old(mem[..]), block, newblock, size)
    {
      WriteWord(mem, newblock + 12, 1);
      WriteWord(mem, newblock + 4, block);
      WriteWord(mem, newblock, Word(mem, block));
      WriteWord(mem, newblock + 8, Wrap(Word(mem, block + 8) - (size + HEADER_SIZE)));
    }
  }

  /** How far r is from the next multiple of four. */
  function Short(r: nat): nat {
    (4 - r % 4) % 4
  }

  /** One turn of the counting loop comes closer and does not change where it ends. */
  lemma OneMore(r: word)
    requires r % 4 != 0
    ensures RoundUp(Wrap(r + 1)) == RoundUp(r) && Short(Wrap(r + 1)) < Short(r)
  {
    var q := r / 4;
    assert r == 4 * q + r % 4;
    if r + 1 < WORD_LIMIT {
      assert (r + 1) % 4 == (r % 4 + 1) % 4;
    } else {
      assert Wrap(r + 1) == 0;
    }
  }

  /** What the copy of krealloc and the store behind it make of memory. */
  lemma Moving(h: Heap, p: nat, q: nat, o: Outcome)
    requires h.WellFormed() && p in h.view && q in h.view && p != q
    requires o == MoveOut(h.State(), p, q) && !o.Outside?
    ensures var len := |h.view[p]|;
      && HEADER_SIZE <= p && p + len <= h.mem.Length && q + len <= h.mem.Length && (q <= p || p + len <= q)
      && Word(h.mem, p - HEADER_SIZE + 8) == len
      && Leaves(o, MovedBytes(h.mem[..], p, q, len), q)
  {
    HeaderOf(h.State(), p);
    MoveOutBytes(h.State(), p, q);
  }

  lemma SizeOfLive(h: Heap, p: nat)
    requires h.Valid() && p in h.view
    ensures SizeAt(h.bs, p) == |h.view[p]|
  {
    h.Opened();
    SizeBehind(h.State(), p);
  }

  /** The well-formed heap that a word stored through a live pointer leaves. */
  lemma PokedWord(h: Heap, p: nat, k: nat, v: word) returns (t: HState)
    requires h.Valid() && p in h.view && k + 4 <= |h.view[p]|
    ensures p + k + 4 <= h.mem.Length && t == HState(Store(h.mem[..], p + k, v), h.bs) && Inv(t)
    ensures ViewOf(t) == h.view[p := Store(h.view[p], k, v)] && SameLow(h.mem[..], t.m)
  {
    h.Opened();
    PokeWordAt(h.State(), p, k, v);
    t := HState(Store(h.mem[..], p + k, v), h.bs);
  }

  lemma InitStores(m: seq<byte>, a: nat, size: word)
    requires a + HEADER_SIZE <= |m|
    ensures var m' := Store(Store(Store(Store(m, a, 0), a + 4, 0), a + 8, size), a + 12, 1);
      && |m'| == |m|
      && Load(m', a) == 0 && Load(m', a + 4) == 0 && Load(m', a + 8) == size && Load(m', a + 12) == 1
      && forall k :: 0 <= k < |m| && !(a <= k < a + HEADER_SIZE) ==> m'[k] == m[k]
  {
    var m1 := Store(m, a, 0);
    var m2 := Store(m1, a + 4, 0);
    var m3 := Store(m2, a + 8, size);
    LoadOther(m1, a + 4, 0, a);
    LoadOther(m2, a + 8, size, a);
    LoadOther(m2, a + 8, size, a + 4);
    LoadOther(m3, a + 12, 1, a);
    LoadOther(m3, a + 12, 1, a + 4);
    LoadOther(m3, a + 12, 1, a + 8);
  }

  lemma RootSize(heapsize: nat)
    requires 1 <= heapsize
    ensures (heapsize * 1024 - HEADER_SIZE) % 4 == 0
  {
    assert heapsize * 1024 - HEADER_SIZE == 4 * (heapsize * 256 - 4);
  }

  lemma InitInv(m: seq<byte>, heapsize: nat)
    requires 1 <= heapsize && heapsize * 1024 < 0x8000_0000 && |m| == HEAP_START + heapsize * 1024
    requires Load(m, HEAP_START) == 0 && Load(m, HEAP_START + 4) == 0
    requires Load(m, HEAP_START + 8) == heapsize * 1024 - HEADER_SIZE && Load(m, HEAP_START + 12) == 1
    ensures var s := HState(m, [Block(HEAP_START, 0, heapsize * 1024 - HEADER_SIZE, true)]);
      Inv(s) && ViewOf(s) == map[]
  {
    var bs := [Block(HEAP_START, 0, heapsize * 1024 - HEADER_SIZE, true)];
    RootSize(heapsize);
    assert InPlace(bs, |m|, 0);
    assert PrevEarlier(bs, 0);
    assert Encodes(m, bs, 0);
  }

  /** The root header as memory_init leaves it. */
  lemma InitBytes(m: seq<byte>, heapsize: nat)
    requires 1 <= heapsize && Inv(HState(m, [Block(HEAP_START, 0, heapsize * 1024 - HEADER_SIZE, true)]))
    ensures HEAP_START + 16 <= |m| && heapsize * 1024 - HEADER_SIZE < WORD_LIMIT
    ensures m[HEAP_START..HEAP_START + 16] ==
      [0, 0, 0, 0] + [0, 0, 0, 0] + LittleEndian(heapsize * 1024 - HEADER_SIZE) + [1, 0, 0, 0]
  {
    HeaderBytes(HState(m, [Block(HEAP_START, 0, heapsize * 1024 - HEADER_SIZE, true)]), 0);
    assert LittleEndian(0) == [0, 0, 0, 0] && LittleEndian(1) == [1, 0, 0, 0];
    Sixteen(m, HEAP_START);
  }

  lemma Sixteen(m: seq<byte>, a: nat)
    requires a + 16 <= |m|
    ensures m[a..a + 16] == m[a..a + 4] + m[a + 4..a + 8] + m[a + 8..a + 12] + m[a + 12..a + 16]
  {
  }

  /** Any request of up to 992 bytes is servable, even the first one. */
  lemma SmallServable(h: Heap, k: word)
    requires h.Valid() && k <= 992
    ensures Servable(h.bs, k)
  {
    h.Opened();
    assert InPlace(h.bs, h.mem.Length, 0);
  }
}
