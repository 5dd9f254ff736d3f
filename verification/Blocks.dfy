/** The kernel heap seen as a row of blocks: how a first-fit request changes it and what every change keeps. */
module Blocks {
  import opened Bytes

  const HEAP_START: nat := 0x10_0000
  const HEADER_SIZE: nat := 16
  const SPLIT_THRESHOLD: nat := 4

  /** Requests above this wrap to zero while they are rounded up to a multiple of four. */
  const MAX_REQUEST: word := 0xFFFF_FFFC

  /** A header at addr followed by size payload bytes; prev is the header's back pointer. */
  datatype Block = Block(addr: nat, prev: nat, size: nat, free: bool) {
    function Data(): nat { addr + HEADER_SIZE }

    function End(): nat { addr + HEADER_SIZE + size }
  }

  // ---------- the row of blocks ----------

  /** Block i has an aligned size and ends where block i + 1 starts, or at top. */
  ghost predicate InPlace(bs: seq<Block>, top: nat, i: nat)
    requires i < |bs|
  {
    && bs[i].size % 4 == 0
    && bs[i].End() == if i + 1 < |bs| then bs[i + 1].addr else top
  }

  /** Blocks cover the memory from HEAP_START to top without gap or overlap. */
  ghost predicate Tiled(bs: seq<Block>, top: nat) {
    && |bs| > 0
    && bs[0].addr == HEAP_START
    && forall i {:trigger InPlace(bs, top, i)} :: 0 <= i < |bs| ==> InPlace(bs, top, i)
  }

  /** Block i is the root, or its back pointer names an earlier header. */
  ghost predicate PrevEarlier(bs: seq<Block>, i: nat)
    requires i < |bs|
  {
    if i == 0 then bs[0].prev == 0 else exists j :: 0 <= j < i && bs[j].addr == bs[i].prev
  }

  ghost predicate PrevsEarlier(bs: seq<Block>) {
    forall i {:trigger PrevEarlier(bs, i)} :: 0 <= i < |bs| ==> PrevEarlier(bs, i)
  }

  /** Every block lies inside the heap and ends before any later block starts. */
  ghost predicate Apart(bs: seq<Block>, top: nat) {
    && (forall i, j :: 0 <= i < j < |bs| ==> bs[i].End() <= bs[j].addr)
    && (forall i :: 0 <= i < |bs| ==> HEAP_START <= bs[i].addr && bs[i].End() <= top)
  }

  lemma {:induction false} TiledStep(bs: seq<Block>, top: nat, i: nat, j: nat)
    requires Tiled(bs, top)
    requires i < j < |bs|
    ensures bs[i].End() <= bs[j].addr
  {
    assert InPlace(bs, top, j - 1);
    if i + 1 < j {
      TiledStep(bs, top, i, j - 1);
    }
  }

  lemma TiledApart(bs: seq<Block>, top: nat)
    requires Tiled(bs, top)
    ensures Apart(bs, top)
  {
    forall i, j | 0 <= i < j < |bs|
      ensures bs[i].End() <= bs[j].addr
    {
      TiledStep(bs, top, i, j);
    }
    forall i | 0 <= i < |bs|
      ensures HEAP_START <= bs[i].addr && bs[i].End() <= top
    {
      assert InPlace(bs, top, |bs| - 1);
      if 0 < i { TiledStep(bs, top, 0, i); }
      if i < |bs| - 1 { TiledStep(bs, top, i, |bs| - 1); }
    }
  }

  lemma AlignedSum(a: nat, b: nat)
    requires a % 4 == 0 && b % 4 == 0
    ensures (a + HEADER_SIZE + b) % 4 == 0
  {
  }

  lemma {:induction false} TiledAligned(bs: seq<Block>, top: nat, i: nat)
    requires Tiled(bs, top)
    requires i < |bs|
    ensures bs[i].addr % 4 == 0
  {
    if 0 < i {
      TiledAligned(bs, top, i - 1);
      assert InPlace(bs, top, i - 1);
      AlignedSum(bs[i - 1].addr, bs[i - 1].size);
    }
  }

  // ---------- requests ----------

  /** The loop `while (size % 4 != 0) size++` on a 32-bit size. */
  function RoundUp(n: word): (r: word)
    ensures r % 4 == 0
    ensures n <= MAX_REQUEST ==> n <= r < n + 4
    ensures n > MAX_REQUEST ==> r == 0
  {
    if n > MAX_REQUEST then 0 else (n + 3) / 4 * 4
  }

  predicate Fits(b: Block, n: nat) {
    b.free && n <= b.size
  }

  /** The first block from k onwards that fits, or the number of blocks. */
  function FirstFit(bs: seq<Block>, n: nat, k: nat): (i: nat)
    requires k <= |bs|
    ensures k <= i <= |bs|
    ensures forall j :: k <= j < i ==> !Fits(bs[j], n)
    ensures i < |bs| ==> Fits(bs[i], n)
    decreases |bs| - k
  {
    if k == |bs| || Fits(bs[k], n) then k else FirstFit(bs, n, k + 1)
  }

  lemma FirstFitUnique(bs: seq<Block>, n: nat, i: nat)
    requires i <= |bs|
    requires forall j :: 0 <= j < i ==> !Fits(bs[j], n)
    requires i < |bs| ==> Fits(bs[i], n)
    ensures FirstFit(bs, n, 0) == i
  {
  }

  /** What a rounded request does to the row. */
  datatype Placement =
    | OutOfMemory
    | RefusedSplit         // the lone free block is too small, and is handed out all the same
    | Cut(i: nat)          // block i is split at the request
    | Whole(i: nat)        // block i is taken as it is

  predicate Lone(bs: seq<Block>) {
    |bs| == 1 && bs[0].free
  }

  function Place(bs: seq<Block>, n: nat): Placement {
    if Lone(bs) then
      if n + HEADER_SIZE <= bs[0].size then Cut(0) else RefusedSplit
    else
      var i := FirstFit(bs, n, 0);
      if i == |bs| then OutOfMemory
      else if bs[i].size >= n + HEADER_SIZE + SPLIT_THRESHOLD then Cut(i)
      else Whole(i)
  }

  /** No free block is large enough. */
  ghost predicate Starved(bs: seq<Block>, n: nat) {
    forall b :: b in bs ==> !Fits(b, n)
  }

  function SplitAt(bs: seq<Block>, i: nat, n: nat): seq<Block>
    requires i < |bs| && n + HEADER_SIZE <= bs[i].size
  {
    var b := bs[i];
    bs[..i]
    + [Block(b.addr, b.prev, n, false), Block(b.addr + HEADER_SIZE + n, b.addr, b.size - n - HEADER_SIZE, true)]
    + bs[i + 1..]
  }

  function MarkAt(bs: seq<Block>, i: nat, free: bool): seq<Block>
    requires i < |bs|
  {
    bs[i := bs[i].(free := free)]
  }

  /** The row after a rounded request. */
  function Served(bs: seq<Block>, n: nat): seq<Block> {
    match Place(bs, n)
    case OutOfMemory => bs
    case RefusedSplit => bs
    case Cut(i) => SplitAt(bs, i, n)
    case Whole(i) => MarkAt(bs, i, false)
  }

  /** The pointer a rounded request hands out. */
  function PlacedAt(bs: seq<Block>, n: nat): nat {
    match Place(bs, n)
    case OutOfMemory => 0
    case RefusedSplit => bs[0].Data()
    case Cut(i) => bs[i].Data()
    case Whole(i) => bs[i].Data()
  }

  /** The block with its payload at p, or the number of blocks. */
  function IndexOf(bs: seq<Block>, p: nat): (i: nat)
    ensures i <= |bs| && (i < |bs| ==> bs[i].Data() == p) && forall j :: 0 <= j < i ==> bs[j].Data() != p
  {
    if bs == [] || bs[0].Data() == p then 0 else 1 + IndexOf(bs[1..], p)
  }

  /** The row after p is freed. */
  function Freed(bs: seq<Block>, p: nat): seq<Block> {
    var i := IndexOf(bs, p);
    if i < |bs| then MarkAt(bs, i, true) else bs
  }

  /** How many bytes are behind p. */
  function SizeAt(bs: seq<Block>, p: nat): nat {
    var i := IndexOf(bs, p);
    if i < |bs| then bs[i].size else 0
  }

  // ---------- room ----------

  /** The size of the largest free block. */
  function Room(bs: seq<Block>): (r: nat)
    ensures forall b :: b in bs && b.free ==> b.size <= r
    ensures r == 0 || exists b :: b in bs && b.free && b.size == r
  {
    if bs == [] then 0
    else
      var rest, b := Room(bs[1..]), bs[0];
      if b.free && rest < b.size then b.size else rest
  }

  lemma RoomAtLeast(bs: seq<Block>, i: nat)
    requires i < |bs| && bs[i].free
    ensures bs[i].size <= Room(bs)
  {
    assert bs[i] in bs;
  }

  /** A request no larger than the largest free block finds a block. */
  lemma RoomFeeds(bs: seq<Block>, n: nat)
    requires 0 < n <= Room(bs)
    ensures !Starved(bs, n)
  {
    var b :| b in bs && b.free && b.size == Room(bs);
    assert Fits(b, n);
  }

  /** The largest free block, if there is one. */
  lemma Roomiest(bs: seq<Block>) returns (k: nat)
    ensures if k < |bs| then bs[k].free && bs[k].size == Room(bs) else k == |bs| && Room(bs) == 0
  {
    k := |bs|;
    if 0 < Room(bs) {
      var b :| b in bs && b.free && b.size == Room(bs);
      k :| 0 <= k < |bs| && bs[k] == b;
    }
  }

  lemma SplitParts(bs: seq<Block>, i: nat, n: nat)
    requires i < |bs| && n + HEADER_SIZE <= bs[i].size
    ensures var ds, b := SplitAt(bs, i, n), bs[i];
      && |ds| == |bs| + 1 && ds[..i] == bs[..i] && ds[i + 2..] == bs[i + 1..]
      && ds[i] == Block(b.addr, b.prev, n, false)
      && ds[i + 1] == Block(b.addr + HEADER_SIZE + n, b.addr, b.size - n - HEADER_SIZE, true)
  {
  }

  lemma SplitKept(bs: seq<Block>, i: nat, n: nat, k: nat)
    requires i < |bs| && n + HEADER_SIZE <= bs[i].size && k < |bs|
    ensures var ds := SplitAt(bs, i, n);
      && |ds| == |bs| + 1 && ds[i + 1].free && ds[i + 1].size == bs[i].size - n - HEADER_SIZE
      && (k < i ==> ds[k] == bs[k]) && (i < k ==> ds[k + 1] == bs[k])
  {
  }

  lemma CutRoom(bs: seq<Block>, i: nat, n: nat)
    requires i < |bs| && n + HEADER_SIZE <= bs[i].size
    ensures Room(bs) <= Room(SplitAt(bs, i, n)) + n + HEADER_SIZE
  {
    hide Room, SplitAt;
    var k := Roomiest(bs);
    if k < |bs| {
      SplitKept(bs, i, n, k);
      RoomAtLeast(SplitAt(bs, i, n), if k < i then k else if k == i then i + 1 else k + 1);
    }
  }

  lemma TakenRoom(bs: seq<Block>, i: nat)
    requires i < |bs|
    ensures Room(bs) <= Room(MarkAt(bs, i, false)) + bs[i].size
  {
    var k := Roomiest(bs);
    var ds := MarkAt(bs, i, false);
    if k < |bs| && k != i {
      assert ds[k] == bs[k];
      RoomAtLeast(ds, k);
    }
  }

  /** A request takes at most its size, a header and the split threshold from the largest free block. */
  lemma ServedRoom(bs: seq<Block>, n: nat)
    ensures Room(bs) <= Room(Served(bs, n)) + n + HEADER_SIZE + SPLIT_THRESHOLD
  {
    match Place(bs, n) {
      case OutOfMemory =>
      case RefusedSplit =>
      case Cut(i) => CutRoom(bs, i, n);
      case Whole(i) => TakenRoom(bs, i);
    }
  }

  /** What a request for n bytes can take from the largest free block. */
  function Takes(n: nat): nat {
    if n == 0 then 0 else n + 3 + HEADER_SIZE + SPLIT_THRESHOLD
  }

  /** Whoever halted the machine found less room than the cost, and whoever did not has taken no more. */
  ghost predicate Spends(bs: seq<Block>, after: seq<Block>, halted: bool, cost: nat) {
    if halted then Room(bs) < cost else Room(bs) <= Room(after) + cost
  }

  lemma SpendsBoth(bs: seq<Block>, mid: seq<Block>, after: seq<Block>, halted: bool, x: nat, y: nat)
    requires Spends(bs, mid, false, x) && Spends(mid, after, halted, y)
    ensures Spends(bs, after, halted, x + y)
  {
    hide Room;
  }

  lemma RequestSpends(bs: seq<Block>, n: word)
    requires 0 < n <= MAX_REQUEST
    ensures Spends(bs, Served(bs, RoundUp(n)), Starved(bs, RoundUp(n)), Takes(n))
  {
    ServedRoom(bs, RoundUp(n));
    if RoundUp(n) <= Room(bs) {
      RoomFeeds(bs, RoundUp(n));
    }
  }

  /** Freeing takes nothing from it. */
  lemma FreedRoom(bs: seq<Block>, p: nat)
    ensures Room(bs) <= Room(Freed(bs, p))
  {
    if 0 < Room(bs) {
      var b :| b in bs && b.free && b.size == Room(bs);
      var k :| 0 <= k < |bs| && bs[k] == b;
      RoomAtLeast(Freed(bs, p), k);
    }
  }

  lemma FreeSpends(bs: seq<Block>, p: nat, q: nat)
    ensures Spends(bs, Freed(Freed(bs, p), q), false, 0)
  {
    FreedRoom(bs, p);
    FreedRoom(Freed(bs, p), q);
  }

  /** A row is starved exactly when the search runs off its end. */
  lemma StarvedIsNoFit(bs: seq<Block>, n: nat)
    ensures Starved(bs, n) <==> FirstFit(bs, n, 0) == |bs|
  {
    var i := FirstFit(bs, n, 0);
    if i < |bs| {
      assert bs[i] in bs;
    }
  }

  // ---------- what the changes keep ----------

  lemma SplitKeepsTiling(bs: seq<Block>, top: nat, i: nat, n: nat)
    requires Tiled(bs, top) && i < |bs| && n % 4 == 0 && n + HEADER_SIZE <= bs[i].size
    ensures Tiled(SplitAt(bs, i, n), top)
  {
    var ds := SplitAt(bs, i, n);
    assert InPlace(bs, top, i);
    forall k | 0 <= k < |ds|
      ensures InPlace(ds, top, k)
    {
      if k < i {
        assert InPlace(bs, top, k);
      } else if i + 1 < k {
        assert InPlace(bs, top, k - 1);
      }
    }
  }

  lemma SplitKeepsPrevs(bs: seq<Block>, i: nat, n: nat)
    requires PrevsEarlier(bs) && i < |bs| && n + HEADER_SIZE <= bs[i].size
    ensures PrevsEarlier(SplitAt(bs, i, n))
  {
    var ds := SplitAt(bs, i, n);
    forall k | 0 <= k < |ds|
      ensures PrevEarlier(ds, k)
    {
      if k == i + 1 {
        assert ds[i].addr == ds[k].prev;
      } else {
        var o := if k <= i then k else k - 1;   // where block k was before the split
        assert ds[k].prev == bs[o].prev;
        assert PrevEarlier(bs, o);
        if o > 0 {
          var j :| 0 <= j < o && bs[j].addr == bs[o].prev;
          assert ds[if j <= i then j else j + 1].addr == bs[j].addr;
        }
      }
    }
  }

  lemma MarkKeepsRow(bs: seq<Block>, top: nat, i: nat, free: bool)
    requires Tiled(bs, top) && PrevsEarlier(bs) && i < |bs|
    ensures Tiled(MarkAt(bs, i, free), top)
    ensures PrevsEarlier(MarkAt(bs, i, free))
  {
    var ds := MarkAt(bs, i, free);
    forall k | 0 <= k < |ds|
      ensures InPlace(ds, top, k)
    {
      assert InPlace(bs, top, k);
    }
    forall k | 0 <= k < |ds|
      ensures PrevEarlier(ds, k)
    {
      assert PrevEarlier(bs, k);
      if k > 0 {
        var j :| 0 <= j < k && bs[j].addr == bs[k].prev;
        assert ds[j].addr == ds[k].prev;
      }
    }
  }

  // ---------- boundaries ----------

  ghost function Headers(bs: seq<Block>): set<nat> {
    set b | b in bs :: b.addr
  }

  /** A split adds one boundary and removes none. */
  lemma SplitRefines(bs: seq<Block>, i: nat, n: nat)
    requires i < |bs| && n + HEADER_SIZE <= bs[i].size
    ensures Headers(SplitAt(bs, i, n)) == Headers(bs) + {bs[i].addr + HEADER_SIZE + n}
  {
    var ds := SplitAt(bs, i, n);
    forall b | b in bs
      ensures b.addr in Headers(ds)
    {
      var k :| 0 <= k < |bs| && bs[k] == b;
      assert ds[if k <= i then k else k + 1].addr == b.addr;
    }
    assert ds[i + 1].addr in Headers(ds);
    forall d | d in ds
      ensures d.addr in Headers(bs) + {bs[i].addr + HEADER_SIZE + n}
    {
      var k :| 0 <= k < |ds| && ds[k] == d;
      if k != i + 1 {
        assert bs[if k <= i then k else k - 1].addr == d.addr;
      }
    }
  }

  lemma MarkKeepsHeaders(bs: seq<Block>, i: nat, free: bool)
    requires i < |bs|
    ensures Headers(MarkAt(bs, i, free)) == Headers(bs)
  {
    var ds := MarkAt(bs, i, free);
    forall b | b in bs
      ensures b.addr in Headers(ds)
    {
      var k :| 0 <= k < |bs| && bs[k] == b;
      assert ds[k].addr == b.addr;
    }
    forall d | d in ds
      ensures d.addr in Headers(bs)
    {
      var k :| 0 <= k < |ds| && ds[k] == d;
      assert bs[k].addr == d.addr;
    }
  }

  // ---------- accounting ----------

  function Count(bs: seq<Block>, free: bool): (c: nat)
    ensures c <= |bs|
  {
    if bs == [] then 0
    else Count(bs[..|bs| - 1], free) + if bs[|bs| - 1].free == free then 1 else 0
  }

  function Total(bs: seq<Block>, free: bool): nat {
    if bs == [] then 0
    else Total(bs[..|bs| - 1], free) + if bs[|bs| - 1].free == free then bs[|bs| - 1].size else 0
  }

  lemma SumStep(bs: seq<Block>, k: nat, free: bool)
    requires k < |bs|
    ensures Count(bs[..k + 1], free) == Count(bs[..k], free) + if bs[k].free == free then 1 else 0
    ensures Total(bs[..k + 1], free) == Total(bs[..k], free) + if bs[k].free == free then bs[k].size else 0
  {
    assert bs[..k + 1][..k] == bs[..k];
  }

  /** Payload of both kinds plus one header a block is exactly the space from HEAP_START to the end of the row. */
  lemma {:induction false} Accounting(bs: seq<Block>, top: nat)
    requires Tiled(bs, top)
    ensures Total(bs, true) + Total(bs, false) + HEADER_SIZE * |bs| == top - HEAP_START
    ensures Count(bs, true) + Count(bs, false) == |bs|
  {
    var ds := bs[..|bs| - 1];
    assert InPlace(bs, top, |bs| - 1);
    if |bs| == 1 {
      assert ds == [];
    } else {
      var mid := bs[|bs| - 2].End();
      forall i | 0 <= i < |ds|
        ensures InPlace(ds, mid, i)
      {
        assert InPlace(bs, top, i);
      }
      assert InPlace(bs, top, |bs| - 2);
      Accounting(ds, mid);
    }
  }
}
