/** Whole runs of the allocator: any sequence of requests, releases and stores through live pointers. */
module HeapRuns {
  import opened Bytes
  import opened RawMemory
  import opened Blocks
  import opened HeapState
  import opened HeapView
  import opened Allocator

  datatype Event =
    | Malloc(n: word)
    | Free(p: nat)
    | Realloc(p: nat, n: word)
    | Poke(p: nat, k: nat, x: byte)

  /** The heap, and the callers' own account of what every live pointer must hold. */
  datatype System = Stopped | Running(s: HState, live: View)

  /** What a caller may do: serve the first request within the heap, and use only live pointers within their size. */
  ghost predicate Legal(y: System, e: Event) {
    y.Running? ==>
      match e
      case Malloc(n) => Servable(y.s.bs, n)
      case Free(p) => p in y.live
      case Realloc(p, n) => p in y.live && n <= MAX_REQUEST
      case Poke(p, k, x) => p in y.live && k < |y.live[p]|
  }

  /** Same pointers, and every byte accounted for is there. */
  ghost predicate Accounts(live: View, v: View) {
    && live.Keys == v.Keys
    && forall p :: p in live ==> live[p] <= v[p]
  }

  ghost predicate Safe(y: System) {
    y.Running? ==> Inv(y.s) && Accounts(y.live, ViewOf(y.s))
  }

  /** The bytes a caller can count on after a change of size to n: its own as far as they fit, then what is there. */
  function Carry(was: seq<byte>, n: nat, now: seq<byte>): seq<byte>
    requires n <= |now|
  {
    if n <= |was| then was[..n] else was + now[|was|..n]
  }

  ghost function AfterMalloc(s: HState, live: View, n: word): System
    requires Inv(s) && Servable(s.bs, n)
  {
    match Kmalloc(s, n)
    case Got(t, p) => KmallocDelivers(s, n); Running(t, live[p := ViewOf(t)[p][..n]])
    case _ => Stopped
  }

  ghost function AfterFree(s: HState, live: View, p: nat): System
    requires Inv(s) && p in ViewOf(s)
  {
    LiveHasBlock(s, p);
    Running(Kfree(s, p), live - {p})
  }

  ghost function AfterRealloc(s: HState, live: View, p: nat, n: word): System
    requires Inv(s) && p in ViewOf(s) && p in live && n <= MAX_REQUEST
  {
    var o := Krealloc(s, p, n);
    if o.Got? then KreallocMoves(s, p, n); Moved(live, p, n, o) else Stopped
  }

  ghost function Moved(live: View, p: nat, n: nat, o: Outcome): System
    requires p in live && o.Got? && Inv(o.s) && o.p in ViewOf(o.s) && n <= |ViewOf(o.s)[o.p]|
  {
    Running(o.s, (live - {p})[o.p := Carry(live[p], n, ViewOf(o.s)[o.p])])
  }

  ghost function AfterPoke(s: HState, live: View, p: nat, k: nat, x: byte): System
    requires Inv(s) && p in ViewOf(s) && p in live && k < |live[p]| && k < |ViewOf(s)[p]|
  {
    PokeAt(s, p, k, x);
    Running(HState(Put(s.m, p + k, x), s.bs), live[p := Put(live[p], k, x)])
  }

  ghost function Step(y: System, e: Event): System
    requires Safe(y) && Legal(y, e)
  {
    match y
    case Stopped => Stopped
    case Running(s, live) =>
      match e
      case Malloc(n) => AfterMalloc(s, live, n)
      case Free(p) => AfterFree(s, live, p)
      case Realloc(p, n) => AfterRealloc(s, live, p, n)
      case Poke(p, k, x) => AfterPoke(s, live, p, k, x)
  }

  ghost predicate LegalRun(y: System, es: seq<Event>)
    requires Safe(y)
    decreases |es|
  {
    es == [] || (Legal(y, es[0]) && (StepSafe(y, es[0]); LegalRun(Step(y, es[0]), es[1..])))
  }

  ghost function Run(y: System, es: seq<Event>): System
    requires Safe(y) && LegalRun(y, es)
    decreases |es|
  {
    if es == [] then y
    else StepSafe(y, es[0]); Run(Step(y, es[0]), es[1..])
  }

  // ---------- one step ----------

  lemma AccountNew(live: View, v: View, w: View, p: nat, n: nat)
    requires Accounts(live, v) && p in w && n <= |w[p]| && w == v[p := w[p]]
    ensures Accounts(live[p := w[p][..n]], w)
  {
  }

  lemma AccountMove(live: View, v: View, w: View, p: nat, q: nat, n: nat)
    requires Accounts(live, v) && p in v && (q == p || q !in v) && q in w && n <= |w[q]|
    requires v[p] <= w[q] && w == (v - {p})[q := w[q]]
    ensures p in live && Accounts((live - {p})[q := Carry(live[p], n, w[q])], w)
  {
    assert live[p] <= w[q];
    assert Carry(live[p], n, w[q]) <= w[q];
  }

  lemma AccountPoke(live: View, v: View, p: nat, k: nat, x: byte)
    requires Accounts(live, v) && p in live && k < |live[p]|
    ensures p in v && k < |v[p]| && Accounts(live[p := Put(live[p], k, x)], v[p := Put(v[p], k, x)])
  {
    assert live[p] <= v[p];
    assert Put(live[p], k, x) <= Put(v[p], k, x);
  }

  lemma MallocSafe(s: HState, live: View, n: word)
    requires Inv(s) && Accounts(live, ViewOf(s)) && Servable(s.bs, n)
    ensures Safe(AfterMalloc(s, live, n))
  {
    if Kmalloc(s, n).Got? {
      KmallocDelivers(s, n);
      AccountNew(live, ViewOf(s), ViewOf(Kmalloc(s, n).s), Kmalloc(s, n).p, n);
    }
  }

  lemma FreeSafe(s: HState, live: View, p: nat)
    requires Inv(s) && Accounts(live, ViewOf(s)) && p in live
    ensures Safe(AfterFree(s, live, p))
  {
    LiveHasBlock(s, p);
    KfreeReleases(s, p);
  }

  lemma MoveSafe(s: HState, live: View, p: nat, n: nat, o: Outcome)
    requires Apart(s.bs, |s.m|) && Accounts(live, ViewOf(s)) && Moves(s, p, n, o)
    ensures p in live && Safe(Moved(live, p, n, o))
  {
    AccountMove(live, ViewOf(s), ViewOf(o.s), p, o.p, n);
  }

  lemma ReallocSafe(s: HState, live: View, p: nat, n: word)
    requires Inv(s) && Accounts(live, ViewOf(s)) && p in live && n <= MAX_REQUEST
    ensures Safe(AfterRealloc(s, live, p, n))
  {
    if Krealloc(s, p, n).Got? {
      KreallocMoves(s, p, n);
      MoveSafe(s, live, p, n, Krealloc(s, p, n));
    }
  }

  lemma PokeSafe(s: HState, live: View, p: nat, k: nat, x: byte)
    requires Inv(s) && Accounts(live, ViewOf(s)) && p in live && k < |live[p]| && k < |ViewOf(s)[p]|
    ensures Safe(AfterPoke(s, live, p, k, x))
  {
    AccountPoke(live, ViewOf(s), p, k, x);
    PokeAt(s, p, k, x);
  }

  lemma StepSafe(y: System, e: Event)
    requires Safe(y) && Legal(y, e)
    ensures Safe(Step(y, e))
  {
    if y.Running? {
      match e
      case Malloc(n) => MallocSafe(y.s, y.live, n);
      case Free(p) => FreeSafe(y.s, y.live, p);
      case Realloc(p, n) => ReallocSafe(y.s, y.live, p, n);
      case Poke(p, k, x) => PokeSafe(y.s, y.live, p, k, x);
    }
  }

  /** From live to after a stretch of n bytes came under the pointer q, which was not live. */
  ghost predicate Gained(live: View, after: View, q: nat, n: nat) {
    q !in live && q in after && |after[q]| == n && after == live[q := after[q]]
  }

  /** n bytes stand under q in place of those under p, as far as both go the same bytes. */
  ghost predicate Resized(live: View, after: View, p: nat, q: nat, n: nat) {
    && p in live && (q == p || q !in live) && q in after && |after[q]| == n
    && after == (live - {p})[q := after[q]]
    && forall k :: 0 <= k < n && k < |live[p]| ==> after[q][k] == live[p][k]
  }

  /** What an event makes of the callers' account: as many bytes as were asked for, and the bytes that were stored. */
  lemma StepAccounts(y: System, e: Event) returns (q: nat)
    requires Safe(y) && Legal(y, e) && y.Running? && Step(y, e).Running?
    ensures var after := Step(y, e).live;
      match e
      case Malloc(n) => Gained(y.live, after, q, n)
      case Free(p) => after == y.live - {p}
      case Realloc(p, n) => Resized(y.live, after, p, q, n)
      case Poke(p, k, x) => p in y.live && k < |y.live[p]| && after == y.live[p := Put(y.live[p], k, x)]
  {
    q := 0;
    match e {
      case Malloc(n) =>
        KmallocDelivers(y.s, n);
        q := Kmalloc(y.s, n).p;
      case Free(p) =>
      case Realloc(p, n) =>
        KreallocMoves(y.s, p, n);
        q := Krealloc(y.s, p, n).p;
        CarryBytes(y.live[p], n, ViewOf(Krealloc(y.s, p, n).s)[q]);
      case Poke(p, k, x) =>
    }
  }

  lemma CarryBytes(was: seq<byte>, n: nat, now: seq<byte>)
    requires n <= |now|
    ensures |Carry(was, n, now)| == n
    ensures forall k :: 0 <= k < n && k < |was| ==> Carry(was, n, now)[k] == was[k]
  {
  }

  // ---------- whole runs ----------

  /** No run loses, moves or corrupts a byte a caller holds, and the headers stay well-formed. */
  lemma {:induction false} RunSafe(y: System, es: seq<Event>)
    requires Safe(y) && LegalRun(y, es)
    ensures Safe(Run(y, es))
    decreases |es|
  {
    if es != [] {
      StepSafe(y, es[0]);
      RunSafe(Step(y, es[0]), es[1..]);
    }
  }

  // ---------- boundaries only get finer ----------

  /** t has every header s has, in a memory of the same size. */
  ghost predicate Finer(s: HState, t: HState) {
    Headers(s.bs) <= Headers(t.bs) && |s.bs| <= |t.bs| && |s.m| == |t.m|
  }

  lemma MarkFiner(s: HState, i: nat, f: bool)
    requires i < |s.bs| && s.bs[i].addr + HEADER_SIZE <= |s.m|
    ensures Finer(s, Mark(s, i, f))
  {
    MarkKeepsHeaders(s.bs, i, f);
  }

  lemma SplitFiner(s: HState, i: nat, n: word)
    requires Inv(s) && i < |s.bs| && n + HEADER_SIZE <= s.bs[i].size
    ensures Finer(s, Split(s, i, n))
  {
    SplitRefines(s.bs, i, n);
  }

  lemma KmallocFiner(s: HState, n: word)
    requires Inv(s) && Kmalloc(s, n).Got?
    ensures Finer(s, Kmalloc(s, n).s)
  {
    match Place(s.bs, RoundUp(n)) {
      case RefusedSplit =>
      case Cut(i) => SplitFiner(s, i, RoundUp(n));
      case Whole(i) => MarkFiner(s, i, false);
    }
  }

  lemma KreallocFiner(s: HState, p: nat, n: word)
    requires Inv(s) && p in ViewOf(s) && n <= MAX_REQUEST && Krealloc(s, p, n).Got?
    ensures Finer(s, Krealloc(s, p, n).s)
  {
    if |ViewOf(s)[p]| < n && Kmalloc(s, n).Got? {
      KmallocFiner(s, n);
      KreallocMovesOut(s, p, n);
      RelocateFiner(Kmalloc(s, n).s, p, Kmalloc(s, n).p);
    }
  }

  lemma RelocateFiner(t: HState, p: nat, q: nat)
    requires Inv(t) && p in ViewOf(t) && q in ViewOf(t) && p != q && |ViewOf(t)[p]| <= |ViewOf(t)[q]|
    ensures Finer(t, Relocate(t, p, q))
  {
    hide Inv, ViewOf, Kfree, Relocate;
    RelocateSteps(t, p, q);
    var u := HState(Copied(t.m, q, p, |ViewOf(t)[p]|), t.bs);
    CopiedBytes(t.m, q, p, |ViewOf(t)[p]|);
    KfreeFiner(u, p);
  }

  lemma KfreeFiner(s: HState, p: nat)
    requires Inv(s) && HasBlock(s.bs, p)
    ensures Finer(s, Kfree(s, p))
  {
    HeaderEnds(s, BlockIndex(s.bs, p));
    MarkFiner(s, BlockIndex(s.bs, p), true);
  }

  /** The next state, unless the machine has stopped, has every header s has. */
  ghost predicate FinerThen(s: HState, z: System) {
    z.Running? ==> Finer(s, z.s)
  }

  lemma MallocFiner(s: HState, live: View, n: word)
    requires Inv(s) && Servable(s.bs, n)
    ensures FinerThen(s, AfterMalloc(s, live, n))
  {
    if Kmalloc(s, n).Got? {
      KmallocFiner(s, n);
    }
  }

  lemma FreeFiner(s: HState, live: View, p: nat)
    requires Inv(s) && p in ViewOf(s)
    ensures FinerThen(s, AfterFree(s, live, p))
  {
    LiveHasBlock(s, p);
    KfreeFiner(s, p);
  }

  lemma ReallocFiner(s: HState, live: View, p: nat, n: word)
    requires Inv(s) && p in ViewOf(s) && p in live && n <= MAX_REQUEST
    ensures FinerThen(s, AfterRealloc(s, live, p, n))
  {
    if Krealloc(s, p, n).Got? {
      KreallocFiner(s, p, n);
    }
  }

  lemma PokeFiner(s: HState, live: View, p: nat, k: nat, x: byte)
    requires Inv(s) && p in ViewOf(s) && p in live && k < |live[p]| && k < |ViewOf(s)[p]|
    ensures FinerThen(s, AfterPoke(s, live, p, k, x))
  {
    PokeAt(s, p, k, x);
  }

  lemma StepFiner(y: System, e: Event)
    requires Safe(y) && Legal(y, e) && y.Running?
    ensures FinerThen(y.s, Step(y, e))
  {
    match e
    case Malloc(n) => MallocFiner(y.s, y.live, n);
    case Free(p) => FreeFiner(y.s, y.live, p);
    case Realloc(p, n) => ReallocFiner(y.s, y.live, p, n);
    case Poke(p, k, x) => PokeFiner(y.s, y.live, p, k, x);
  }

  /** A header once written stays a header for the rest of the run. */
  lemma {:induction false} RunFiner(y: System, es: seq<Event>)
    requires Safe(y) && LegalRun(y, es) && y.Running? && Run(y, es).Running?
    ensures Finer(y.s, Run(y, es).s)
    decreases |es|
  {
    if es != [] {
      StepSafe(y, es[0]);
      if Step(y, es[0]).Stopped? {
        StaysStopped(es[1..]);
      } else {
        StepFiner(y, es[0]);
        RunFiner(Step(y, es[0]), es[1..]);
      }
    }
  }

  lemma {:induction false} StaysStopped(es: seq<Event>)
    requires LegalRun(Stopped, es)
    ensures Run(Stopped, es) == Stopped
    decreases |es|
  {
    if es != [] {
      StaysStopped(es[1..]);
    }
  }

  /** Once two blocks exist the branch for an untouched heap is dead: every request up to MAX_REQUEST is legal. */
  lemma NeverLoneAgain(y: System, es: seq<Event>, n: word)
    requires Safe(y) && LegalRun(y, es) && y.Running? && |y.s.bs| > 1 && n <= MAX_REQUEST
    ensures Legal(Run(y, es), Malloc(n))
  {
    if Run(y, es).Running? {
      RunFiner(y, es);
    }
  }

  /** A heap of heapsize KiB never holds more than 64 blocks a KiB, which bounds the splits of any run. */
  lemma BlockBound(s: HState, heapsize: nat)
    requires Inv(s) && |s.m| == HEAP_START + heapsize * 1024
    ensures |s.bs| <= 64 * heapsize
  {
    Accounting(s.bs, |s.m|);
  }

  // ---------- the promise to callers ----------

  /**
   * After any legal run: the bytes of memory alone, read along next_ptr, give a row of blocks that tiles the heap;
   * every live pointer still has all the bytes its caller accounts for; no two live stretches overlap; and free
   * memory, used memory and headers add up to the heap.
   */
  lemma RunKeepsPromises(y: System, es: seq<Event>, heapsize: nat)
    requires Safe(y) && LegalRun(y, es) && y.Running? && Run(y, es).Running?
    requires |y.s.m| == HEAP_START + heapsize * 1024
    ensures Promises(Run(y, es), heapsize)
  {
    RunSafe(y, es);
    RunFiner(y, es);
    SafePromises(Run(y, es), heapsize);
  }

  /** The heap memory_init leaves: one free block, no live pointer. */
  ghost predicate Untouched(s: HState, heapsize: nat) {
    Inv(s) && |s.m| == HEAP_START + heapsize * 1024 && Lone(s.bs)
  }

  lemma UntouchedSafe(s: HState, heapsize: nat)
    requires Untouched(s, heapsize)
    ensures Safe(Running(s, map[]))
  {
    assert ViewOf(s) == map[];
  }

  /** From an initialized heap every legal run keeps the promises. */
  lemma RunFromInit(s: HState, es: seq<Event>, heapsize: nat)
    requires Untouched(s, heapsize) && (UntouchedSafe(s, heapsize); LegalRun(Running(s, map[]), es))
    requires Run(Running(s, map[]), es).Running?
    ensures Promises(Run(Running(s, map[]), es), heapsize)
  {
    UntouchedSafe(s, heapsize);
    RunKeepsPromises(Running(s, map[]), es, heapsize);
  }

  ghost predicate Promises(z: System, heapsize: nat)
    requires z.Running?
  {
    var row := Walk(z.s.m, HEAP_START, 64 * heapsize);
    && Tiled(row, HEAP_START + heapsize * 1024)
    && Total(row, true) + Total(row, false) + HEADER_SIZE * |row| == heapsize * 1024
    && Count(row, true) + Count(row, false) == |row|
    && (forall p :: p in z.live ==> Intact(z, p))
    && (forall p, q :: p in z.live && q in z.live && p < q ==> p + |z.live[p]| <= q)
  }

  /** The bytes of live pointer p are in memory, where its caller put them. */
  ghost predicate Intact(z: System, p: nat)
    requires z.Running? && p in z.live
  {
    p + |z.live[p]| <= |z.s.m| && z.s.m[p..p + |z.live[p]|] == z.live[p]
  }

  lemma SafePromises(z: System, heapsize: nat)
    requires z.Running? && Safe(z) && |z.s.m| == HEAP_START + heapsize * 1024
    ensures Promises(z, heapsize)
  {
    BlockBound(z.s, heapsize);
    WalkReadsRow(z.s, 64 * heapsize);
    Accounting(z.s.bs, |z.s.m|);
    forall p | p in z.live
      ensures Intact(z, p)
    {
      LiveBytes(z, p);
    }
    forall p, q | p in z.live && q in z.live && p < q
      ensures p + |z.live[p]| <= q
    {
      LiveApart(z, p, q);
    }
  }

  lemma LiveBytes(y: System, p: nat)
    requires y.Running? && Safe(y) && p in y.live
    ensures Intact(y, p)
  {
    var i, b := ViewBlock(y.s, p);
    assert y.live[p] <= ViewOf(y.s)[p];
    PrefixInPlace(y.s.m, p, b.End(), y.live[p]);
  }

  lemma PrefixInPlace(m: seq<byte>, p: nat, end: nat, x: seq<byte>)
    requires p <= end <= |m| && x <= m[p..end]
    ensures p + |x| <= |m| && m[p..p + |x|] == x
  {
    assert m[p..p + |x|] == m[p..end][..|x|];
  }

  lemma LiveApart(y: System, p: nat, q: nat)
    requires y.Running? && Safe(y) && p in y.live && q in y.live && p < q
    ensures p + |y.live[p]| <= q
  {
    assert y.live[p] <= ViewOf(y.s)[p];
    ViewDisjoint(y.s, p, q);
  }
}
