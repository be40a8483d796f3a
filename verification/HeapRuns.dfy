/** Whole runs of the heap from kmemory_page_init on: what its clients may rely on. */
module HeapRuns {
  import opened Options
  import opened HeapLayout
  import opened HeapSpec
  import opened HeapInvariant
  import opened HeapAccounting
  import opened HeapBlocks
  import opened Words

  // ---------- the first heap ----------

  lemma InitTiled(base: nat, npages: nat)
    requires base % 4 == 0 && 0 < npages < 0x10_0000
    ensures var h := InitHeap(base, npages);
            Tiled(h) && NoFreeNeighbours(h.all, h.used) && SizeOf(h.all, base + 40) == 4096 * npages - 80
  {
    var h := InitHeap(base, npages);
    assert h.all[1..] == [base + 40, h.limit - 40] && h.all[1..][1..] == [h.limit - 40];
    assert h.limit - 40 == base + 4 * (1024 * npages - 10);
    assert Sorted(h.all[1..][1..]) && Sorted(h.all[1..]);
    forall c | c in h.all
      ensures c % 4 == 0
    {
      assert c == base || c == base + 40 || c == h.limit - 40;
    }
  }

  lemma InitBins(base: nat, npages: nat)
    requires base % 4 == 0 && 0 < npages < 0x10_0000
    ensures BinsOk(InitHeap(base, npages).all, InitHeap(base, npages).used, InitHeap(base, npages).bins)
  {
    var h := InitHeap(base, npages);
    InitTiled(base, npages);
    SlotFitsBins(4096 * npages - 80);
    forall n, x | 0 <= n < 32
      ensures x in h.bins[n] <==> BelongsIn(h.all, h.used, x, n)
    {
      assert x in h.all <==> x == base || x == base + 40 || x == h.limit - 40;
    }
  }

  lemma InitCounts(base: nat, npages: nat)
    requires 0 < npages
    ensures Exact(InitHeap(base, npages))
  {
    var h := InitHeap(base, npages);
    var c, last := base + 40, h.limit - 40;
    assert h.all[1..] == [c, last] && h.all[1..][1..] == [last];
    assert FreeSum([last], h.used) == 0 && UsedSum([last], h.used) == 0;
    assert FreeSum([c, last], h.used) == Payload(c, last);
    assert UsedSum([c, last], h.used) == 0;
  }

  /** kmemory_page_init establishes the structure and exact counters. */
  lemma InitOk(base: nat, npages: nat)
    requires base % 4 == 0 && 0 < npages < 0x10_0000
    ensures HeapOk(InitHeap(base, npages)) && Exact(InitHeap(base, npages))
  {
    InitTiled(base, npages);
    InitBins(base, npages);
    InitCounts(base, npages);
  }

  // ---------- runs ----------

  datatype Call = Kmalloc(size: nat) | Kfree(block: nat)

  /** A heap, and the blocks its clients hold with the sizes they asked for. */
  datatype Client = Client(heap: Heap, live: map<nat, nat>)

  ghost predicate Ready(h: Heap) {
    |h.bins| == 32 && h.all != []
  }

  /** kmalloc on the current page: nothing for size 0, else an allocation. */
  ghost function Step(c: Client, call: Call): Client
    requires Ready(c.heap)
  {
    match call
    case Kmalloc(size) =>
      if size == 0 then c
      else Client(Alloc(c.heap, size),
                  match AllocBlock(c.heap, size) case None => c.live case Some(b) => c.live[b := size])
    case Kfree(b) =>
      Client(if LiveBlock(c.heap, b) then Free(c.heap, b) else c.heap, c.live - {b})
  }

  /** The request gets no block, or one that its clearing stays inside. */
  ghost predicate Roomy(h: Heap, size: nat)
    requires Ready(h)
  {
    size == 0 || AllocBlock(h, size).None? || (size <= 0xFFFF_FFFF_FFFF_FFFC && Fits(h, size))
  }

  /** That is exactly when kmalloc's clearing is safe. */
  lemma RoomyIff(h: Heap, size: nat)
    requires HeapOk(h) && 0 < size < 0x1_0000_0000_0000_0000 && AllocBlock(h, size).Some?
    ensures AllocBlock(h, size).value >= 24
    ensures Roomy(h, size) <==> ClearsInside(Alloc(h, size), AllocBlock(h, size).value, size)
  {
    ClearsInsideIff(h, size);
  }

  /** Clients free only blocks they hold, and ask only for what the heap can clear. */
  ghost predicate Allowed(c: Client, call: Call)
    requires Ready(c.heap)
  {
    match call
    case Kmalloc(size) => Roomy(c.heap, size)
    case Kfree(b) => b in c.live
  }

  /** A free that leaves nothing used gives the pages back. */
  ghost predicate Releases(c: Client, call: Call)
    requires Ready(c.heap)
  {
    call.Kfree? && Vacant(Step(c, call).heap)
  }

  /** Allowed calls, the pages being given back by the last of them if at all. */
  ghost predicate Disciplined(c: Client, calls: seq<Call>)
    decreases |calls|
  {
    calls == [] ||
    (&& Ready(c.heap) && Allowed(c, calls[0])
     && (Releases(c, calls[0]) ==> |calls| == 1)
     && Disciplined(Step(c, calls[0]), calls[1..]))
  }

  ghost function After(c: Client, calls: seq<Call>): Client
    requires Disciplined(c, calls)
    decreases |calls|
  {
    if calls == [] then c else After(Step(c, calls[0]), calls[1..])
  }

  /** The clients hold exactly the blocks the heap can take back, each with room for what was asked. */
  ghost predicate Consistent(c: Client) {
    && HeapOk(c.heap)
    && (forall p: nat :: p in c.live <==> LiveBlock(c.heap, p))
    && (forall p: nat :: p in c.live ==> c.live[p] <= PayloadOf(c.heap, p))
  }

  /** A roomy request does not wreck the heap. */
  lemma RoomySaves(h: Heap, size: nat)
    requires HeapOk(h) && Roomy(h, size) && size > 0
    ensures !Wrecks(h, size)
  {
  }

  /** What a served allocation does for the clients, in terms of the heap after it. */
  lemma AllocatedConsistent(c: Client, h': Heap, b: nat, size: nat)
    requires Consistent(c) && Allocated(c.heap, h', b, Rounded(size)) && HeapOk(h')
    requires size <= 0xFFFF_FFFF_FFFF_FFFC && PayloadOf(h', b) >= Rounded(size)
    ensures Consistent(Client(h', c.live[b := size]))
  {
    RoundedCovers(size);
    forall p: nat
      ensures LiveBlock(h', p) <==> LiveBlock(c.heap, p) || p == b
      ensures LiveBlock(c.heap, p) ==> p != b && PayloadOf(h', p) == PayloadOf(c.heap, p)
    {
      AllocatedLive(c.heap, h', b, Rounded(size), p);
      if LiveBlock(c.heap, p) {
        AllocKeepsBlock(c.heap, h', b, Rounded(size), p);
      }
    }
  }

  lemma FreedConsistent(c: Client, b: nat)
    requires Consistent(c) && b in c.live
    ensures Consistent(Client(Free(c.heap, b), c.live - {b}))
  {
    FreeKeeps(c.heap, b);
    forall p: nat
      ensures LiveBlock(Free(c.heap, b), p) <==> LiveBlock(c.heap, p) && p != b
      ensures LiveBlock(c.heap, p) && p != b ==> PayloadOf(Free(c.heap, b), p) == PayloadOf(c.heap, p)
    {
      FreeLive(c.heap, b, p);
      if LiveBlock(c.heap, p) && p != b {
        FreeKeepsBlock(c.heap, b, p);
      }
    }
  }

  /** A block is served, in its full effect on the clients. */
  lemma ServedShape(c: Client, size: nat)
    requires Consistent(c) && Roomy(c.heap, size) && size > 0 && AllocBlock(c.heap, size).Some?
    ensures size <= 0xFFFF_FFFF_FFFF_FFFC && HeapOk(Alloc(c.heap, size))
    ensures Allocated(c.heap, Alloc(c.heap, size), AllocBlock(c.heap, size).value, Rounded(size))
    ensures PayloadOf(Alloc(c.heap, size), AllocBlock(c.heap, size).value) >= Rounded(size)
  {
    RoomySaves(c.heap, size);
    AllocKeeps(c.heap, size);
    AllocShape(c.heap, size);
    PayloadFitsIff(c.heap, size);
  }

  lemma StepConsistent(c: Client, call: Call)
    requires Consistent(c) && Allowed(c, call)
    ensures Consistent(Step(c, call))
  {
    match call
    case Kmalloc(size) =>
      if size > 0 && AllocBlock(c.heap, size).Some? {
        ServedShape(c, size);
        AllocatedConsistent(c, Alloc(c.heap, size), AllocBlock(c.heap, size).value, size);
      }
    case Kfree(b) =>
      FreedConsistent(c, b);
  }

  /** Every run keeps the heap's structure, and its blocks in step with the clients. */
  lemma {:induction false} RunConsistent(c: Client, calls: seq<Call>)
    requires Consistent(c) && Disciplined(c, calls)
    ensures Consistent(After(c, calls))
    decreases |calls|
  {
    if calls != [] {
      StepConsistent(c, calls[0]);
      RunConsistent(Step(c, calls[0]), calls[1..]);
    }
  }

  ghost function FirstClient(base: nat, npages: nat): Client
    requires npages > 0
  {
    Client(InitHeap(base, npages), map[])
  }

  lemma FirstConsistent(base: nat, npages: nat)
    requires base % 4 == 0 && 0 < npages < 0x10_0000
    ensures Consistent(FirstClient(base, npages))
  {
    InitOk(base, npages);
    var h := InitHeap(base, npages);
    forall p: nat
      ensures !LiveBlock(h, p)
    {
      LiveIff(h, p);
    }
  }

  /** What clients may rely on: each block has room for what was asked, between the sentinels, apart from every other. */
  ghost predicate Safe(c: Client) {
    && HeapOk(c.heap)
    && (Vacant(c.heap) <==> c.live == map[])
    && (c.live == map[] ==> |c.heap.all| == 3)
    && (forall p: nat :: p in c.live ==> c.heap.base + 64 <= p && p + c.live[p] <= c.heap.limit - 40)
    && (forall p: nat, q: nat :: p in c.live && q in c.live && p < q ==> p + c.live[p] <= q - 24)
  }

  lemma ConsistentIsSafe(c: Client)
    requires Consistent(c)
    ensures Safe(c)
  {
    ReleaseExact(c.heap);
    if c.live != map[] {
      var b: nat :| b in c.live;
      assert LiveBlock(c.heap, b);
    }
    forall p: nat | p in c.live
      ensures c.heap.base + 64 <= p && p + c.live[p] <= c.heap.limit - 40
    {
      BlockInArena(c.heap, p);
    }
    forall p: nat, q: nat | p in c.live && q in c.live && p < q
      ensures p + c.live[p] <= q - 24
    {
      BlocksApart(c.heap, p, q);
    }
  }

  /**
   * From kmemory_page_init on, over any run in which clients free what they hold and ask for what
   * the heap can clear, until the pages are given back: the structure holds, the blocks held are
   * disjoint and as big as asked, and the release scan succeeds exactly when none is held.
   */
  lemma HeapSafety(base: nat, npages: nat, calls: seq<Call>)
    requires base % 4 == 0 && 0 < npages < 0x10_0000
    requires Disciplined(FirstClient(base, npages), calls)
    ensures Safe(After(FirstClient(base, npages), calls))
  {
    FirstConsistent(base, npages);
    RunConsistent(FirstClient(base, npages), calls);
    ConsistentIsSafe(After(FirstClient(base, npages), calls));
  }

  /** A block held keeps its place, its payload and its size over one step that does not free it. */
  lemma StepKeepsBlock(c: Client, call: Call, q: nat)
    requires Consistent(c) && Allowed(c, call) && q in c.live && call != Kfree(q)
    ensures q >= 24 && q in Step(c, call).live && Step(c, call).live[q] == c.live[q]
    ensures PayloadOf(Step(c, call).heap, q) == PayloadOf(c.heap, q)
  {
    assert LiveBlock(c.heap, q);
    match call
    case Kmalloc(size) =>
      if size > 0 && AllocBlock(c.heap, size).Some? {
        var b, h' := AllocBlock(c.heap, size).value, Alloc(c.heap, size);
        ServedShape(c, size);
        AllocatedLive(c.heap, h', b, Rounded(size), q);
        AllocKeepsBlock(c.heap, h', b, Rounded(size), q);
      }
    case Kfree(b) =>
      FreeKeepsBlock(c.heap, b, q);
  }

  /** A block keeps its place and its payload over any run in which it is not freed. */
  lemma {:induction false} BlockStays(c: Client, calls: seq<Call>, q: nat)
    requires Consistent(c) && Disciplined(c, calls) && q in c.live && Kfree(q) !in calls
    ensures q >= 24 && q in After(c, calls).live && After(c, calls).live[q] == c.live[q]
    ensures PayloadOf(After(c, calls).heap, q) == PayloadOf(c.heap, q)
    decreases |calls|
  {
    assert LiveBlock(c.heap, q);
    if calls != [] {
      StepConsistent(c, calls[0]);
      StepKeepsBlock(c, calls[0], q);
      BlockStays(Step(c, calls[0]), calls[1..], q);
    }
  }

  // ---------- runs of allocations ----------

  ghost predicate OnlyAllocates(calls: seq<Call>) {
    forall k :: 0 <= k < |calls| ==> calls[k].Kmalloc? && calls[k].size <= 0xFFFF_FFFF_FFFF_FFFC
  }

  /** At most one chunk is free. */
  ghost predicate OneFree(h: Heap) {
    forall c, d :: c in h.all && c !in h.used && d in h.all && d !in h.used ==> c == d
  }

  lemma {:induction false} NothingFree(all: seq<nat>, used: set<nat>)
    requires forall c :: c in all ==> c in used
    ensures FreeSum(all, used) == 0
  {
    if |all| >= 2 {
      NothingFree(all[1..], used);
    }
  }

  /** With exact counters and a single free chunk, whatever the free count admits fits that chunk. */
  lemma OneFreeFits(h: Heap, size: nat)
    requires HeapOk(h) && Exact(h) && OneFree(h) && AllocBlock(h, size).Some?
    ensures Fits(h, size)
  {
    ExactSavesHeap(h, size);
    ExactConserves(h);
    var m := AllocCase(h, size);
    var f := h.bins[m][0];
    TakeWholeSums(h, f);
    NothingFree(h.all, h.used + {f});
  }

  lemma OneFreeStays(h: Heap, h': Heap, b: nat, r: nat)
    requires Allocated(h, h', b, r) && OneFree(h)
    ensures OneFree(h')
  {
    if r + 80 <= SizeOf(h.all, b - 24) {
      forall c: nat
        ensures c in h'.all <==> c == b + r || c in h.all
      {
        SplitMembers(h, b - 24, r, c);
      }
    }
  }

  /** A step that allocates keeps the counters exact and at most one chunk free, and is always allowed. */
  lemma AllocationStep(c: Client, size: nat)
    requires Consistent(c) && Exact(c.heap) && OneFree(c.heap) && size <= 0xFFFF_FFFF_FFFF_FFFC
    ensures Roomy(c.heap, size) && Consistent(Step(c, Kmalloc(size)))
    ensures Exact(Step(c, Kmalloc(size)).heap) && OneFree(Step(c, Kmalloc(size)).heap)
  {
    if size > 0 && AllocBlock(c.heap, size).Some? {
      OneFreeFits(c.heap, size);
      ServedShape(c, size);
      OneFreeStays(c.heap, Alloc(c.heap, size), AllocBlock(c.heap, size).value, Rounded(size));
    }
    StepConsistent(c, Kmalloc(size));
    AllocExact(c.heap, size);
  }

  lemma {:induction false} AllocationsExact(c: Client, calls: seq<Call>)
    requires Consistent(c) && Exact(c.heap) && OneFree(c.heap) && OnlyAllocates(calls)
    ensures Disciplined(c, calls) && Consistent(After(c, calls)) && Exact(After(c, calls).heap)
    decreases |calls|
  {
    if calls != [] {
      AllocationStep(c, calls[0].size);
      AllocationsExact(Step(c, calls[0]), calls[1..]);
    }
  }

  /**
   * Conservation: until something is freed every request up to 2^64 - 4 is cleared safely, and the
   * three counters are exact and add up to the arena.
   */
  lemma CountersConserved(base: nat, npages: nat, calls: seq<Call>)
    requires base % 4 == 0 && 0 < npages < 0x10_0000 && OnlyAllocates(calls)
    ensures Disciplined(FirstClient(base, npages), calls)
    ensures var h := After(FirstClient(base, npages), calls).heap;
            Exact(h) && h.memFree + h.memUsed + h.memMeta == 4096 * npages
  {
    FirstConsistent(base, npages);
    InitOk(base, npages);
    AllocationsExact(FirstClient(base, npages), calls);
    ArenaStays(FirstClient(base, npages), calls);
    ExactConserves(After(FirstClient(base, npages), calls).heap);
  }

  lemma StepArena(c: Client, call: Call)
    requires Consistent(c) && Allowed(c, call)
    ensures Step(c, call).heap.base == c.heap.base && Step(c, call).heap.limit == c.heap.limit
  {
    if call.Kfree? {
      FreeArena(c.heap, call.block);
    }
  }

  lemma {:induction false} ArenaStays(c: Client, calls: seq<Call>)
    requires Consistent(c) && Disciplined(c, calls)
    ensures After(c, calls).heap.base == c.heap.base && After(c, calls).heap.limit == c.heap.limit
    decreases |calls|
  {
    if calls != [] {
      StepConsistent(c, calls[0]);
      StepArena(c, calls[0]);
      ArenaStays(Step(c, calls[0]), calls[1..]);
    }
  }

  // ---------- the counters over all runs ----------

  ghost function Frees(calls: seq<Call>): nat {
    if calls == [] then 0 else (if calls[0].Kfree? then 1 else 0) + Frees(calls[1..])
  }

  lemma StepDrifts(c: Client, call: Call, frees: int)
    requires Consistent(c) && Drifted(c.heap, frees) && Allowed(c, call)
    ensures Drifted(Step(c, call).heap, frees + (if call.Kfree? then 1 else 0))
  {
    match call
    case Kmalloc(size) =>
      if size > 0 && AllocBlock(c.heap, size).Some? {
        RoomySaves(c.heap, size);
        AllocDrifts(c.heap, size, frees);
      }
    case Kfree(b) => FreeDrifts(c.heap, b, frees);
  }

  lemma {:induction false} DriftAlways(c: Client, calls: seq<Call>, frees: int, total: int)
    requires Consistent(c) && Drifted(c.heap, frees) && Disciplined(c, calls)
    requires total == frees + Frees(calls)
    ensures Drifted(After(c, calls).heap, total)
    decreases |calls|
  {
    if calls != [] {
      StepConsistent(c, calls[0]);
      StepDrifts(c, calls[0], frees);
      DriftAlways(Step(c, calls[0]), calls[1..], frees + (if calls[0].Kfree? then 1 else 0), total);
    }
  }

  lemma InitDrifted(base: nat, npages: nat)
    requires base % 4 == 0 && 0 < npages < 0x10_0000
    ensures Drifted(InitHeap(base, npages), 0)
  {
    InitOk(base, npages);
    WrapExact(0);
    ExactConserves(InitHeap(base, npages));
  }

  /**
   * What two of the counters are worth once blocks have been freed: mem_meta stays exact over every
   * run, and mem_used is short of the used bytes by exactly one header for each free.
   */
  lemma CountersDrift(base: nat, npages: nat, calls: seq<Call>)
    requires base % 4 == 0 && 0 < npages < 0x10_0000
    requires Disciplined(FirstClient(base, npages), calls)
    ensures Drifted(After(FirstClient(base, npages), calls).heap, Frees(calls))
  {
    FirstConsistent(base, npages);
    InitDrifted(base, npages);
    DriftAlways(FirstClient(base, npages), calls, 0, Frees(calls));
  }
}
