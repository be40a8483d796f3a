/** One page tag of the kernel heap: what allocating and freeing a block do to it. */
module HeapSpec {
  import opened Options
  import opened HeapLayout
  import opened Ring
  import opened Words

  /**
   * `all` is the address-ordered ring of chunks from the first sentinel to the last, `used` the
   * chunks whose used flag is set, `bins` the 32 rings of free chunks from their heads. The three
   * counters are 64-bit and wrap.
   */
  datatype Heap = Heap(
    base: nat,
    limit: nat,
    all: seq<nat>,
    used: set<nat>,
    bins: seq<seq<nat>>,
    memFree: nat,
    memUsed: nat,
    memMeta: nat)

  /** The request rounded up to ALIGN and to MIN_SIZE; the addition wraps. */
  function Rounded(size: nat): nat {
    var r := Wrap64(size + 3) / 4 * 4;
    if r < 16 then 16 else r
  }

  /** The first non-empty bin from n on, 32 if there is none. */
  function FirstBin(bins: seq<seq<nat>>, n: nat): (m: nat)
    requires |bins| == 32
    ensures m <= 32 && (n < 32 ==> n <= m)
    ensures m < 32 ==> bins[m] != []
    ensures forall k :: n <= k < m && k < 32 ==> bins[k] == []
    decreases 32 - n
  {
    if n >= 32 then 32 else if bins[n] != [] then n else FirstBin(bins, n + 1)
  }

  // ---------- bins ----------

  /** Add a chunk at the tail of its bin. */
  function Push(bins: seq<seq<nat>>, n: int, c: nat): seq<seq<nat>> {
    if 0 <= n < |bins| then bins[n := bins[n] + [c]] else bins
  }

  /** The position of a chunk in a ring, its length if it is absent. */
  function Position(ring: seq<nat>, c: nat): (j: nat)
    ensures j <= |ring|
    ensures j < |ring| ==> ring[j] == c
    ensures j == |ring| ==> c !in ring
  {
    if ring == [] then 0 else if ring[0] == c then 0 else 1 + Position(ring[1..], c)
  }

  /** Delete a chunk from its bin; the head moves to the chunk after it. */
  function Delete(bins: seq<seq<nat>>, n: int, c: nat): seq<seq<nat>> {
    if 0 <= n < |bins| && c in bins[n] then
      bins[n := Without(bins[n], Position(bins[n], c))]
    else bins
  }

  // ---------- allocation ----------

  /** Take the head of a bin and hand out its whole chunk. */
  ghost function TakeWhole(h: Heap, n: nat): Heap
    requires n < |h.bins| && h.bins[n] != []
  {
    var f := h.bins[n][0];
    var size := SizeOf(h.all, f);
    h.(used := h.used + {f},
       bins := h.bins[n := h.bins[n][1..]],
       memFree := Wrap64(h.memFree - (size - 24)),
       memUsed := Wrap64(h.memUsed + size - 24))
  }

  /** Take the head of a bin, keep r payload bytes and put the remainder back as a free chunk. */
  ghost function TakeSplit(h: Heap, n: nat, r: int): Heap
    requires n < |h.bins| && h.bins[n] != [] && h.bins[n][0] in h.all && h.bins[n][0] + 24 + r >= 0
  {
    var f := h.bins[n][0];
    var size := SizeOf(h.all, f);
    var x := f + 24 + r;
    var all := Insert(h.all, IndexOf(h.all, f), x);
    var len := SizeOf(all, x);
    h.(all := all,
       used := h.used + {f},
       bins := Push(h.bins[n := h.bins[n][1..]], Slot(len), x),
       memMeta := Wrap64(h.memMeta + 24),
       memFree := Wrap64(Wrap64(h.memFree + (len - 24)) - (size - 24)),
       memUsed := Wrap64(h.memUsed + size - len - 24))
  }

  /**
   * What index -1 does. The word before free_chunk is the tag's `last` pointer, so the last sentinel
   * is fetched; its size wraps, the remainder's address is its own, and it is linked behind itself.
   */
  ghost function TakeSentinel(h: Heap): Heap
    requires h.all != []
  {
    var f := h.all[|h.all| - 1];
    var size := Wrap64(h.all[0] as int - f);
    h.(all := h.all + [f],
       memMeta := Wrap64(h.memMeta + 24),
       memFree := Wrap64(Wrap64(h.memFree - 24) - (size - 24)),
       memUsed := Wrap64(h.memUsed + size - 24))
  }

  /** Which bin a request is served from, if any; the sum with the header wraps, and may give index -1. */
  ghost function ServingBin(h: Heap, size: nat): Option<int>
    requires |h.bins| == 32
  {
    var r := Rounded(size);
    var n := Slot(Wrap64(r + 24));
    if r > h.memFree then None
    else if n == -1 then Some(-1)
    else
      var m: int := FirstBin(h.bins, n);
      if m == 32 then None else Some(m)
  }

  /** kmalloc_on_cur_page: the block handed out. */
  ghost function AllocBlock(h: Heap, size: nat): Option<nat>
    requires |h.bins| == 32 && h.all != []
  {
    match ServingBin(h, size)
    case None => None
    case Some(m) => Some(if m == -1 then h.all[|h.all| - 1] + 24 else h.bins[m][0] + 24)
  }

  /** kmalloc_on_cur_page: the heap afterwards; the sum with two chunk headers wraps as well. */
  ghost function Alloc(h: Heap, size: nat): Heap
    requires |h.bins| == 32 && h.all != []
  {
    match ServingBin(h, size)
    case None => h
    case Some(m) =>
      if m == -1 then TakeSentinel(h)
      else
        var r, f := Rounded(size), h.bins[m][0];
        if f in h.all && Wrap64(r + 80) <= SizeOf(h.all, f) then TakeSplit(h, m, Wrap64(r + 24) - 24)
        else TakeWhole(h, m)
  }

  /**
   * The requests that wreck the heap: with the header they wrap past 2^64, the free count admits them
   * all the same, and the chunk found is the sentinel or is split inside its own header.
   */
  ghost predicate Wrecks(h: Heap, size: nat)
    requires |h.bins| == 32
  {
    var r, m := Rounded(size), ServingBin(h, size);
    && r >= 0xFFFF_FFFF_FFFF_FFE8 && m.Some?
    && (m.value == -1 || Wrap64(r + 80) <= SizeOf(h.all, h.bins[m.value][0]))
  }

  // ---------- freeing ----------

  /** Merge the free chunk after position i into the chunk at i. */
  ghost function AbsorbNext(h: Heap, i: nat): Heap
    requires i + 1 < |h.all|
  {
    var next := h.all[i + 1];
    var len := SizeOf(h.all, next);
    h.(all := Drop(h.all, i + 1),
       bins := Delete(h.bins, Slot(len), next),
       memMeta := Wrap64(h.memMeta - 24),
       memFree := Wrap64(Wrap64(h.memFree - (len - 24)) + 24))
  }

  /** Give the used chunk at position i to the free chunk before it. */
  ghost function MergeIntoPrev(h: Heap, i: nat): Heap
    requires 0 < i < |h.all|
  {
    var prev := h.all[i - 1];
    var len, len' := SizeOf(h.all, prev), SizeOf(Drop(h.all, i), prev);
    h.(all := Drop(h.all, i),
       used := h.used - {h.all[i]},
       bins := Push(Delete(h.bins, Slot(len), prev), Slot(len'), prev),
       memMeta := Wrap64(h.memMeta - 24),
       memFree := Wrap64(Wrap64(h.memFree - (len - 24)) - 24))
  }

  /** Mark the chunk at position i free. */
  ghost function Release(h: Heap, i: nat): Heap
    requires i < |h.all|
  {
    var len := SizeOf(h.all, h.all[i]);
    h.(used := h.used - {h.all[i]},
       bins := Push(h.bins, Slot(len), h.all[i]))
  }

  /** A block that can be freed: its chunk is on the ring, used, and not a sentinel. */
  ghost predicate LiveBlock(h: Heap, p: nat) {
    && p >= 24 && p - 24 in h.all && p - 24 in h.used
    && 0 < IndexOf(h.all, p - 24) < |h.all| - 1
  }

  /** The first line of kfree: mem_used loses the chunk with its header. */
  ghost function Uncount(h: Heap, p: nat): Heap
    requires p >= 24
  {
    h.(memUsed := Wrap64(h.memUsed - SizeOf(h.all, p - 24)))
  }

  /** The second half of kfree, after the chunk at position i has absorbed a free one behind it. */
  ghost function FreeTail(h: Heap, i: nat): Heap
    requires 0 < i < |h.all|
  {
    if h.all[i - 1] !in h.used then MergeIntoPrev(h, i) else Release(h, i)
  }

  /** kfree up to its release scan. */
  ghost function Free(h: Heap, p: nat): Heap
    requires LiveBlock(h, p)
  {
    var i, h0 := IndexOf(h.all, p - 24), Uncount(h, p);
    FreeTail(if h.all[i + 1] !in h.used then AbsorbNext(h0, i) else h0, i)
  }

  /** The heap kmemory_page_init makes of npages pages at base. */
  function InitHeap(base: nat, npages: nat): Heap
    requires npages > 0
  {
    var limit := base + 4096 * npages;
    var n := Slot(4096 * npages - 80);
    Heap(base, limit, [base, base + 40, limit - 40], {base, limit - 40},
         seq(32, k => if k == n then [base + 40] else []),
         4096 * npages - 80 - 24, 0, 104)
  }

  /** The release scan: no chunk between the sentinels is used. */
  ghost predicate Vacant(h: Heap) {
    forall i :: 0 < i < |h.all| - 1 ==> h.all[i] !in h.used
  }
}

/** The structure that every allocation and every free keeps. */
module HeapInvariant {
  import opened Options
  import opened HeapLayout
  import opened HeapSpec
  import opened Ring
  import opened Words

  /** The chunks tile the arena between two used sentinels of 40 bytes, on 4-byte boundaries. */
  ghost predicate Tiled(h: Heap) {
    && 3 <= |h.all| && Sorted(h.all)
    && h.limit < h.base + 0x1_0000_0000
    && h.all[0] == h.base && h.all[1] == h.base + 40 && h.all[|h.all| - 1] == h.limit - 40
    && (forall c :: c in h.all ==> c % 4 == 0)
    && (forall c :: c in h.used ==> c in h.all)
    && h.all[0] in h.used && h.all[|h.all| - 1] in h.used
  }

  /** Where a chunk belongs. */
  ghost predicate BelongsIn(all: seq<nat>, used: set<nat>, c: nat, n: nat) {
    c in all && c !in used && Slot(SizeOf(all, c)) == n
  }

  /** Every free chunk is in exactly the bin of its size, once, and nothing else is in any bin. */
  ghost predicate BinsOk(all: seq<nat>, used: set<nat>, bins: seq<seq<nat>>) {
    && |bins| == 32
    && (forall n :: 0 <= n < 32 ==> Distinct(bins[n]))
    && (forall n, c :: 0 <= n < 32 ==> (c in bins[n] <==> BelongsIn(all, used, c, n)))
  }

  ghost predicate HeapOk(h: Heap) {
    Tiled(h) && NoFreeNeighbours(h.all, h.used) && BinsOk(h.all, h.used, h.bins)
  }

  /** Every chunk but the last has between 40 bytes and 4 GiB, in units of 4, and a bin for its size. */
  lemma ChunkSize(h: Heap, i: nat)
    requires Tiled(h) && i + 1 < |h.all|
    ensures h.all[i] + SizeOf(h.all, h.all[i]) == h.all[i + 1]
    ensures 40 <= SizeOf(h.all, h.all[i]) < 0x1_0000_0000 && SizeOf(h.all, h.all[i]) % 4 == 0
    ensures 0 <= Slot(SizeOf(h.all, h.all[i])) < 32
  {
    SizeBounds(h.all, i);
    assert h.all[i] in h.all && h.all[i + 1] in h.all;
    QuartersDiffer(h.all[i], h.all[i + 1]);
    SlotFitsBins(SizeOf(h.all, h.all[i]));
  }

  lemma SizeBounds(all: seq<nat>, i: nat)
    requires Sorted(all) && i + 1 < |all|
    ensures all[i] + SizeOf(all, all[i]) == all[i + 1] && 40 <= SizeOf(all, all[i])
    ensures all[0] + SizeOf(all, all[i]) <= all[|all| - 1]
  {
    SizeAt(all, i);
    if i > 0 {
      SortedAt(all, 0, i);
    }
    if i + 2 < |all| {
      SortedAt(all, i + 1, |all| - 1);
    }
  }

  lemma QuartersDiffer(a: nat, b: nat)
    requires a % 4 == 0 && b % 4 == 0
    ensures (b - a) % 4 == 0
  {
  }

  /** A free chunk lies strictly between the sentinels, and its neighbours are used. */
  lemma FreeChunk(h: Heap, c: nat)
    requires Tiled(h) && NoFreeNeighbours(h.all, h.used) && c in h.all && c !in h.used
    ensures var i := IndexOf(h.all, c);
            && 0 < i && i + 1 < |h.all| && h.all[i - 1] in h.used && h.all[i + 1] in h.used
            && c + SizeOf(h.all, c) == h.all[i + 1]
    ensures 40 <= SizeOf(h.all, c) && SizeOf(h.all, c) % 4 == 0 && 0 <= Slot(SizeOf(h.all, c)) < 32
  {
    var i := IndexOf(h.all, c);
    NeighbourAt(h.all, h.used, i - 1);
    NeighbourAt(h.all, h.used, i);
    ChunkSize(h, i);
  }

  // ---------- bins ----------

  lemma PopBin(bins: seq<seq<nat>>, n: nat, k: nat, c: nat)
    requires n < |bins| && k < |bins| && bins[n] != [] && Distinct(bins[n]) && Distinct(bins[k])
    ensures var bins' := bins[n := bins[n][1..]];
            && Distinct(bins'[k])
            && (c in bins'[k] <==> c in bins[k] && !(k == n && c == bins[n][0]))
  {
    assert bins[n] == [bins[n][0]] + bins[n][1..];
  }

  lemma PushBin(bins: seq<seq<nat>>, n: nat, x: nat, k: nat, c: nat)
    requires n < |bins| && k < |bins| && Distinct(bins[k]) && x !in bins[n]
    ensures Distinct(Push(bins, n, x)[k])
    ensures c in Push(bins, n, x)[k] <==> c in bins[k] || (k == n && c == x)
  {
  }

  lemma DeleteBin(bins: seq<seq<nat>>, n: nat, x: nat, k: nat, c: nat)
    requires n < |bins| && k < |bins| && Distinct(bins[k]) && x in bins[n]
    ensures Distinct(Delete(bins, n, x)[k])
    ensures c in Delete(bins, n, x)[k] <==> c in bins[k] && !(k == n && c == x)
  {
    if k == n {
      var ring, j := bins[n], Position(bins[n], x);
      assert ring == ring[..j] + [x] + ring[j + 1..];
    }
  }

  lemma BinnedIsFree(h: Heap, n: nat, c: nat)
    requires BinsOk(h.all, h.used, h.bins) && n < 32 && c in h.bins[n]
    ensures c in h.all && c !in h.used && Slot(SizeOf(h.all, c)) == n
  {
    assert BelongsIn(h.all, h.used, c, n);
  }

  // ---------- allocation keeps the structure ----------

  lemma TakeWholeKeeps(h: Heap, n: nat)
    requires HeapOk(h) && n < 32 && h.bins[n] != []
    ensures HeapOk(TakeWhole(h, n))
  {
    var h', f := TakeWhole(h, n), h.bins[n][0];
    BinnedIsFree(h, n, f);
    MoreUsed(h.all, h.used, h'.used);
    forall k, c | 0 <= k < 32
      ensures Distinct(h'.bins[k])
      ensures c in h'.bins[k] <==> BelongsIn(h'.all, h'.used, c, k)
    {
      PopBin(h.bins, n, k, c);
    }
  }

  /** The head of a bin is big enough to be split for r payload bytes. */
  ghost predicate CanSplit(h: Heap, f: nat, r: nat) {
    && HeapOk(h) && f in h.all && f !in h.used
    && r % 4 == 0 && 16 <= r && r + 80 <= SizeOf(h.all, f)
  }

  ghost function SplitAll(h: Heap, f: nat, r: nat): seq<nat>
    requires f in h.all
  {
    Insert(h.all, IndexOf(h.all, f), f + 24 + r)
  }

  /** The remainder of a split always holds a whole chunk header and 16 bytes more. */
  lemma SplitPlace(h: Heap, f: nat, r: nat)
    requires CanSplit(h, f, r)
    ensures var i, x := IndexOf(h.all, f), f + 24 + r;
            && 0 < i && Between(h.all, i, x) && x % 4 == 0 && h.all[i + 1] in h.used && x !in h.all
            && SizeOf(SplitAll(h, f, r), x) == SizeOf(h.all, f) - 24 - r >= 56
  {
    var i, x := IndexOf(h.all, f), f + 24 + r;
    FreeChunk(h, f);
    assert Between(h.all, i, x);
    BetweenIsNew(h.all, i, x);
    InsertedSizes(h.all, i, x);
    QuartersAdd(f, r);
  }

  lemma QuartersAdd(f: nat, r: nat)
    requires f % 4 == 0 && r % 4 == 0
    ensures (f + 24 + r) % 4 == 0
  {
  }

  lemma SplitMembers(h: Heap, f: nat, r: nat, c: nat)
    requires CanSplit(h, f, r)
    ensures c in SplitAll(h, f, r) <==> c == f + 24 + r || c in h.all
    ensures c in SplitAll(h, f, r) ==> c % 4 == 0
  {
    SplitPlace(h, f, r);
    InsertMembers(h.all, IndexOf(h.all, f), f + 24 + r, c);
  }

  lemma SplitEnds(h: Heap, f: nat, r: nat)
    requires CanSplit(h, f, r)
    ensures var all' := SplitAll(h, f, r);
            all'[0] == h.all[0] && all'[1] == h.all[1] && all'[|h.all|] == h.all[|h.all| - 1] && Sorted(all')
  {
    var i, x := IndexOf(h.all, f), f + 24 + r;
    SplitPlace(h, f, r);
    InsertSorted(h.all, i, x);
    InsertAt(h.all, i, x, 0);
    InsertAt(h.all, i, x, 1);
    InsertAt(h.all, i, x, |h.all|);
  }

  lemma SplitTiled(h: Heap, f: nat, r: nat)
    requires CanSplit(h, f, r)
    ensures Tiled(h.(all := SplitAll(h, f, r), used := h.used + {f}))
    ensures NoFreeNeighbours(SplitAll(h, f, r), h.used + {f})
  {
    SplitEnds(h, f, r);
    forall c: nat
      ensures c in SplitAll(h, f, r) <==> c == f + 24 + r || c in h.all
      ensures c in SplitAll(h, f, r) ==> c % 4 == 0
    {
      SplitMembers(h, f, r, c);
    }
    SplitPlace(h, f, r);
    MoreUsed(h.all, h.used, h.used + {f});
    InsertNeighbours(h.all, h.used + {f}, IndexOf(h.all, f), f + 24 + r);
  }

  lemma SplitBelongs(h: Heap, f: nat, r: nat, k: nat, c: nat)
    requires CanSplit(h, f, r)
    ensures var x, all' := f + 24 + r, SplitAll(h, f, r);
            BelongsIn(all', h.used + {f}, c, k) <==>
              if c == x then k == Slot(SizeOf(all', x)) else BelongsIn(h.all, h.used, c, k) && c != f
  {
    var i, x := IndexOf(h.all, f), f + 24 + r;
    SplitPlace(h, f, r);
    InsertMembers(h.all, i, x, c);
    if c != x && c != f {
      OtherSizes(h.all, i, x, c);
    }
  }

  /** The remainder's bin exists and does not hold it yet. */
  lemma RemainderBin(h: Heap, n: nat, r: nat)
    requires n < 32 && |h.bins| == 32 && h.bins[n] != [] && CanSplit(h, h.bins[n][0], r)
    ensures var f := h.bins[n][0];
            var x := f + 24 + r;
            var m := Slot(SizeOf(SplitAll(h, f, r), x));
            0 <= m < 32 && x !in h.bins[n := h.bins[n][1..]][m]
  {
    var f := h.bins[n][0];
    var x := f + 24 + r;
    var m := Slot(SizeOf(SplitAll(h, f, r), x));
    SplitPlace(h, f, r);
    FreeChunk(h, f);
    SlotMonotone(SizeOf(SplitAll(h, f, r), x), SizeOf(h.all, f));
    assert !BelongsIn(h.all, h.used, x, m);
    PopBin(h.bins, n, m, x);
  }

  lemma SplitBins(h: Heap, n: nat, r: nat)
    requires n < 32 && |h.bins| == 32 && h.bins[n] != [] && CanSplit(h, h.bins[n][0], r)
    ensures BinsOk(SplitAll(h, h.bins[n][0], r), h.used + {h.bins[n][0]}, TakeSplit(h, n, r).bins)
  {
    var f := h.bins[n][0];
    var x, all', used', bins1 := f + 24 + r, SplitAll(h, f, r), h.used + {f}, h.bins[n := h.bins[n][1..]];
    var m := Slot(SizeOf(all', x));
    RemainderBin(h, n, r);
    BinnedIsFree(h, n, f);
    SplitPlace(h, f, r);
    assert TakeSplit(h, n, r).bins == Push(bins1, m, x);
    forall k, c | 0 <= k < 32
      ensures Distinct(Push(bins1, m, x)[k])
      ensures c in Push(bins1, m, x)[k] <==> BelongsIn(all', used', c, k)
    {
      SplitBin(h, n, r, m, k, c);
    }
  }

  lemma SplitBin(h: Heap, n: nat, r: nat, m: nat, k: nat, c: nat)
    requires n < 32 && |h.bins| == 32 && h.bins[n] != [] && CanSplit(h, h.bins[n][0], r) && k < 32 && m < 32
    requires var f := h.bins[n][0];
             && m == Slot(SizeOf(SplitAll(h, f, r), f + 24 + r))
             && f + 24 + r !in h.bins[n := h.bins[n][1..]][m]
    ensures var f, bins' := h.bins[n][0], Push(h.bins[n := h.bins[n][1..]], m, h.bins[n][0] + 24 + r);
            && Distinct(bins'[k])
            && (c in bins'[k] <==> BelongsIn(SplitAll(h, f, r), h.used + {f}, c, k))
  {
    var f, bins1 := h.bins[n][0], h.bins[n := h.bins[n][1..]];
    PopBin(h.bins, n, k, c);
    PushBin(bins1, m, f + 24 + r, k, c);
    assert c in h.bins[k] <==> BelongsIn(h.all, h.used, c, k);
    BinnedIsFree(h, n, f);
    SplitPlace(h, f, r);
    SplitBelongs(h, f, r, k, c);
  }

  lemma TakeSplitKeeps(h: Heap, n: nat, r: nat)
    requires n < 32 && |h.bins| == 32 && h.bins[n] != [] && CanSplit(h, h.bins[n][0], r)
    ensures HeapOk(TakeSplit(h, n, r))
  {
    SplitTiled(h, h.bins[n][0], r);
    SplitBins(h, n, r);
  }

  lemma RoundedOk(size: nat)
    ensures Rounded(size) % 4 == 0 && 16 <= Rounded(size) < 0x1_0000_0000_0000_0000
  {
  }

  /** A request that does not wrap with its header and is served is below 4 GiB. */
  lemma ServedIsSmall(h: Heap, size: nat)
    requires |h.bins| == 32 && Rounded(size) < 0xFFFF_FFFF_FFFF_FFE8 && ServingBin(h, size).Some?
    ensures 0 <= ServingBin(h, size).value < 32 && h.bins[ServingBin(h, size).value] != []
    ensures Slot(Rounded(size) + 24) <= ServingBin(h, size).value
    ensures Rounded(size) + 24 < 0x1_0000_0000
  {
    var need := Rounded(size) + 24;
    RoundedOk(size);
    WrapExact(need);
    if need >= 0x1_0000_0000 {
      SlotMonotone(0x1_0000_0000, need);
      SlotOf4GiB();
    }
  }

  /** A request that does wrap is a multiple of 4 from 2^64 - 24 on; only the first gives index -1. */
  lemma ServedWrapped(h: Heap, size: nat)
    requires |h.bins| == 32 && Rounded(size) >= 0xFFFF_FFFF_FFFF_FFE8 && ServingBin(h, size).Some?
    ensures ServingBin(h, size).value == -1 <==> Rounded(size) == 0xFFFF_FFFF_FFFF_FFE8
    ensures ServingBin(h, size).value != -1 ==>
              0 <= ServingBin(h, size).value < 32 && h.bins[ServingBin(h, size).value] != []
    ensures Wrap64(Rounded(size) + 24) == Rounded(size) - 0xFFFF_FFFF_FFFF_FFE8 <= 20
  {
    RoundedOk(size);
    WrapOnce(Rounded(size) + 24);
  }

  /** Request r is served from the head of bin m, split where that is possible. */
  ghost predicate ServedFrom(h: Heap, m: nat, r: nat, h': Heap) {
    && |h.bins| == 32 && m < 32 && h.bins[m] != [] && h.bins[m][0] in h.all && h.bins[m][0] !in h.used
    && r % 4 == 0 && 16 <= r
    && h' == if r + 80 <= SizeOf(h.all, h.bins[m][0]) then TakeSplit(h, m, r) else TakeWhole(h, m)
  }

  lemma SmallCase(h: Heap, size: nat)
    requires HeapOk(h) && Rounded(size) < 0xFFFF_FFFF_FFFF_FFE8 && ServingBin(h, size).Some?
    ensures ServingBin(h, size).value >= 0
    ensures ServedFrom(h, ServingBin(h, size).value, Rounded(size), Alloc(h, size))
  {
    var r, m := Rounded(size), ServingBin(h, size).value;
    RoundedOk(size);
    ServedIsSmall(h, size);
    WrapExact(r + 24);
    WrapExact(r + 80);
    BinnedIsFree(h, m, h.bins[m][0]);
  }

  lemma WrappedCase(h: Heap, size: nat)
    requires HeapOk(h) && Rounded(size) >= 0xFFFF_FFFF_FFFF_FFE8 && ServingBin(h, size).Some? && !Wrecks(h, size)
    ensures ServingBin(h, size).value >= 0
    ensures ServedFrom(h, ServingBin(h, size).value, Rounded(size), Alloc(h, size))
  {
    var m := ServingBin(h, size).value;
    RoundedOk(size);
    ServedWrapped(h, size);
    BinnedIsFree(h, m, h.bins[m][0]);
    ChunkSize(h, IndexOf(h.all, h.bins[m][0]));
  }

  /** How a request is served that does not wreck the heap. */
  lemma AllocCase(h: Heap, size: nat) returns (m: nat)
    requires HeapOk(h) && AllocBlock(h, size).Some? && !Wrecks(h, size)
    ensures ServingBin(h, size) == Some(m) && ServedFrom(h, m, Rounded(size), Alloc(h, size))
    ensures AllocBlock(h, size) == Some(h.bins[m][0] + 24)
  {
    if Rounded(size) < 0xFFFF_FFFF_FFFF_FFE8 {
      SmallCase(h, size);
    } else {
      WrappedCase(h, size);
    }
    m := ServingBin(h, size).value;
  }

  /** Every other allocation keeps the heap's structure. */
  lemma AllocKeeps(h: Heap, size: nat)
    requires HeapOk(h) && !Wrecks(h, size)
    ensures HeapOk(Alloc(h, size))
  {
    if AllocBlock(h, size).Some? {
      var m := AllocCase(h, size);
      if Rounded(size) + 80 <= SizeOf(h.all, h.bins[m][0]) {
        TakeSplitKeeps(h, m, Rounded(size));
      } else {
        TakeWholeKeeps(h, m);
      }
    }
  }

  /** The remainder of a wrapped split starts inside the header of the chunk it was split from. */
  lemma WrappedSplitBreaks(h: Heap, n: nat, r: int)
    requires HeapOk(h) && n < 32 && h.bins[n] != [] && h.bins[n][0] in h.all && -24 <= r < 16
    ensures !HeapOk(TakeSplit(h, n, r))
  {
    var f := h.bins[n][0];
    BinnedIsFree(h, n, f);
    InsertBreaks(h.all, IndexOf(h.all, f), f + 24 + r);
    assert !Sorted(TakeSplit(h, n, r).all);
  }

  lemma InsertBreaks(all: seq<nat>, i: nat, x: nat)
    requires Sorted(all) && i < |all| && x < all[i] + 40
    ensures !Sorted(Insert(all, i, x))
  {
    InsertAt(all, i, x, i);
    InsertAt(all, i, x, i + 1);
    if Sorted(Insert(all, i, x)) {
      SortedAt(Insert(all, i, x), i, i + 1);
    }
  }

  lemma SentinelBreaks(h: Heap)
    requires HeapOk(h)
    ensures !HeapOk(TakeSentinel(h))
  {
    var all' := TakeSentinel(h).all;
    if Sorted(all') {
      SortedAt(all', |h.all| - 1, |h.all|);
    }
  }

  /** An allocation keeps the heap's structure exactly when its request does not wrap into a wreck. */
  lemma AllocKeepsIff(h: Heap, size: nat)
    requires HeapOk(h)
    ensures HeapOk(Alloc(h, size)) <==> !Wrecks(h, size)
  {
    if Wrecks(h, size) {
      ServedWrapped(h, size);
      var m := ServingBin(h, size).value;
      if m == -1 {
        SentinelBreaks(h);
      } else {
        BinnedIsFree(h, m, h.bins[m][0]);
        WrappedSplitBreaks(h, m, Wrap64(Rounded(size) + 24) - 24);
      }
    } else {
      AllocKeeps(h, size);
    }
  }

  // ---------- freeing keeps the structure ----------

  /** Merging a middle chunk into the one before it keeps the tiling. */
  lemma DropTiled(h: Heap, i: nat, used': set<nat>)
    requires Tiled(h) && 0 < i && i + 2 < |h.all| && used' == h.used - {h.all[i + 1]}
    ensures Tiled(h.(all := Drop(h.all, i + 1), used := used'))
  {
    DropEnds(h.all, i);
    DropBetween(h.all, i);
    var all' := Drop(h.all, i + 1);
    forall c | c in all'
      ensures c % 4 == 0
    {
      DropMembers(h.all, i, c);
    }
    forall c | c in used'
      ensures c in all'
    {
      DropMembers(h.all, i, c);
    }
  }

  lemma DropEnds(all: seq<nat>, i: nat)
    requires Sorted(all) && 0 < i && i + 2 < |all|
    ensures var all' := Drop(all, i + 1);
            && all'[0] == all[0] != all[i + 1] && all'[1] == all[1]
            && all'[|all'| - 1] == all[|all| - 1] != all[i + 1]
  {
    DropAt(all, i + 1, 0);
    DropAt(all, i + 1, 1);
    DropAt(all, i + 1, |all| - 2);
    SortedAt(all, 0, i + 1);
    SortedAt(all, i + 1, |all| - 1);
  }

  /** A used middle chunk with a free one after it. */
  ghost predicate CanAbsorb(h: Heap, i: nat) {
    HeapOk(h) && 0 < i && i + 2 < |h.all| && h.all[i] in h.used && h.all[i + 1] !in h.used
  }

  lemma AbsorbBins(h: Heap, i: nat)
    requires CanAbsorb(h, i)
    ensures BinsOk(Drop(h.all, i + 1), h.used, AbsorbNext(h, i).bins)
  {
    var bins', x := AbsorbNext(h, i).bins, h.all[i + 1];
    var n := Slot(SizeOf(h.all, x));
    FreeChunk(h, x);
    assert BelongsIn(h.all, h.used, x, n);
    forall k, c | 0 <= k < 32
      ensures Distinct(bins'[k])
      ensures c in bins'[k] <==> BelongsIn(Drop(h.all, i + 1), h.used, c, k)
    {
      DeleteBin(h.bins, n, x, k, c);
      DropMembers(h.all, i, c);
      DropSizes(h.all, i, c);
    }
  }

  lemma AbsorbNextKeeps(h: Heap, i: nat)
    requires CanAbsorb(h, i)
    ensures HeapOk(AbsorbNext(h, i))
    ensures AbsorbNext(h, i).all[i] == h.all[i] && AbsorbNext(h, i).all[i - 1] == h.all[i - 1]
    ensures AbsorbNext(h, i).all[i + 1] in h.used && i + 1 < |AbsorbNext(h, i).all|
  {
    var h' := AbsorbNext(h, i);
    assert h.used - {h.all[i + 1]} == h.used;
    DropTiled(h, i, h.used);
    SameTiling(h.(all := Drop(h.all, i + 1), used := h.used), h');
    DropNeighbours(h.all, h.used, i);
    AbsorbBins(h, i);
    AbsorbedPlaces(h, i);
  }

  /** Tiling is a matter of the ring and the flags. */
  lemma SameTiling(h: Heap, h': Heap)
    requires Tiled(h) && h'.base == h.base && h'.limit == h.limit && h'.all == h.all && h'.used == h.used
    ensures Tiled(h')
  {
  }

  lemma AbsorbedPlaces(h: Heap, i: nat)
    requires CanAbsorb(h, i)
    ensures var all' := Drop(h.all, i + 1);
            i + 1 < |all'| && all'[i] == h.all[i] && all'[i - 1] == h.all[i - 1] && all'[i + 1] in h.used
  {
    DropAt(h.all, i + 1, i - 1);
    DropAt(h.all, i + 1, i);
    DropAt(h.all, i + 1, i + 1);
    NeighbourAt(h.all, h.used, i + 1);
  }

  /** A used middle chunk between used neighbours. */
  ghost predicate CanRelease(h: Heap, i: nat) {
    HeapOk(h) && 0 < i < |h.all| - 1 && h.all[i] in h.used && h.all[i - 1] in h.used && h.all[i + 1] in h.used
  }

  lemma ReleaseBins(h: Heap, i: nat)
    requires CanRelease(h, i)
    ensures BinsOk(h.all, h.used - {h.all[i]}, Release(h, i).bins)
  {
    var bins', x := Release(h, i).bins, h.all[i];
    var n := Slot(SizeOf(h.all, x));
    ChunkSize(h, i);
    assert !BelongsIn(h.all, h.used, x, n);
    forall k, c | 0 <= k < 32
      ensures Distinct(bins'[k])
      ensures c in bins'[k] <==> BelongsIn(h.all, h.used - {x}, c, k)
    {
      PushBin(h.bins, n, x, k, c);
    }
  }

  lemma ReleaseKeeps(h: Heap, i: nat)
    requires CanRelease(h, i)
    ensures HeapOk(Release(h, i))
  {
    ReleaseBins(h, i);
    FreeBetweenUsed(h.all, h.used, i);
    SortedAt(h.all, 0, i);
    SortedAt(h.all, i, |h.all| - 1);
  }

  /** A used chunk after position i with a free one before it and a used one after it. */
  ghost predicate CanMerge(h: Heap, i: nat) {
    && HeapOk(h) && 0 < i && i + 2 < |h.all|
    && h.all[i] !in h.used && h.all[i + 1] in h.used && h.all[i + 2] in h.used
  }

  lemma MergeBelongs(h: Heap, i: nat, k: nat, c: nat)
    requires CanMerge(h, i)
    ensures var all', x := Drop(h.all, i + 1), h.all[i + 1];
            BelongsIn(all', h.used - {x}, c, k) <==>
              if c == h.all[i] then k == Slot(SizeOf(all', h.all[i])) else BelongsIn(h.all, h.used, c, k)
  {
    DropMembers(h.all, i, c);
    DropSizes(h.all, i, c);
    SortedAt(h.all, i, i + 1);
  }

  lemma MergedSize(h: Heap, i: nat)
    requires CanMerge(h, i)
    ensures 0 <= Slot(SizeOf(Drop(h.all, i + 1), h.all[i])) < 32
  {
    DropTiled(h, i, h.used - {h.all[i + 1]});
    DropAt(h.all, i + 1, i);
    ChunkSize(h.(all := Drop(h.all, i + 1), used := h.used - {h.all[i + 1]}), i);
  }

  lemma MergeBins(h: Heap, i: nat)
    requires CanMerge(h, i)
    ensures BinsOk(Drop(h.all, i + 1), h.used - {h.all[i + 1]}, MergeIntoPrev(h, i + 1).bins)
  {
    var bins', prev := MergeIntoPrev(h, i + 1).bins, h.all[i];
    var all', used' := Drop(h.all, i + 1), h.used - {h.all[i + 1]};
    var n, n' := Slot(SizeOf(h.all, prev)), Slot(SizeOf(all', prev));
    FreeChunk(h, prev);
    MergedSize(h, i);
    assert BelongsIn(h.all, h.used, prev, n);
    assert n' != n ==> !BelongsIn(h.all, h.used, prev, n');
    DeleteBin(h.bins, n, prev, n', prev);
    forall k, c | 0 <= k < 32
      ensures Distinct(bins'[k])
      ensures c in bins'[k] <==> BelongsIn(all', used', c, k)
    {
      DeleteBin(h.bins, n, prev, k, c);
      PushBin(Delete(h.bins, n, prev), n', prev, k, c);
      MergeBelongs(h, i, k, c);
    }
  }

  lemma MergeIntoPrevKeeps(h: Heap, i: nat)
    requires CanMerge(h, i)
    ensures HeapOk(MergeIntoPrev(h, i + 1))
  {
    var used' := h.used - {h.all[i + 1]};
    DropTiled(h, i, used');
    MergeNeighbours(h, i);
    MergeBins(h, i);
  }

  lemma MergeNeighbours(h: Heap, i: nat)
    requires CanMerge(h, i)
    ensures NoFreeNeighbours(Drop(h.all, i + 1), h.used - {h.all[i + 1]})
  {
    DropNeighbours(h.all, h.used, i);
    DropMembers(h.all, i, h.all[i + 1]);
    NotOnRing(Drop(h.all, i + 1), h.used, h.all[i + 1]);
  }

  lemma {:induction false} NotOnRing(all: seq<nat>, used: set<nat>, c: nat)
    requires NoFreeNeighbours(all, used) && c !in all
    ensures NoFreeNeighbours(all, used - {c})
  {
    if |all| >= 2 {
      NotOnRing(all[1..], used, c);
    }
  }

  lemma FreeTailKeeps(h: Heap, i: nat)
    requires HeapOk(h) && 0 < i && i + 1 < |h.all| && h.all[i] in h.used && h.all[i + 1] in h.used
    ensures HeapOk(FreeTail(h, i))
  {
    if h.all[i - 1] !in h.used {
      MergeIntoPrevKeeps(h, i - 1);
    } else {
      ReleaseKeeps(h, i);
    }
  }

  /** Every free keeps the heap's structure. */
  lemma FreeKeeps(h: Heap, p: nat)
    requires HeapOk(h) && LiveBlock(h, p)
    ensures HeapOk(Free(h, p))
  {
    var i := IndexOf(h.all, p - 24);
    var h0 := Uncount(h, p);
    if h.all[i + 1] !in h.used {
      AbsorbNextKeeps(h0, i);
      FreeTailKeeps(AbsorbNext(h0, i), i);
    } else {
      FreeTailKeeps(h0, i);
    }
  }
}
