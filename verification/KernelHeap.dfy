/** malloc.c: one page tag of the kernel heap, each operation proved to have its effect in the specification. */
module KernelHeap {
  import opened Options
  import opened HeapLayout
  import opened HeapSpec
  import opened HeapInvariant
  import opened Ring
  import opened Words

  const NUM_SIZES: nat := 32
  const HEADER_SIZE: nat := 24
  const CHUNK_SIZE: nat := 40
  const MIN_SIZE: nat := 16
  const PAGE_SIZE: nat := 4096

  lemma {:induction false} PositionIsIndex(all: seq<nat>, c: nat)
    requires c in all
    ensures Position(all, c) == IndexOf(all, c)
  {
    if all[0] != c {
      PositionIsIndex(all[1..], c);
    }
  }

  lemma Quarters(k: nat)
    ensures (4 * k + 3) / 4 == k && 4 * k / 4 == k
  {
  }

  /** Page-aligned memory is already aligned to ALIGN. */
  lemma Aligned(page: nat, npages: nat)
    requires page % PAGE_SIZE == 0
    ensures (page + 3) / 4 * 4 == page && (page + npages * PAGE_SIZE) / 4 * 4 == page + npages * PAGE_SIZE
  {
    var k := page / PAGE_SIZE;
    Quarters(1024 * k);
    Quarters(1024 * (k + npages));
  }

  lemma LoneEntry(bins: seq<seq<nat>>, n: nat, ck: nat)
    requires n < |bins| && |bins[n]| == 1 && ck in bins[n]
    ensures bins[n][0] == ck && Delete(bins, n, ck) == bins[n := []]
  {
    assert Position(bins[n], ck) == 0 && Without(bins[n], 0) == [];
  }

  /** The size of a chunk has one of the bins. */
  predicate HasBin(all: seq<nat>, ck: nat) {
    0 <= Slot(SizeOf(all, ck)) < NUM_SIZES
  }

  /** A chunk is in the bin of its size. */
  predicate InBin(h: Heap, ck: nat) {
    |h.bins| == NUM_SIZES && HasBin(h.all, ck) && ck in h.bins[Slot(SizeOf(h.all, ck))]
  }

  lemma FreeIsBinned(h: Heap, c: nat)
    requires HeapOk(h) && c in h.all && c !in h.used
    ensures InBin(h, c)
  {
    FreeChunk(h, c);
    assert BelongsIn(h.all, h.used, c, Slot(SizeOf(h.all, c)));
  }

  /** The size of a remainder that starts inside the header of the chunk it is split from. */
  lemma {:induction false} InsideSize(all: seq<nat>, i: nat, x: nat)
    requires Sorted(all) && i + 1 < |all| && all[i] < x < all[i] + 40
    ensures SizeOf(Insert(all, i, x), x) == all[i + 1] - x
  {
    SortedAt(all, i, i + 1);
    if i == 0 {
      assert Insert(all, i, x)[1..] == [x] + all[1..];
      assert ([x] + all[1..])[1..] == all[1..];
    } else {
      SortedAt(all, 0, i);
      InsideSize(all[1..], i - 1, x);
      assert Insert(all, i, x)[1..] == Insert(all[1..], i - 1, x);
    }
  }

  /** Where the remainder of a split for r bytes goes, if the head of bin n is split. */
  ghost predicate RemainderBinned(h: Heap, n: nat, r: nat) {
    && |h.bins| == NUM_SIZES && n < NUM_SIZES && h.bins[n] != [] && h.bins[n][0] in h.all
    && var f, x := h.bins[n][0], h.bins[n][0] + Wrap64(r + 24);
       Wrap64(r + 80) <= SizeOf(h.all, f) ==> HasBin(Insert(h.all, IndexOf(h.all, f), x), x)
  }

  lemma SmallRemainder(h: Heap, size: nat)
    requires HeapOk(h) && ServingBin(h, size).Some? && Rounded(size) < 0xFFFF_FFFF_FFFF_FFE8
    ensures ServingBin(h, size).value >= 0 && RemainderBinned(h, ServingBin(h, size).value, Rounded(size))
  {
    var r, m := Rounded(size), ServingBin(h, size).value;
    RoundedOk(size);
    ServedIsSmall(h, size);
    WrapExact(r + 24);
    WrapExact(r + 80);
    BinnedIsFree(h, m, h.bins[m][0]);
    if r + 80 <= SizeOf(h.all, h.bins[m][0]) {
      RemainderBin(h, m, r);
    }
  }

  lemma WrappedRemainder(h: Heap, f: nat, d: nat)
    requires HeapOk(h) && f in h.all && f !in h.used && d <= 20
    ensures d > 0 ==> HasBin(Insert(h.all, IndexOf(h.all, f), f + d), f + d)
  {
    var i := IndexOf(h.all, f);
    FreeChunk(h, f);
    ChunkSize(h, i);
    if d > 0 {
      InsideSize(h.all, i, f + d);
      SlotFitsBins(h.all[i + 1] - (f + d));
    }
  }

  lemma LargeRemainder(h: Heap, size: nat)
    requires HeapOk(h) && ServingBin(h, size).Some? && ServingBin(h, size).value != -1
    requires Rounded(size) >= 0xFFFF_FFFF_FFFF_FFE8
    ensures ServingBin(h, size).value >= 0 && RemainderBinned(h, ServingBin(h, size).value, Rounded(size))
  {
    var m := ServingBin(h, size).value;
    ServedWrapped(h, size);
    BinnedIsFree(h, m, h.bins[m][0]);
    WrappedRemainder(h, h.bins[m][0], Wrap64(Rounded(size) + 24));
  }

  lemma RemainderIsBinned(h: Heap, size: nat)
    requires HeapOk(h) && ServingBin(h, size).Some? && ServingBin(h, size).value != -1
    ensures ServingBin(h, size).value >= 0 && RemainderBinned(h, ServingBin(h, size).value, Rounded(size))
  {
    if Rounded(size) < 0xFFFF_FFFF_FFFF_FFE8 {
      SmallRemainder(h, size);
    } else {
      LargeRemainder(h, size);
    }
  }

  /** A split just before its chunk is marked used; the remainder starts at x. */
  ghost function BeforeSettled(h: Heap, n: nat, x: nat): Heap
    requires n < |h.bins| && h.bins[n] != [] && h.bins[n][0] in h.all
  {
    var all := Insert(h.all, IndexOf(h.all, h.bins[n][0]), x);
    var len := SizeOf(all, x);
    h.(all := all, bins := Push(h.bins[n := h.bins[n][1..]], Slot(len), x),
       memMeta := Wrap64(h.memMeta + 24), memFree := Wrap64(h.memFree + (len - 24)))
  }

  lemma SplitSettled(h: Heap, n: nat, r: int, x: nat)
    requires n < |h.bins| && h.bins[n] != [] && h.bins[n][0] in h.all && x == h.bins[n][0] + 24 + r
    ensures var f := h.bins[n][0];
            TakeSplit(h, n, r) ==
              Settled(BeforeSettled(h, n, x), f, SizeOf(h.all, f), SizeOf(Insert(h.all, IndexOf(h.all, f), x), x))
  {
  }

  ghost function Settled(h: Heap, f: nat, size2: nat, len: nat): Heap {
    h.(used := h.used + {f}, memFree := Wrap64(h.memFree - (size2 - 24)), memUsed := Wrap64(h.memUsed + size2 - len - 24))
  }

  /** The first half of kfree: the chunk at position i absorbs a free one behind it. */
  ghost function Absorbed(h: Heap, i: nat): Heap
    requires i + 1 < |h.all|
  {
    if h.all[i + 1] !in h.used then AbsorbNext(h, i) else h
  }

  /** The chunk at position i can join the free chunk before it, or a bin. */
  ghost predicate TailReady(h: Heap, i: nat) {
    && 0 < i < |h.all|
    && if h.all[i - 1] !in h.used then InBin(h, h.all[i - 1]) && HasBin(Drop(h.all, i), h.all[i - 1])
       else |h.bins| == NUM_SIZES && HasBin(h.all, h.all[i])
  }

  lemma TailIsReady(h: Heap, i: nat)
    requires HeapOk(h) && 0 < i && i + 1 < |h.all| && h.all[i] in h.used && h.all[i + 1] in h.used
    ensures TailReady(h, i)
  {
    if h.all[i - 1] !in h.used {
      FreeIsBinned(h, h.all[i - 1]);
      MergedSize(h, i - 1);
    } else {
      ChunkSize(h, i);
    }
  }

  lemma FreeInSteps(h: Heap, p: nat)
    requires HeapOk(h) && LiveBlock(h, p)
    ensures var i := IndexOf(h.all, p - 24);
            && (h.all[i + 1] !in h.used ==> InBin(h, h.all[i + 1]))
            && TailReady(Absorbed(Uncount(h, p), i), i)
            && Free(h, p) == FreeTail(Absorbed(Uncount(h, p), i), i)
  {
    var i, h0 := IndexOf(h.all, p - 24), Uncount(h, p);
    if h.all[i + 1] !in h.used {
      FreeIsBinned(h, h.all[i + 1]);
      AbsorbNextKeeps(h0, i);
      TailIsReady(AbsorbNext(h0, i), i);
    } else {
      TailIsReady(h0, i);
    }
  }

  /** A page_tag, with its chunk ring and its bins read from their heads. */
  class PageTag {
    var base: nat
    var limit: nat
    var all: seq<nat>
    var used: set<nat>
    var bins: seq<seq<nat>>
    var memFree: nat
    var memUsed: nat
    var memMeta: nat

    ghost function St(): Heap
      reads this
    {
      Heap(base, limit, all, used, bins, memFree, memUsed, memMeta)
    }

    /** kmemory_page_init on page-aligned memory. */
    constructor KmemoryPageInit(page: nat, npages: nat)
      requires page % PAGE_SIZE == 0 && 0 < npages < 0x10_0000
      ensures St() == InitHeap(page, npages)
    {
      Aligned(page, npages);
      var memStart := (page + 3) / 4 * 4;
      var memEnd := (page + npages * PAGE_SIZE) / 4 * 4;
      var first, second, last := memStart, memStart + CHUNK_SIZE, memEnd - CHUNK_SIZE;
      var ring := [first];
      ring := ring + [second];
      ring := ring + [last];
      assert ring == [first, second, last] && ring[1..] == [second, last];
      var len := SizeOf(ring, second);
      assert SizeOf([second, last], second) == 4096 * npages - 80;
      var n := MemoryChunkSlot(len);
      base, limit := page, page + npages * PAGE_SIZE;
      all, used := ring, {first, last};
      bins := seq(NUM_SIZES, k => if k == n then [second] else []);
      memFree := len - HEADER_SIZE;
      memUsed := 0;
      memMeta := CHUNK_SIZE * 2 + HEADER_SIZE;
    }

    /** The search of kmalloc_on_cur_page for a bin that is not empty. */
    method FindBin(n0: nat) returns (n: nat)
      requires |bins| == NUM_SIZES
      ensures n == FirstBin(bins, n0)
    {
      n := n0;
      if n >= NUM_SIZES {
        return NUM_SIZES;
      }
      while bins[n] == []
        invariant n < NUM_SIZES && FirstBin(bins, n) == FirstBin(bins, n0)
        decreases NUM_SIZES - n
      {
        n := n + 1;
        if n >= NUM_SIZES {
          return;
        }
      }
    }

    /** Take the chosen bin's head off its ring; a last entry leaves the bin empty. */
    method FetchHead(n: nat) returns (f: nat)
      requires n < |bins| && bins[n] != []
      modifies this`bins
      ensures f == old(bins)[n][0] && bins == old(bins)[n := old(bins)[n][1..]]
    {
      f := bins[n][0];
      if |bins[n]| == 1 {
        assert bins[n][1..] == [] && bins[n := bins[n][1..]] == bins[n := []];
        bins := bins[n := []];
      } else {
        bins := bins[n := bins[n][1..]];
      }
    }

    /** Add a chunk to the bin of its size. */
    method PushFree(ck: nat)
      requires |bins| == NUM_SIZES && HasBin(all, ck)
      modifies this`bins
      ensures bins == Push(old(bins), Slot(SizeOf(all, ck)), ck)
    {
      var n := MemoryChunkSlot(SizeOf(all, ck));
      if bins[n] == [] {
        assert bins[n] + [ck] == [ck];
        bins := bins[n := [ck]];
      } else {
        bins := bins[n := bins[n] + [ck]];
      }
    }

    /** Unlink a chunk from a bin, the head moving on to its successor; a last entry leaves the bin empty. */
    method UnlinkFree(ck: nat, n: nat)
      requires n < |bins| && ck in bins[n]
      modifies this`bins
      ensures bins == Delete(old(bins), n, ck)
    {
      var ring := bins[n];
      if |ring| == 1 {
        LoneEntry(bins, n, ck);
        if ck == ring[0] {
          bins := bins[n := []];
        }
      } else {
        bins := bins[n := Without(ring, Position(ring, ck))];
      }
    }

    /** remove_free. */
    method RemoveFree(ck: nat)
      requires InBin(St(), ck)
      modifies this`bins, this`memFree
      ensures bins == Delete(old(bins), Slot(SizeOf(all, ck)), ck)
      ensures memFree == Wrap64(old(memFree) - (SizeOf(all, ck) - HEADER_SIZE))
    {
      var len := SizeOf(all, ck);
      var n := MemoryChunkSlot(len);
      UnlinkFree(ck, n);
      memFree := Wrap64(memFree - (len - HEADER_SIZE));
    }

    /** Split a fetched chunk: the remainder at ck2 becomes a chunk of its own, in its bin. */
    method SplitOff(f: nat, ck2: nat) returns (len: nat)
      requires |bins| == NUM_SIZES && f in all && HasBin(Insert(all, IndexOf(all, f), ck2), ck2)
      modifies this`all, this`bins, this`memMeta, this`memFree
      ensures all == Insert(old(all), IndexOf(old(all), f), ck2) && len == SizeOf(all, ck2)
      ensures bins == Push(old(bins), Slot(len), ck2)
      ensures memMeta == Wrap64(old(memMeta) + HEADER_SIZE) && memFree == Wrap64(old(memFree) + (len - HEADER_SIZE))
    {
      var i := Position(all, f);
      PositionIsIndex(all, f);
      InsertIsSlice(all, i, ck2);
      all := all[..i + 1] + [ck2] + all[i + 1..];
      len := SizeOf(all, ck2);
      PushFree(ck2);
      memMeta := Wrap64(memMeta + HEADER_SIZE);
      memFree := Wrap64(memFree + (len - HEADER_SIZE));
    }

    /** Split the chunk just fetched from bin n of h. */
    method SplitFetched(ghost h: Heap, n: nat, f: nat, ck2: nat) returns (len: nat)
      requires n < |h.bins| == NUM_SIZES && h.bins[n] != [] && f == h.bins[n][0] && f in h.all
      requires St() == h.(bins := h.bins[n := h.bins[n][1..]]) && HasBin(Insert(all, IndexOf(all, f), ck2), ck2)
      modifies this`all, this`bins, this`memMeta, this`memFree
      ensures St() == BeforeSettled(h, n, ck2) && len == SizeOf(Insert(h.all, IndexOf(h.all, f), ck2), ck2)
    {
      len := SplitOff(f, ck2);
    }

    /** The first half of kmalloc_on_cur_page: the bin to serve from, 32 for none; the sum with the header wraps. */
    method ChooseBin(request: nat, size: nat) returns (n: int)
      requires |bins| == NUM_SIZES && size == Rounded(request)
      ensures ServingBin(St(), request) == if n == NUM_SIZES then None else Some(n)
    {
      if size > memFree {
        return NUM_SIZES;
      }
      n := MemoryChunkSlot(Wrap64(size + HEADER_SIZE));
      if n != -1 {
        n := FindBin(n);
      }
    }

    /** kmalloc_on_cur_page. */
    method KmallocOnCurPage(request: nat) returns (p: Option<nat>)
      requires HeapOk(St())
      modifies this
      ensures St() == Alloc(old(St()), request) && p == AllocBlock(old(St()), request)
    {
      var size := Wrap64(request + 3) / 4 * 4;
      if size < MIN_SIZE {
        size := MIN_SIZE;
      }
      var n := ChooseBin(request, size);
      if n == NUM_SIZES {
        return None;
      }
      if n == -1 {
        p := Some(all[|all| - 1] + HEADER_SIZE);
        ServeSentinel();
      } else {
        RemainderIsBinned(St(), request);
        p := Some(bins[n][0] + HEADER_SIZE);
        Serve(n, size);
      }
    }

    /** The second half of kmalloc_on_cur_page: take the head of bin n and split it where the sums allow. */
    method Serve(n: nat, size: nat)
      requires RemainderBinned(St(), n, size)
      modifies this
      ensures St() == if Wrap64(size + 80) <= SizeOf(old(all), old(bins[n][0]))
                      then TakeSplit(old(St()), n, Wrap64(size + 24) - 24) else TakeWhole(old(St()), n)
    {
      ghost var h := St();
      var f := FetchHead(n);
      var size2, len := SizeOf(all, f), 0;
      if Wrap64(size + 2 * CHUNK_SIZE) <= size2 {
        var ck2 := f + Wrap64(size + HEADER_SIZE);
        len := SplitFetched(h, n, f, ck2);
        SplitSettled(h, n, Wrap64(size + HEADER_SIZE) - 24, ck2);
      }
      Settle(f, size2, len);
    }

    /** The same for index -1: the word before the bins is the `last` pointer, and the remainder is the sentinel itself. */
    method ServeSentinel()
      requires all != [] && all[|all| - 1] in used
      modifies this
      ensures St() == TakeSentinel(old(St()))
    {
      var first: int, f := all[0], all[|all| - 1];
      var size2, len := Wrap64(first - f), 0;
      all := all + [f];
      memMeta := Wrap64(memMeta + HEADER_SIZE);
      memFree := Wrap64(memFree - HEADER_SIZE);
      Settle(f, size2, len);
    }

    /** Mark a fetched chunk used and move its bytes from free to used. */
    method Settle(f: nat, size2: nat, len: nat)
      modifies this`used, this`memFree, this`memUsed
      ensures St() == Settled(old(St()), f, size2, len)
    {
      used := used + {f};
      memFree := Wrap64(memFree - (size2 - HEADER_SIZE));
      memUsed := Wrap64(memUsed + size2 - len - HEADER_SIZE);
    }

    /** list_del of the chunk at position i. */
    method Unlink(i: nat)
      requires i < |all|
      modifies this`all
      ensures all == Drop(old(all), i)
    {
      DropIsSlice(all, i);
      all := all[..i] + all[i + 1..];
    }

    /** kfree: merge with a free chunk on either side, or become free; then see whether the pages are empty. */
    method Kfree(p: nat) returns (needFreePage: bool)
      requires HeapOk(St()) && LiveBlock(St(), p)
      modifies this
      ensures St() == Free(old(St()), p)
      ensures needFreePage == Vacant(St())
    {
      var ck := p - HEADER_SIZE;
      var i := Position(all, ck);
      PositionIsIndex(all, ck);
      FreeInSteps(St(), p);
      memUsed := Wrap64(memUsed - SizeOf(all, ck));
      MergeNext(i);
      FreeRest(i);
      needFreePage := ScanForUsed();
    }

    /** The first half of kfree. */
    method MergeNext(i: nat)
      requires i + 1 < |all| && (all[i + 1] !in used ==> InBin(St(), all[i + 1]))
      modifies this
      ensures St() == Absorbed(old(St()), i)
    {
      if all[i + 1] !in used {
        TakeOver(i);
      }
    }

    method TakeOver(i: nat)
      requires i + 1 < |all| && InBin(St(), all[i + 1])
      modifies this
      ensures St() == AbsorbNext(old(St()), i)
    {
      var next := all[i + 1];
      RemoveFree(next);
      Unlink(i + 1);
      memMeta := Wrap64(memMeta - HEADER_SIZE);
      memFree := Wrap64(memFree + HEADER_SIZE);
    }

    /** The second half of kfree. */
    method FreeRest(i: nat)
      requires TailReady(St(), i)
      modifies this
      ensures St() == FreeTail(old(St()), i)
    {
      if all[i - 1] !in used {
        MergePrev(i);
      } else {
        BecomeFree(i);
      }
    }

    method MergePrev(i: nat)
      requires 0 < i < |all| && InBin(St(), all[i - 1]) && HasBin(Drop(all, i), all[i - 1])
      modifies this
      ensures St() == MergeIntoPrev(old(St()), i)
    {
      GrowPrev(i);
      memMeta := Wrap64(memMeta - HEADER_SIZE);
      memFree := Wrap64(memFree - HEADER_SIZE);
    }

    /** The free chunk before position i takes over the one there and moves to the bin of its new size. */
    method GrowPrev(i: nat)
      requires 0 < i < |all| && InBin(St(), all[i - 1]) && HasBin(Drop(all, i), all[i - 1])
      modifies this`all, this`used, this`bins, this`memFree
      ensures all == Drop(old(all), i) && used == old(used) - {old(all)[i]}
      ensures var prev := old(all)[i - 1];
              && memFree == Wrap64(old(memFree) - (SizeOf(old(all), prev) - HEADER_SIZE))
              && bins == Push(Delete(old(bins), Slot(SizeOf(old(all), prev)), prev), Slot(SizeOf(all, prev)), prev)
    {
      var ck, prev := all[i], all[i - 1];
      RemoveFree(prev);
      Unlink(i);
      used := used - {ck};
      PushFree(prev);
    }

    method BecomeFree(i: nat)
      requires i < |all| && |bins| == NUM_SIZES && HasBin(all, all[i])
      modifies this
      ensures St() == Release(old(St()), i)
    {
      used := used - {all[i]};
      PushFree(all[i]);
    }

    /** The release scan of kfree. */
    method ScanForUsed() returns (needFreePage: bool)
      requires |all| >= 2
      ensures needFreePage == Vacant(St())
    {
      var k := 1;
      while k < |all| - 1
        invariant 1 <= k <= |all| - 1
        invariant forall i :: 0 < i < k ==> all[i] !in used
      {
        if all[k] in used {
          return false;
        }
        k := k + 1;
      }
      return true;
    }
  }
}
