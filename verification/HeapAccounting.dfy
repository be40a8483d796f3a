/** What the heap's byte counters mean, and when they stop meaning it. */
module HeapAccounting {
  import opened Options
  import opened HeapLayout
  import opened HeapSpec
  import opened HeapInvariant
  import opened Words

  /** The payload of a chunk that starts at a when the next one starts at b. */
  ghost function Payload(a: int, b: int): int {
    b - a - 24
  }

  /** Payload bytes of the free chunks, of the used chunks: each chunk but the last counts its size less its header. */
  ghost function FreeSum(all: seq<nat>, used: set<nat>): int {
    if |all| < 2 then 0
    else (if all[0] !in used then Payload(all[0], all[1]) else 0) + FreeSum(all[1..], used)
  }

  ghost function UsedSum(all: seq<nat>, used: set<nat>): int {
    if |all| < 2 then 0
    else (if all[0] in used then Payload(all[0], all[1]) else 0) + UsedSum(all[1..], used)
  }

  /** The three counters are the exact sums over free chunks, over used chunks between the sentinels, and over headers. */
  ghost predicate Exact(h: Heap) {
    && h.all != []
    && h.memFree == FreeSum(h.all, h.used)
    && h.memUsed == UsedSum(h.all[1..], h.used)
    && h.memMeta == 24 * (|h.all| - 2) + 80
  }

  lemma {:induction false} SumsTile(all: seq<nat>, used: set<nat>)
    requires Sorted(all) && all != []
    ensures FreeSum(all, used) + UsedSum(all, used) + 24 * (|all| - 1) + all[0] == all[|all| - 1]
    ensures FreeSum(all, used) >= 0 && UsedSum(all, used) >= 0
  {
    if |all| >= 2 {
      SumsTile(all[1..], used);
    }
  }

  /** Conservation: exact counters add up to the arena. */
  lemma ExactConserves(h: Heap)
    requires Tiled(h) && Exact(h)
    ensures h.memFree + h.memUsed + h.memMeta == h.limit - h.base
    ensures h.memFree < 0x1_0000_0000 && h.memUsed < 0x1_0000_0000
  {
    SumsTile(h.all, h.used);
    SumsTile(h.all[1..], h.used);
    assert UsedSum(h.all, h.used) == 16 + UsedSum(h.all[1..], h.used);
  }

  /** What a chunk at position i contributes to the free sum. */
  ghost function FreeShare(all: seq<nat>, used: set<nat>, i: nat): int
    requires i + 1 < |all|
  {
    if all[i] !in used then Payload(all[i], all[i + 1]) else 0
  }

  ghost function UsedShare(all: seq<nat>, used: set<nat>, i: nat): int
    requires i + 1 < |all|
  {
    if all[i] in used then Payload(all[i], all[i + 1]) else 0
  }

  lemma {:induction false} ShareWithin(all: seq<nat>, used: set<nat>, i: nat)
    requires Sorted(all) && i + 1 < |all|
    ensures 0 <= FreeShare(all, used, i) <= FreeSum(all, used)
    ensures 0 <= UsedShare(all, used, i) <= UsedSum(all, used)
  {
    SumsTile(all[1..], used);
    if i > 0 {
      ShareWithin(all[1..], used, i - 1);
    }
  }

  /** Sums depend only on the flags of chunks on the ring. */
  lemma {:induction false} SumsAgree(all: seq<nat>, used: set<nat>, used': set<nat>)
    requires forall c :: c in all ==> (c in used <==> c in used')
    ensures FreeSum(all, used) == FreeSum(all, used') && UsedSum(all, used) == UsedSum(all, used')
  {
    if |all| >= 2 {
      SumsAgree(all[1..], used, used');
    }
  }

  /** Marking the free chunk at position i used moves its share. */
  lemma {:induction false} MarkUsed(all: seq<nat>, used: set<nat>, i: nat)
    requires Sorted(all) && i + 1 < |all| && all[i] !in used
    ensures FreeSum(all, used + {all[i]}) == FreeSum(all, used) - (Payload(all[i], all[i + 1]))
    ensures UsedSum(all, used + {all[i]}) == UsedSum(all, used) + (Payload(all[i], all[i + 1]))
  {
    if i == 0 {
      forall c | c in all[1..]
        ensures c in used <==> c in used + {all[0]}
      {
        SortedAbove(all, c);
      }
      SumsAgree(all[1..], used, used + {all[0]});
    } else {
      SortedAt(all, 0, i);
      MarkUsed(all[1..], used, i - 1);
    }
  }

  /** Inserting x after position i replaces one share by two. */
  lemma {:induction false} InsertSums(all: seq<nat>, used: set<nat>, i: nat, x: nat)
    requires i + 1 < |all|
    ensures FreeSum(Insert(all, i, x), used) == FreeSum(all, used) - FreeShare(all, used, i)
            + (if all[i] !in used then Payload(all[i], x) else 0) + (if x !in used then Payload(x, all[i + 1]) else 0)
    ensures UsedSum(Insert(all, i, x), used) == UsedSum(all, used) - UsedShare(all, used, i)
            + (if all[i] in used then Payload(all[i], x) else 0) + (if x in used then Payload(x, all[i + 1]) else 0)
  {
    if i == 0 {
      assert Insert(all, i, x)[1..] == [x] + all[1..];
      assert ([x] + all[1..])[1..] == all[1..];
    } else {
      InsertSums(all[1..], used, i - 1, x);
      assert Insert(all, i, x)[1..] == Insert(all[1..], i - 1, x);
      InsertAt(all, i, x, 1);
    }
  }

  /** The sums after a whole chunk was taken. */
  lemma TakeWholeSums(h: Heap, f: nat)
    requires HeapOk(h) && f in h.all && f !in h.used
    ensures var used', pay := h.used + {f}, SizeOf(h.all, f) - 24;
            && FreeSum(h.all, used') == FreeSum(h.all, h.used) - pay
            && UsedSum(h.all[1..], used') == UsedSum(h.all[1..], h.used) + pay
            && 0 <= pay <= FreeSum(h.all, h.used)
  {
    FreeChunk(h, f);
    var i := IndexOf(h.all, f);
    MarkUsed(h.all, h.used, i);
    MarkUsed(h.all[1..], h.used, i - 1);
    ShareWithin(h.all, h.used, i);
  }

  lemma TakeWholeExact(h: Heap, n: nat)
    requires HeapOk(h) && Exact(h) && n < 32 && h.bins[n] != []
    ensures Exact(TakeWhole(h, n))
  {
    var f := h.bins[n][0];
    BinnedIsFree(h, n, f);
    TakeWholeSums(h, f);
    ExactConserves(h);
    WrapExact(h.memFree - (SizeOf(h.all, f) - 24));
    WrapExact(h.memUsed + SizeOf(h.all, f) - 24);
  }

  /** The sums after a chunk was split for r payload bytes. */
  lemma TakeSplitSums(h: Heap, f: nat, r: nat)
    requires CanSplit(h, f, r)
    ensures var used', all' := h.used + {f}, SplitAll(h, f, r);
            var size, len := SizeOf(h.all, f), SizeOf(all', f + 24 + r);
            && len == size - 24 - r
            && FreeSum(all', used') == FreeSum(h.all, h.used) - (size - 24) + (len - 24)
            && UsedSum(all'[1..], used') == UsedSum(h.all[1..], h.used) + (size - 24) - len
  {
    var i, x, used' := IndexOf(h.all, f), f + 24 + r, h.used + {f};
    TakeWholeSums(h, f);
    FreeChunk(h, f);
    SplitPlace(h, f, r);
    assert x !in used' && f in used';
    InsertSums(h.all, used', i, x);
    InsertSums(h.all[1..], used', i - 1, x);
    assert SplitAll(h, f, r)[1..] == Insert(h.all[1..], i - 1, x);
  }

  lemma TakeSplitExact(h: Heap, n: nat, r: nat)
    requires n < 32 && |h.bins| == 32 && h.bins[n] != [] && CanSplit(h, h.bins[n][0], r) && Exact(h)
    ensures Exact(TakeSplit(h, n, r))
  {
    var f := h.bins[n][0];
    var size, len := SizeOf(h.all, f), SizeOf(SplitAll(h, f, r), f + 24 + r);
    TakeSplitSums(h, f, r);
    SplitFits(h, f, r);
    WrapExact(h.memMeta + 24);
    WrapExact(h.memFree + (len - 24));
    WrapExact(h.memFree + (len - 24) - (size - 24));
    WrapExact(h.memUsed + size - len - 24);
  }

  /** None of the counters wraps in a split. */
  lemma SplitFits(h: Heap, f: nat, r: nat)
    requires CanSplit(h, f, r) && Exact(h)
    ensures var size, len := SizeOf(h.all, f), SizeOf(SplitAll(h, f, r), f + 24 + r);
            && 24 < len < size - 24 && size - 24 <= h.memFree < 0x1_0000_0000
            && size < 0x1_0000_0000 && h.memUsed < 0x1_0000_0000 && h.memMeta < 0x2_0000_0000
  {
    TakeWholeSums(h, f);
    SplitPlace(h, f, r);
    ExactConserves(h);
  }

  /** Exact counters admit no request that could wreck the heap. */
  lemma ExactSavesHeap(h: Heap, size: nat)
    requires HeapOk(h) && Exact(h)
    ensures !Wrecks(h, size)
  {
    ExactConserves(h);
  }

  /** Allocation keeps the counters exact, so over any number of allocations they add up to the arena. */
  lemma AllocExact(h: Heap, size: nat)
    requires HeapOk(h) && Exact(h)
    ensures Exact(Alloc(h, size))
  {
    ExactSavesHeap(h, size);
    if AllocBlock(h, size).Some? {
      var m := AllocCase(h, size);
      if Rounded(size) + 80 <= SizeOf(h.all, h.bins[m][0]) {
        TakeSplitExact(h, m, Rounded(size));
      } else {
        TakeWholeExact(h, m);
      }
    }
  }

  // ---------- freeing loses bytes ----------

  lemma NextFreeSum(h: Heap, i: nat)
    requires CanAbsorb(h, i)
    ensures FreeSum(AbsorbNext(h, i).all, h.used) == FreeSum(h.all, h.used) - (SizeOf(h.all, h.all[i + 1]) - 24)
    ensures SizeOf(AbsorbNext(h, i).all, h.all[i]) == SizeOf(h.all, h.all[i]) + SizeOf(h.all, h.all[i + 1])
  {
    var all' := Drop(h.all, i + 1);
    DropBetween(h.all, i);
    DropThenInsert(h.all, i);
    DropAt(h.all, i + 1, i);
    DropAt(h.all, i + 1, i + 1);
    InsertSums(all', h.used, i, h.all[i + 1]);
    ChunkSize(h, i);
    ChunkSize(h, i + 1);
    DropSizes(h.all, i, h.all[i]);
  }

  lemma PrevFreeSum(h: Heap, i: nat)
    requires CanMerge(h, i)
    ensures var h' := MergeIntoPrev(h, i + 1);
            FreeSum(h'.all, h'.used) == FreeSum(h.all, h.used) + SizeOf(h.all, h.all[i + 1])
  {
    var all', x := Drop(h.all, i + 1), h.all[i + 1];
    DropBetween(h.all, i);
    DropThenInsert(h.all, i);
    DropAt(h.all, i + 1, i);
    DropAt(h.all, i + 1, i + 1);
    InsertSums(all', h.used, i, x);
    ChunkSize(h, i + 1);
    DropMembers(h.all, i, x);
    SumsAgree(all', h.used, h.used - {x});
  }

  lemma ReleaseSum(h: Heap, i: nat)
    requires CanRelease(h, i)
    ensures FreeSum(h.all, Release(h, i).used) == FreeSum(h.all, h.used) + SizeOf(h.all, h.all[i]) - 24
  {
    var used' := h.used - {h.all[i]};
    MarkUsed(h.all, used', i);
    assert used' + {h.all[i]} == h.used;
    ChunkSize(h, i);
  }

  /** The chunk that a block's free absorbs behind it, and the one it is merged into, by size; 0 when there is none. */
  ghost function FreeNext(h: Heap, p: nat): nat
    requires LiveBlock(h, p)
  {
    var i := IndexOf(h.all, p - 24);
    if h.all[i + 1] !in h.used then SizeOf(h.all, h.all[i + 1]) else 0
  }

  ghost function FreePrev(h: Heap, p: nat): nat
    requires LiveBlock(h, p)
  {
    var i := IndexOf(h.all, p - 24);
    if h.all[i - 1] !in h.used then SizeOf(h.all, h.all[i - 1]) else 0
  }

  /** What the second half of kfree does to the free bytes. */
  lemma TailCounts(h: Heap, i: nat)
    requires HeapOk(h) && 0 < i && i + 1 < |h.all| && h.all[i] in h.used && h.all[i + 1] in h.used
    ensures var h', prev := FreeTail(h, i), h.all[i - 1];
            FreeSum(h'.all, h'.used) ==
              FreeSum(h.all, h.used) + SizeOf(h.all, h.all[i]) - (if prev in h.used then 24 else 0)
  {
    if h.all[i - 1] in h.used {
      ReleaseSum(h, i);
    } else {
      PrevFreeSum(h, i - 1);
    }
  }

  /** What it does to mem_free. */
  lemma TailCounter(h: Heap, i: nat)
    requires 0 < i < |h.all|
    ensures FreeTail(h, i).memFree ==
            if h.all[i - 1] in h.used then h.memFree else Wrap64(h.memFree - SizeOf(h.all, h.all[i - 1]))
  {
    if h.all[i - 1] !in h.used {
      WrapTwice(h.memFree - SizeOf(h.all, h.all[i - 1]) + 24, -24);
    }
  }

  /** What absorbing the next chunk does to them. */
  lemma AbsorbCounts(h: Heap, i: nat)
    requires CanAbsorb(h, i)
    ensures var h', len := AbsorbNext(h, i), SizeOf(h.all, h.all[i + 1]);
            && FreeSum(h'.all, h'.used) == FreeSum(h.all, h.used) - (len - 24)
            && SizeOf(h'.all, h.all[i]) == SizeOf(h.all, h.all[i]) + len
  {
    NextFreeSum(h, i);
  }

  lemma AbsorbCounter(h: Heap, i: nat)
    requires i + 1 < |h.all|
    ensures AbsorbNext(h, i).memFree == Wrap64(h.memFree - SizeOf(h.all, h.all[i + 1]) + 48)
  {
    WrapTwice(h.memFree - SizeOf(h.all, h.all[i + 1]) + 24, 24);
  }

  /** The bytes that a free makes available, and the bytes by which it lowers mem_free. */
  ghost function Gain(h: Heap, p: nat): int
    requires LiveBlock(h, p)
  {
    SizeOf(h.all, p - 24) - 24 + (if FreeNext(h, p) > 0 then 24 else 0) + (if FreePrev(h, p) > 0 then 24 else 0)
  }

  ghost function Loss(h: Heap, p: nat): int
    requires LiveBlock(h, p)
  {
    (if FreeNext(h, p) > 0 then FreeNext(h, p) - 48 else 0) + FreePrev(h, p)
  }

  /** kfree with a free chunk behind the block, as its two halves. */
  lemma FreeInHalves(h: Heap, p: nat)
    requires HeapOk(h) && LiveBlock(h, p)
    requires h.all[IndexOf(h.all, p - 24) + 1] !in h.used
    ensures var i := IndexOf(h.all, p - 24);
            && CanAbsorb(Uncount(h, p), i)
            && Free(h, p) == FreeTail(AbsorbNext(Uncount(h, p), i), i)
            && FreeNext(h, p) == SizeOf(h.all, h.all[i + 1]) >= 40
  {
    var i := IndexOf(h.all, p - 24);
    FreeChunk(h, h.all[i + 1]);
    IndexUnique(h.all, i + 1);
  }

  /** Both halves of kfree with a free chunk behind the block: the free bytes. */
  lemma AbsorbingSum(h: Heap, i: nat)
    requires CanAbsorb(h, i)
    ensures var h', prev := FreeTail(AbsorbNext(h, i), i), h.all[i - 1];
            FreeSum(h'.all, h'.used) ==
              FreeSum(h.all, h.used) + SizeOf(h.all, h.all[i]) + 24 - (if prev in h.used then 24 else 0)
  {
    AbsorbNextKeeps(h, i);
    AbsorbCounts(h, i);
    TailCounts(AbsorbNext(h, i), i);
  }

  /** Both halves of kfree with a free chunk behind the block: mem_free. */
  lemma AbsorbingCounter(h: Heap, i: nat)
    requires CanAbsorb(h, i)
    ensures var len, prev, h' := SizeOf(h.all, h.all[i + 1]), h.all[i - 1], FreeTail(AbsorbNext(h, i), i);
            h'.memFree == if prev in h.used then Wrap64(h.memFree - len + 48)
                          else Wrap64(Wrap64(h.memFree - len + 48) - SizeOf(h.all, prev))
  {
    AbsorbCounter(h, i);
    AbsorbedPlaces(h, i);
    SortedAt(h.all, i - 1, i + 1);
    SortedAt(h.all, i - 1, i);
    DropSizes(h.all, i, h.all[i - 1]);
    var h1 := AbsorbNext(h, i);
    assert h1.all[i - 1] == h.all[i - 1] && SizeOf(h1.all, h.all[i - 1]) == SizeOf(h.all, h.all[i - 1]);
    TailCounter(h1, i);
  }

  lemma AbsorbingGain(h: Heap, p: nat)
    requires HeapOk(h) && LiveBlock(h, p)
    requires h.all[IndexOf(h.all, p - 24) + 1] !in h.used
    ensures FreeSum(Free(h, p).all, Free(h, p).used) == FreeSum(h.all, h.used) + Gain(h, p)
  {
    var i := IndexOf(h.all, p - 24);
    FreeInHalves(h, p);
    AbsorbingSum(Uncount(h, p), i);
    ChunkSize(h, i - 1);
  }

  lemma AbsorbingLoss(h: Heap, p: nat)
    requires HeapOk(h) && LiveBlock(h, p)
    requires h.all[IndexOf(h.all, p - 24) + 1] !in h.used
    ensures Free(h, p).memFree == Wrap64(h.memFree - Loss(h, p))
  {
    var i := IndexOf(h.all, p - 24);
    FreeInHalves(h, p);
    AbsorbingCounter(Uncount(h, p), i);
    ChunkSize(h, i - 1);
    LossSteps(h.memFree, FreeNext(h, p), SizeOf(h.all, h.all[i - 1]), h.all[i - 1] in h.used, Free(h, p).memFree);
    assert Loss(h, p) == FreeNext(h, p) - 48 + (if h.all[i - 1] in h.used then 0 else SizeOf(h.all, h.all[i - 1]));
  }

  lemma LossSteps(free: int, next: int, prev: int, alone: bool, free': int)
    requires free' == if alone then Wrap64(free - next + 48) else Wrap64(Wrap64(free - next + 48) - prev)
    ensures free' == Wrap64(free - (next - 48 + (if alone then 0 else prev)))
  {
    var x := free - next + 48;
    WrapTwice(x, 0 - prev);
    assert free - (next - 48 + 0) == x && free - (next - 48 + prev) == x + (0 - prev);
  }

  /** How many bytes become free, and by how much the counter moves instead. */
  lemma FreeCounts(h: Heap, p: nat)
    requires HeapOk(h) && LiveBlock(h, p) && h.memFree < 0x1_0000_0000_0000_0000
    ensures FreeSum(Free(h, p).all, Free(h, p).used) == FreeSum(h.all, h.used) + Gain(h, p)
    ensures Free(h, p).memFree == Wrap64(h.memFree - Loss(h, p))
  {
    var i := IndexOf(h.all, p - 24);
    if h.all[i + 1] !in h.used {
      AbsorbingGain(h, p);
      AbsorbingLoss(h, p);
    } else {
      ChunkSize(h, i - 1);
      TailCounts(Uncount(h, p), i);
      TailCounter(Uncount(h, p), i);
      WrapExact(h.memFree);
    }
  }

  /**
   * The same in sizes: mem_free loses the whole of a free chunk before, and all but 48 bytes of one
   * behind, and never gains the payload; the bytes that become free are the payload and one header
   * for each chunk merged.
   */
  lemma FreeMoves(h: Heap, p: nat)
    requires HeapOk(h) && LiveBlock(h, p) && h.memFree < 0x1_0000_0000_0000_0000
    ensures p >= 24 && p - 24 in h.all
    ensures var i := IndexOf(h.all, p - 24);
            && 0 < i && i + 1 < |h.all|
            && var next, prev := h.all[i + 1], h.all[i - 1];
               && Free(h, p).memFree ==
                    Wrap64(h.memFree - (if next in h.used then 0 else SizeOf(h.all, next) - 48)
                                     - (if prev in h.used then 0 else SizeOf(h.all, prev)))
               && FreeSum(Free(h, p).all, Free(h, p).used) ==
                    FreeSum(h.all, h.used) + SizeOf(h.all, p - 24) - 24
                    + (if next in h.used then 0 else 24) + (if prev in h.used then 0 else 24)
  {
    var i := IndexOf(h.all, p - 24);
    FreeCounts(h, p);
    SizeBounds(h.all, i - 1);
    if h.all[i + 1] !in h.used {
      FreeInHalves(h, p);
    }
  }

  lemma NeverMeets(f: int, gain: int, loss: int)
    requires 0 <= f && 16 <= gain && f + gain < 0x1_0000_0000 && -8 <= loss < 0x2_0000_0000
    ensures Wrap64(f - loss) != f + gain
  {
    if f >= loss {
      WrapExact(f - loss);
    } else {
      WrapNegative(f - loss);
    }
  }

  lemma GainAndLoss(h: Heap, p: nat)
    requires HeapOk(h) && LiveBlock(h, p)
    ensures 16 <= Gain(h, p) && -8 <= Loss(h, p) < 0x2_0000_0000
  {
    var i := IndexOf(h.all, p - 24);
    ChunkSize(h, i);
    ChunkSize(h, i - 1);
    if h.all[i + 1] !in h.used {
      FreeChunk(h, h.all[i + 1]);
      IndexUnique(h.all, i + 1);
      ChunkSize(h, i + 1);
    }
  }

  lemma FreeSumsFit(h: Heap, p: nat)
    requires HeapOk(h) && LiveBlock(h, p)
    ensures 0 <= FreeSum(h.all, h.used) < 0x1_0000_0000
    ensures 0 <= FreeSum(Free(h, p).all, Free(h, p).used) < 0x1_0000_0000
  {
    SumsTile(h.all, h.used);
    FreeKeeps(h, p);
    SumsTile(Free(h, p).all, Free(h, p).used);
    FreeArena(h, p);
  }

  /** A free does not move the arena. */
  lemma FreeArena(h: Heap, p: nat)
    requires HeapOk(h) && LiveBlock(h, p)
    ensures Free(h, p).base == h.base && Free(h, p).limit == h.limit
  {
  }

  /** Starting from an exact count, no free at all keeps it exact: mem_free never learns of the freed bytes. */
  lemma FreeNeverExact(h: Heap, p: nat)
    requires HeapOk(h) && LiveBlock(h, p) && h.memFree == FreeSum(h.all, h.used)
    ensures Free(h, p).memFree != FreeSum(Free(h, p).all, Free(h, p).used)
  {
    FreeSumsFit(h, p);
    FreeCounts(h, p);
    GainAndLoss(h, p);
    NeverMeets(h.memFree, Gain(h, p), Loss(h, p));
  }

  // ---------- the other two counters ----------

  ghost predicate MetaExact(h: Heap) {
    h.memMeta == 24 * (|h.all| - 2) + 80
  }

  /** A sorted ring within 4 GiB is short enough for mem_meta not to wrap. */
  lemma {:induction false} RingIsShort(all: seq<nat>)
    requires Sorted(all) && all != []
    ensures all[0] + 40 * (|all| - 1) <= all[|all| - 1]
  {
    if |all| >= 2 {
      RingIsShort(all[1..]);
    }
  }

  lemma MetaFits(h: Heap)
    requires Tiled(h) && MetaExact(h)
    ensures 24 <= h.memMeta < 0x1_0000_0000
  {
    RingIsShort(h.all);
  }

  /** Allocations keep mem_meta exact, even those that wreck the heap. */
  lemma AllocMeta(h: Heap, size: nat)
    requires HeapOk(h) && MetaExact(h)
    ensures MetaExact(Alloc(h, size))
  {
    MetaFits(h);
    WrapExact(h.memMeta + 24);
    if ServingBin(h, size).Some? && ServingBin(h, size).value != -1 {
      var m := ServingBin(h, size).value;
      BinnedIsFree(h, m, h.bins[m][0]);
    }
  }

  lemma AbsorbMeta(h: Heap, i: nat)
    requires Tiled(h) && MetaExact(h) && i + 1 < |h.all|
    ensures MetaExact(AbsorbNext(h, i))
  {
    MetaFits(h);
    WrapExact(h.memMeta - 24);
  }

  lemma TailMeta(h: Heap, i: nat)
    requires Tiled(h) && MetaExact(h) && 0 < i < |h.all|
    ensures MetaExact(FreeTail(h, i))
  {
    MetaFits(h);
    WrapExact(h.memMeta - 24);
  }

  /** Frees keep mem_meta exact too. */
  lemma FreeMeta(h: Heap, p: nat)
    requires HeapOk(h) && LiveBlock(h, p) && MetaExact(h)
    ensures MetaExact(Free(h, p))
  {
    var i, h0 := IndexOf(h.all, p - 24), Uncount(h, p);
    if h.all[i + 1] !in h.used {
      FreeInHalves(h, p);
      AbsorbMeta(h0, i);
      AbsorbNextKeeps(h0, i);
      TailMeta(AbsorbNext(h0, i), i);
    } else {
      TailMeta(h0, i);
    }
  }

  /** How many chunks a free takes off the ring. */
  lemma FreeLength(h: Heap, p: nat)
    requires HeapOk(h) && LiveBlock(h, p)
    ensures |Free(h, p).all| ==
            |h.all| - (if FreeNext(h, p) > 0 then 1 else 0) - (if FreePrev(h, p) > 0 then 1 else 0)
  {
    var i := IndexOf(h.all, p - 24);
    ChunkSize(h, i - 1);
    if h.all[i + 1] !in h.used {
      FreeInHalves(h, p);
      AbsorbedPlaces(Uncount(h, p), i);
    }
  }

  /** The sums of a tiled heap, the first sentinel's 16 bytes aside. */
  lemma HeapSums(h: Heap)
    requires Tiled(h)
    ensures FreeSum(h.all, h.used) + UsedSum(h.all[1..], h.used) + 24 * (|h.all| - 1) == h.limit - h.base - 56
    ensures 0 <= UsedSum(h.all[1..], h.used) < 0x1_0000_0000
  {
    SumsTile(h.all, h.used);
    SumsTile(h.all[1..], h.used);
    assert UsedSum(h.all, h.used) == 16 + UsedSum(h.all[1..], h.used);
  }

  /** A free takes the block's payload off the used bytes. */
  lemma FreeUsedSum(h: Heap, p: nat)
    requires HeapOk(h) && LiveBlock(h, p) && h.memFree < 0x1_0000_0000_0000_0000
    ensures HeapOk(Free(h, p))
    ensures UsedSum(Free(h, p).all[1..], Free(h, p).used) == UsedSum(h.all[1..], h.used) - (SizeOf(h.all, p - 24) - 24)
  {
    FreeCounts(h, p);
    FreeLength(h, p);
    FreeKeeps(h, p);
    FreeArena(h, p);
    HeapSums(h);
    HeapSums(Free(h, p));
  }

  /** And the payload with its header off mem_used. */
  lemma FreeUsedCounter(h: Heap, p: nat)
    requires LiveBlock(h, p)
    ensures Free(h, p).memUsed == Wrap64(h.memUsed - SizeOf(h.all, p - 24))
  {
  }

  /** u has drifted from s by f; both move by d, and the drift by e. */
  lemma DriftStep(u: int, f: int, s: int, d: int, e: int)
    requires Wrap64(u + f) == s && 0 <= s + d + e < 0x1_0000_0000_0000_0000
    ensures Wrap64(Wrap64(u + d) + (f + e)) == s + d + e
  {
    WrapTwice(u + d, f + e);
    WrapTwice(u + f, d + e);
    WrapExact(s + d + e);
  }

  /** mem_meta is exact, and mem_used is short of the used bytes by one header for each free so far. */
  ghost predicate Drifted(h: Heap, frees: int) {
    && h.memFree < 0x1_0000_0000_0000_0000 && MetaExact(h) && h.all != []
    && Wrap64(h.memUsed + 24 * frees) == UsedSum(h.all[1..], h.used)
  }

  lemma WholeDrifts(h: Heap, n: nat, frees: int)
    requires HeapOk(h) && Drifted(h, frees) && n < 32 && h.bins[n] != []
    ensures Drifted(TakeWhole(h, n), frees)
  {
    var f := h.bins[n][0];
    BinnedIsFree(h, n, f);
    TakeWholeSums(h, f);
    HeapSums(h);
    ExactSumsFit(h);
    DriftStep(h.memUsed, 24 * frees, UsedSum(h.all[1..], h.used), SizeOf(h.all, f) - 24, 0);
  }

  lemma ExactSumsFit(h: Heap)
    requires Tiled(h)
    ensures 0 <= FreeSum(h.all, h.used) < 0x1_0000_0000
  {
    SumsTile(h.all, h.used);
  }

  lemma SplitDrifts(h: Heap, n: nat, r: nat, frees: int)
    requires n < 32 && |h.bins| == 32 && h.bins[n] != [] && CanSplit(h, h.bins[n][0], r) && Drifted(h, frees)
    ensures Drifted(TakeSplit(h, n, r), frees)
  {
    var f := h.bins[n][0];
    SplitUsed(h, f, r);
    MetaFits(h);
    WrapExact(h.memMeta + 24);
    DriftStep(h.memUsed, 24 * frees, UsedSum(h.all[1..], h.used), r, 0);
  }

  /** A split moves exactly the r bytes handed out. */
  lemma SplitUsed(h: Heap, f: nat, r: nat)
    requires CanSplit(h, f, r)
    ensures var size, len, all' := SizeOf(h.all, f), SizeOf(SplitAll(h, f, r), f + 24 + r), SplitAll(h, f, r);
            && size - len - 24 == r < 0x1_0000_0000
            && all' != [] && |all'| == |h.all| + 1
            && UsedSum(all'[1..], h.used + {f}) == UsedSum(h.all[1..], h.used) + r
            && 0 <= UsedSum(h.all[1..], h.used) < 0x1_0000_0000
  {
    TakeSplitSums(h, f, r);
    SplitPlace(h, f, r);
    HeapSums(h);
    ChunkSize(h, IndexOf(h.all, f));
  }

  lemma AllocDrifts(h: Heap, size: nat, frees: int)
    requires HeapOk(h) && Drifted(h, frees) && !Wrecks(h, size)
    ensures Drifted(Alloc(h, size), frees)
  {
    if AllocBlock(h, size).Some? {
      var m := AllocCase(h, size);
      if Rounded(size) + 80 <= SizeOf(h.all, h.bins[m][0]) {
        SplitDrifts(h, m, Rounded(size), frees);
      } else {
        WholeDrifts(h, m, frees);
      }
    }
  }

  lemma FreeFits(h: Heap, p: nat)
    requires HeapOk(h) && LiveBlock(h, p) && h.memFree < 0x1_0000_0000_0000_0000
    ensures Free(h, p).all != [] && Free(h, p).memFree < 0x1_0000_0000_0000_0000
    ensures UsedSum(Free(h, p).all[1..], Free(h, p).used) == UsedSum(h.all[1..], h.used) - (SizeOf(h.all, p - 24) - 24)
    ensures 0 <= UsedSum(Free(h, p).all[1..], Free(h, p).used) < 0x1_0000_0000_0000_0000
  {
    FreeUsedSum(h, p);
    FreeCounts(h, p);
    HeapSums(Free(h, p));
  }

  lemma DriftFreed(u: int, u': int, frees: int, s: int, d: int)
    requires Wrap64(u + 24 * frees) == s && u' == Wrap64(u - d) && 0 <= s - (d - 24) < 0x1_0000_0000_0000_0000
    ensures Wrap64(u' + 24 * (frees + 1)) == s - (d - 24)
  {
    DriftStep(u, 24 * frees, s, 0 - d, 24);
    assert u + (0 - d) == u - d && 24 * (frees + 1) == 24 * frees + 24;
  }

  lemma FreeDrifts(h: Heap, p: nat, frees: int)
    requires HeapOk(h) && LiveBlock(h, p) && Drifted(h, frees)
    ensures Drifted(Free(h, p), frees + 1)
  {
    FreeMeta(h, p);
    FreeFits(h, p);
    FreeUsedCounter(h, p);
    DriftFreed(h.memUsed, Free(h, p).memUsed, frees, UsedSum(h.all[1..], h.used), SizeOf(h.all, p - 24));
  }
}
