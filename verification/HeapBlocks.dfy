/** What one call of the heap means for its clients: how big a block is, and what a free undoes. */
module HeapBlocks {
  import opened Options
  import opened HeapLayout
  import opened HeapSpec
  import opened HeapInvariant
  import opened HeapAccounting
  import opened Words

  // ---------- one allocation ----------

  /** The payload bytes behind a block. */
  ghost function PayloadOf(h: Heap, block: nat): int
    requires block >= 24
  {
    SizeOf(h.all, block - 24) - 24
  }

  /** Rounding covers the request except for the three sizes at which the addition wraps. */
  lemma RoundedCovers(size: nat)
    requires size < 0x1_0000_0000_0000_0000
    ensures Rounded(size) >= size <==> size <= 0xFFFF_FFFF_FFFF_FFFC
  {
    if size + 3 >= 0x1_0000_0000_0000_0000 {
      assert Wrap64(size + 3) == size + 3 - 0x1_0000_0000_0000_0000;
    } else {
      WrapExact(size + 3);
    }
  }

  /** What an allocation of r rounded bytes does to the ring and the flags: h' follows h, b is the block. */
  ghost predicate Allocated(h: Heap, h': Heap, b: nat, r: nat) {
    && HeapOk(h) && b >= 24 && b - 24 in h.all && b - 24 !in h.used
    && r % 4 == 0 && 16 <= r
    && h'.base == h.base && h'.limit == h.limit
    && h'.used == h.used + {b - 24}
    && h'.all == if r + 80 <= SizeOf(h.all, b - 24) then SplitAll(h, b - 24, r) else h.all
  }

  lemma SplitShape(h: Heap, n: nat, r: nat)
    requires n < 32 && |h.bins| == 32 && h.bins[n] != [] && CanSplit(h, h.bins[n][0], r)
    ensures Allocated(h, TakeSplit(h, n, r), h.bins[n][0] + 24, r)
  {
  }

  lemma WholeShape(h: Heap, n: nat, r: nat)
    requires HeapOk(h) && n < 32 && h.bins[n] != [] && h.bins[n][0] in h.all && h.bins[n][0] !in h.used
    requires r % 4 == 0 && 16 <= r && r + 80 > SizeOf(h.all, h.bins[n][0])
    ensures Allocated(h, TakeWhole(h, n), h.bins[n][0] + 24, r)
  {
  }

  lemma AllocShape(h: Heap, size: nat)
    requires HeapOk(h) && AllocBlock(h, size).Some? && !Wrecks(h, size)
    ensures Allocated(h, Alloc(h, size), AllocBlock(h, size).value, Rounded(size))
  {
    var m := AllocCase(h, size);
    if Rounded(size) + 80 <= SizeOf(h.all, h.bins[m][0]) {
      SplitShape(h, m, Rounded(size));
    } else {
      WholeShape(h, m, Rounded(size));
    }
  }

  /** A block is split off exactly where that is possible. */
  lemma AllocatedPayload(h: Heap, h': Heap, b: nat, r: nat)
    requires Allocated(h, h', b, r)
    ensures PayloadOf(h', b) == if r + 80 <= SizeOf(h.all, b - 24) then r else PayloadOf(h, b)
  {
    if r + 80 <= SizeOf(h.all, b - 24) {
      SplitPayload(h, b - 24, r);
    }
  }

  lemma SplitPayload(h: Heap, f: nat, r: nat)
    requires CanSplit(h, f, r)
    ensures SizeOf(SplitAll(h, f, r), f) == r + 24
  {
    SplitPlace(h, f, r);
    InsertedSizes(h.all, IndexOf(h.all, f), f + 24 + r);
  }

  /**
   * The request does not wrap with its header and is served from a bin above its own, or from its own
   * bin by a chunk that happens to be big enough.
   */
  ghost predicate Fits(h: Heap, size: nat)
    requires |h.bins| == 32
  {
    var m, need := ServingBin(h, size), Rounded(size) + 24;
    && need < 0x1_0000_0000_0000_0000
    && m.Some? && 0 <= m.value < 32 && h.bins[m.value] != []
    && (m.value > Slot(need) || SizeOf(h.all, h.bins[m.value][0]) >= need)
  }

  lemma PayloadFitsIff(h: Heap, size: nat)
    requires HeapOk(h) && AllocBlock(h, size).Some? && !Wrecks(h, size)
    ensures AllocBlock(h, size).value >= 24
    ensures PayloadOf(Alloc(h, size), AllocBlock(h, size).value) >= Rounded(size) <==> Fits(h, size)
  {
    var m := AllocCase(h, size);
    var f, need := h.bins[m][0], Rounded(size) + 24;
    AllocShape(h, size);
    AllocatedPayload(h, Alloc(h, size), f + 24, Rounded(size));
    ChunkSize(h, IndexOf(h.all, f));
    if need < 0x1_0000_0000_0000_0000 && m > Slot(need) {
      BinnedIsFree(h, m, f);
      HigherBinIsLarger(need, SizeOf(h.all, f));
    }
  }

  lemma {:induction false} SizeBefore(all: seq<nat>, i: nat, x: nat)
    requires Sorted(all) && i < |all| && all[i] <= x
    ensures SizeOf(Insert(all, i, x), all[i]) == x - all[i]
  {
    if i > 0 {
      SortedAt(all, 0, i);
      SizeBefore(all[1..], i - 1, x);
      assert Insert(all, i, x)[1..] == Insert(all[1..], i - 1, x);
    }
  }

  lemma {:induction false} LastInsert(all: seq<nat>, x: nat)
    requires all != []
    ensures Insert(all, |all| - 1, x) == all + [x]
  {
    if |all| > 1 {
      LastInsert(all[1..], x);
      assert all == [all[0]] + all[1..];
    }
  }

  lemma SentinelPayload(h: Heap)
    requires HeapOk(h)
    ensures SizeOf(TakeSentinel(h).all, h.all[|h.all| - 1]) == 0
  {
    var n := |h.all| - 1;
    SizeBefore(h.all, n, h.all[n]);
    LastInsert(h.all, h.all[n]);
  }

  lemma InsidePayload(h: Heap, m: nat, d: nat)
    requires HeapOk(h) && m < 32 && h.bins[m] != [] && h.bins[m][0] in h.all && d <= 20
    ensures SizeOf(TakeSplit(h, m, d - 24).all, h.bins[m][0]) == d
  {
    SizeBefore(h.all, IndexOf(h.all, h.bins[m][0]), h.bins[m][0] + d);
  }

  /** The block of a request that wrecks the heap has no payload to speak of. */
  lemma WreckPayload(h: Heap, size: nat)
    requires HeapOk(h) && Wrecks(h, size)
    ensures AllocBlock(h, size).Some? && AllocBlock(h, size).value >= 24
    ensures PayloadOf(Alloc(h, size), AllocBlock(h, size).value) < 0
  {
    ServedWrapped(h, size);
    var m := ServingBin(h, size).value;
    if m == -1 {
      SentinelPayload(h);
    } else {
      BinnedIsFree(h, m, h.bins[m][0]);
      InsidePayload(h, m, Wrap64(Rounded(size) + 24));
    }
  }

  /**
   * When a block is big enough for the request: always when it comes from a bin above that of the
   * request, from that bin itself exactly when the chunk at its head happens to be big enough, and
   * never when the request wraps with its header.
   */
  lemma BlockFitsIff(h: Heap, size: nat)
    requires HeapOk(h) && AllocBlock(h, size).Some?
    ensures AllocBlock(h, size).value >= 24
    ensures PayloadOf(Alloc(h, size), AllocBlock(h, size).value) >= Rounded(size) <==> Fits(h, size)
  {
    if Wrecks(h, size) {
      WreckPayload(h, size);
      RoundedOk(size);
    } else {
      PayloadFitsIff(h, size);
    }
  }

  // ---------- clearing a new block ----------

  /** memset(p, 0, size) stays in the arena and off every chunk's header and free links but its own block's. */
  ghost predicate ClearsInside(h: Heap, b: nat, size: nat)
    requires b >= 24
  {
    && b + size <= h.limit
    && forall c :: c in h.all && c != b - 24 ==> c + 40 <= b - 24 || b + size <= c
  }

  /** Clearing a live block harms nothing exactly when its payload is at least what is cleared. */
  lemma ClearsWithinPayload(h: Heap, b: nat, size: nat)
    requires HeapOk(h) && LiveBlock(h, b)
    ensures ClearsInside(h, b, size) <==> size <= PayloadOf(h, b)
  {
    var i := IndexOf(h.all, b - 24);
    ChunkSize(h, i);
    SortedAt(h.all, i, i + 1);
    BlockInArena(h, b);
    assert h.all[i + 1] in h.all;
    if size <= PayloadOf(h, b) {
      forall c | c in h.all && c != b - 24
        ensures c + 40 <= b - 24 || b + size <= c
      {
        OtherChunk(h.all, i, c);
      }
    }
  }

  /** Another chunk has its header before this one, or begins after it. */
  lemma OtherChunk(all: seq<nat>, i: nat, c: nat)
    requires Sorted(all) && i + 1 < |all| && c in all && c != all[i]
    ensures c + 40 <= all[i] || all[i + 1] <= c
  {
    var j := IndexOf(all, c);
    if j < i {
      SortedAt(all, j, i);
    } else if i + 1 < j {
      SortedAt(all, i + 1, j);
    }
  }

  /** Payloads come in units of 4 and in at least 16 bytes, as rounded requests do. */
  lemma PayloadCoversIff(size: nat, payload: int)
    requires size < 0x1_0000_0000_0000_0000 && 16 <= payload < 0x1_0000_0000 && payload % 4 == 0
    ensures size <= payload <==> size <= 0xFFFF_FFFF_FFFF_FFFC && payload >= Rounded(size)
  {
    RoundedCovers(size);
    if size <= 0xFFFF_FFFF_FFFF_FFFC {
      WrapExact(size + 3);
    }
  }

  lemma AllocatedClearsIff(h: Heap, h': Heap, b: nat, size: nat)
    requires Allocated(h, h', b, Rounded(size)) && HeapOk(h') && size < 0x1_0000_0000_0000_0000
    ensures ClearsInside(h', b, size) <==> size <= 0xFFFF_FFFF_FFFF_FFFC && PayloadOf(h', b) >= Rounded(size)
  {
    AllocatedAt(h, h', b, Rounded(size));
    ClearsWithinPayload(h', b, size);
    LivePayload(h', b);
    PayloadCoversIff(size, PayloadOf(h', b));
  }

  lemma LivePayload(h: Heap, b: nat)
    requires HeapOk(h) && LiveBlock(h, b)
    ensures 16 <= PayloadOf(h, b) < 0x1_0000_0000 && PayloadOf(h, b) % 4 == 0
  {
    ChunkSize(h, IndexOf(h.all, b - 24));
  }

  /**
   * When kmalloc's clearing of the requested size is safe: exactly when rounding covers the request
   * and the block fits it.
   */
  lemma ClearsInsideIff(h: Heap, size: nat)
    requires HeapOk(h) && AllocBlock(h, size).Some? && size < 0x1_0000_0000_0000_0000
    ensures AllocBlock(h, size).value >= 24
    ensures ClearsInside(Alloc(h, size), AllocBlock(h, size).value, size) <==>
            size <= 0xFFFF_FFFF_FFFF_FFFC && Fits(h, size)
  {
    if Wrecks(h, size) {
      WreckPayload(h, size);
      WreckIsHuge(h, size);
    } else {
      AllocKeeps(h, size);
      AllocShape(h, size);
      AllocatedClearsIff(h, Alloc(h, size), AllocBlock(h, size).value, size);
      PayloadFitsIff(h, size);
    }
  }

  /** A request that wrecks the heap is for far more than the arena holds. */
  lemma WreckIsHuge(h: Heap, size: nat)
    requires HeapOk(h) && Wrecks(h, size) && size < 0x1_0000_0000_0000_0000
    ensures AllocBlock(h, size).Some? && AllocBlock(h, size).value + size > Alloc(h, size).limit
  {
    ServedWrapped(h, size);
    var m := ServingBin(h, size).value;
    assert Wrap64(size + 3) <= size + 3;
    if m != -1 {
      BinnedIsFree(h, m, h.bins[m][0]);
      var i := IndexOf(h.all, h.bins[m][0]);
      if i > 0 {
        SortedAt(h.all, 0, i);
      }
    } else {
      SortedAt(h.all, 0, |h.all| - 1);
    }
  }

  // ---------- freeing undoes allocating ----------

  /** The chunk of a new block keeps its place on the ring, between used chunks, save for the remainder behind it. */
  lemma AllocatedAt(h: Heap, h': Heap, b: nat, r: nat)
    requires Allocated(h, h', b, r)
    ensures LiveBlock(h', b)
    ensures var i := IndexOf(h'.all, b - 24);
            && 0 < i && i + 1 < |h'.all| && h'.all[i - 1] in h'.used
            && if r + 80 > SizeOf(h.all, b - 24) then h'.all == h.all && h'.all[i + 1] in h'.used
               else i + 2 < |h'.all| && h'.all[i + 1] !in h'.used && Drop(h'.all, i + 1) == h.all
  {
    FreeChunk(h, b - 24);
    if r + 80 <= SizeOf(h.all, b - 24) {
      SplitAt(h, b - 24, r);
    }
  }

  lemma SplitAt(h: Heap, f: nat, r: nat)
    requires CanSplit(h, f, r)
    ensures var all', i := SplitAll(h, f, r), IndexOf(h.all, f);
            && 0 < i && i + 2 < |all'|
            && all'[i - 1] in h.used && all'[i] == f && all'[i + 1] !in h.used + {f}
            && IndexOf(all', f) == i && Drop(all', i + 1) == h.all
  {
    var i, x := IndexOf(h.all, f), f + 24 + r;
    FreeChunk(h, f);
    SplitPlace(h, f, r);
    InsertSorted(h.all, i, x);
    InsertAt(h.all, i, x, i - 1);
    InsertAt(h.all, i, x, i);
    InsertAt(h.all, i, x, i + 1);
    IndexUnique(SplitAll(h, f, r), i);
    InsertThenDrop(h.all, i, x);
  }

  /** What kfree does to the ring and the flags when the chunk before the block is used. */
  lemma FreeRing(h: Heap, p: nat)
    requires LiveBlock(h, p) && h.all[IndexOf(h.all, p - 24) - 1] in h.used
    requires h.all[IndexOf(h.all, p - 24) + 1] in h.used || IndexOf(h.all, p - 24) + 2 < |h.all|
    ensures var i, h' := IndexOf(h.all, p - 24), Free(h, p);
            && h'.all == (if h.all[i + 1] in h.used then h.all else Drop(h.all, i + 1))
            && h'.used == h.used - {p - 24}
  {
    var i := IndexOf(h.all, p - 24);
    if h.all[i + 1] !in h.used {
      DropAt(h.all, i + 1, i - 1);
      DropAt(h.all, i + 1, i);
    }
  }

  lemma UndoRing(h: Heap, h': Heap, b: nat, r: nat)
    requires Allocated(h, h', b, r)
    ensures LiveBlock(h', b) && Free(h', b).all == h.all && Free(h', b).used == h.used
  {
    AllocatedAt(h, h', b, r);
    FreeRing(h', b);
  }

  /** The contents of a bin depend only on the chunks and their flags. */
  lemma BinsDetermined(h: Heap, h': Heap, n: nat, c: nat)
    requires HeapOk(h) && HeapOk(h') && h'.all == h.all && h'.used == h.used && n < 32
    ensures c in h'.bins[n] <==> c in h.bins[n]
  {
    assert c in h.bins[n] <==> BelongsIn(h.all, h.used, c, n);
    assert c in h'.bins[n] <==> BelongsIn(h.all, h.used, c, n);
  }

  /** Freeing block b of h' gives h back: its chunks, their flags and the contents of every bin. */
  ghost predicate FreeRestores(h: Heap, h': Heap, b: nat) {
    && LiveBlock(h', b)
    && Free(h', b).all == h.all && Free(h', b).used == h.used
    && |Free(h', b).bins| == |h.bins| == 32
    && forall n, c :: 0 <= n < 32 ==> (c in Free(h', b).bins[n] <==> c in h.bins[n])
  }

  lemma UndoAll(h: Heap, h': Heap, b: nat, r: nat)
    requires Allocated(h, h', b, r) && HeapOk(h')
    ensures FreeRestores(h, h', b)
  {
    UndoRing(h, h', b, r);
    FreeKeeps(h', b);
    forall n, c | 0 <= n < 32
      ensures c in Free(h', b).bins[n] <==> c in h.bins[n]
    {
      BinsDetermined(h, Free(h', b), n, c);
    }
  }

  /** Freeing a block just allocated restores the heap, unless the request wrecked it. */
  lemma FreeUndoesAlloc(h: Heap, size: nat)
    requires HeapOk(h) && AllocBlock(h, size).Some? && !Wrecks(h, size)
    ensures FreeRestores(h, Alloc(h, size), AllocBlock(h, size).value)
  {
    AllocKeeps(h, size);
    AllocShape(h, size);
    UndoAll(h, Alloc(h, size), AllocBlock(h, size).value, Rounded(size));
  }

  // ---------- live blocks ----------

  /** Blocks that can be freed are the used chunks between the sentinels. */
  lemma LiveIff(h: Heap, p: nat)
    requires Tiled(h)
    ensures LiveBlock(h, p) <==> p >= 24 && p - 24 in h.used && p - 24 != h.base && p - 24 != h.limit - 40
  {
    if p >= 24 && p - 24 in h.used {
      var i := IndexOf(h.all, p - 24);
      if 0 < i {
        SortedAt(h.all, 0, i);
      }
      if i < |h.all| - 1 {
        SortedAt(h.all, i, |h.all| - 1);
      }
    }
  }

  lemma AllocatedLive(h: Heap, h': Heap, b: nat, r: nat, p: nat)
    requires Allocated(h, h', b, r) && Tiled(h')
    ensures LiveBlock(h', p) <==> LiveBlock(h, p) || p == b
    ensures !LiveBlock(h, b)
  {
    LiveIff(h, p);
    LiveIff(h', p);
    assert !(h.base < b - 24 < h.limit - 40 && b - 24 in h.used);
  }

  /** An allocation makes exactly its own block live, and that block was not live before. */
  lemma AllocLive(h: Heap, size: nat, p: nat)
    requires HeapOk(h) && !Wrecks(h, size)
    ensures LiveBlock(Alloc(h, size), p) <==> LiveBlock(h, p) || AllocBlock(h, size) == Some(p)
    ensures AllocBlock(h, size) == Some(p) ==> !LiveBlock(h, p)
  {
    if AllocBlock(h, size).Some? {
      AllocKeeps(h, size);
      AllocShape(h, size);
      AllocatedLive(h, Alloc(h, size), AllocBlock(h, size).value, Rounded(size), p);
    }
  }

  lemma FreeUsed(h: Heap, p: nat)
    requires HeapOk(h) && LiveBlock(h, p)
    ensures Free(h, p).used == h.used - {p - 24}
  {
    var i := IndexOf(h.all, p - 24);
    if h.all[i + 1] !in h.used {
      AbsorbNextKeeps(Uncount(h, p), i);
    }
  }

  /** A free ends exactly its own block. */
  lemma FreeLive(h: Heap, p: nat, q: nat)
    requires HeapOk(h) && LiveBlock(h, p)
    ensures LiveBlock(Free(h, p), q) <==> LiveBlock(h, q) && q != p
  {
    FreeKeeps(h, p);
    FreeArena(h, p);
    FreeUsed(h, p);
    LiveIff(h, q);
    LiveIff(Free(h, p), q);
  }

  /** A live block lies between the sentinels, its header after the first of them. */
  lemma BlockInArena(h: Heap, p: nat)
    requires HeapOk(h) && LiveBlock(h, p)
    ensures h.base + 64 <= p && 16 <= PayloadOf(h, p) && p + PayloadOf(h, p) <= h.limit - 40
  {
    var i := IndexOf(h.all, p - 24);
    SortedAt(h.all, 0, i);
    SizeAt(h.all, i);
    if i + 1 < |h.all| - 1 {
      SortedAt(h.all, i + 1, |h.all| - 1);
    }
  }

  /** The payload of a live block ends before the header of the next. */
  lemma BlocksApart(h: Heap, p: nat, q: nat)
    requires HeapOk(h) && LiveBlock(h, p) && LiveBlock(h, q) && p < q
    ensures p + PayloadOf(h, p) <= q - 24
  {
    var i, j := IndexOf(h.all, p - 24), IndexOf(h.all, q - 24);
    if j < i {
      SortedAt(h.all, j, i);
    }
    if i + 1 < j {
      SortedAt(h.all, i + 1, j);
    }
    SizeAt(h.all, i);
  }

  /** The release scan finds the pages empty exactly when no block is live, and then one chunk is left between the sentinels. */
  lemma ReleaseExact(h: Heap)
    requires HeapOk(h)
    ensures Vacant(h) <==> forall p: nat :: !LiveBlock(h, p)
    ensures Vacant(h) ==> |h.all| == 3
  {
    if Vacant(h) {
      forall p: nat
        ensures !LiveBlock(h, p)
      {
        if p >= 24 && p - 24 in h.all && 0 < IndexOf(h.all, p - 24) < |h.all| - 1 {
          assert h.all[IndexOf(h.all, p - 24)] !in h.used;
        }
      }
      if |h.all| > 3 {
        NeighbourAt(h.all, h.used, 1);
      }
    } else {
      var i :| 0 < i < |h.all| - 1 && h.all[i] in h.used;
      IndexUnique(h.all, i);
      assert LiveBlock(h, h.all[i] + 24);
    }
  }

  // ---------- a block keeps its bytes until it is freed ----------

  lemma AllocKeepsBlock(h: Heap, h': Heap, b: nat, r: nat, q: nat)
    requires Allocated(h, h', b, r) && LiveBlock(h, q)
    ensures PayloadOf(h', q) == PayloadOf(h, q)
  {
    if r + 80 <= SizeOf(h.all, b - 24) {
      SplitKeepsSize(h, b - 24, r, q - 24);
    }
  }

  lemma SplitKeepsSize(h: Heap, f: nat, r: nat, c: nat)
    requires CanSplit(h, f, r) && c in h.used
    ensures SizeOf(SplitAll(h, f, r), c) == SizeOf(h.all, c)
  {
    SplitPlace(h, f, r);
    OtherSizes(h.all, IndexOf(h.all, f), f + 24 + r, c);
  }

  lemma TailKeepsBlock(h: Heap, i: nat, c: nat)
    requires HeapOk(h) && 0 < i && i + 1 < |h.all| && h.all[i] in h.used && h.all[i + 1] in h.used
    requires c in h.used && c != h.all[i]
    ensures SizeOf(FreeTail(h, i).all, c) == SizeOf(h.all, c)
  {
    if h.all[i - 1] !in h.used {
      DropSizes(h.all, i - 1, c);
    }
  }

  lemma AbsorbKeepsBlock(h: Heap, i: nat, c: nat)
    requires CanAbsorb(h, i) && c in h.used && c != h.all[i]
    ensures SizeOf(FreeTail(AbsorbNext(h, i), i).all, c) == SizeOf(h.all, c)
  {
    AbsorbNextKeeps(h, i);
    DropSizes(h.all, i, c);
    TailKeepsBlock(AbsorbNext(h, i), i, c);
  }

  lemma FreeKeepsSize(h: Heap, p: nat, c: nat)
    requires HeapOk(h) && LiveBlock(h, p) && c in h.used && c != p - 24
    ensures SizeOf(Free(h, p).all, c) == SizeOf(h.all, c)
  {
    var i := IndexOf(h.all, p - 24);
    if h.all[i + 1] !in h.used {
      FreeInHalves(h, p);
      AbsorbKeepsBlock(Uncount(h, p), i, c);
    } else {
      TailKeepsBlock(Uncount(h, p), i, c);
    }
  }

  lemma FreeKeepsBlock(h: Heap, p: nat, q: nat)
    requires HeapOk(h) && LiveBlock(h, p) && LiveBlock(h, q) && p != q
    ensures PayloadOf(Free(h, p), q) == PayloadOf(h, q)
  {
    FreeKeepsSize(h, p, q - 24);
  }
}
