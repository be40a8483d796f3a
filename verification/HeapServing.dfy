/** Which requests the heap serves, from which chunk, and in what order equal chunks are handed out. */
module HeapServing {
  import opened Options
  import opened HeapLayout
  import opened HeapSpec
  import opened HeapInvariant
  import opened HeapBlocks
  import opened HeapRuns
  import opened Ring
  import opened Words

  // ---------- which requests are served ----------

  /** A request is rounded up to the next multiple of 4, and to 16 at least. */
  lemma RoundedLeast(size: nat)
    requires size <= 0xFFFF_FFFF_FFFF_FFFC
    ensures size <= Rounded(size) && 16 <= Rounded(size) && Rounded(size) % 4 == 0
    ensures Rounded(size) < size + 4 || Rounded(size) == 16
  {
    WrapExact(size + 3);
  }

  /** A free chunk of the size class that a request needs, or of a higher one. */
  ghost predicate CanServe(h: Heap, c: nat, size: nat) {
    c in h.all && c !in h.used && Slot(SizeOf(h.all, c)) >= Slot(Rounded(size) + 24)
  }

  lemma ServerIsBinned(h: Heap, c: nat, size: nat)
    requires HeapOk(h) && CanServe(h, c, size)
    ensures 0 <= Slot(SizeOf(h.all, c)) < 32 && c in h.bins[Slot(SizeOf(h.all, c))]
  {
    FreeChunk(h, c);
    var n := Slot(SizeOf(h.all, c));
    assert BelongsIn(h.all, h.used, c, n);
  }

  lemma BinnedCanServe(h: Heap, n: nat, c: nat, size: nat)
    requires HeapOk(h) && n < 32 && c in h.bins[n] && Slot(Rounded(size) + 24) <= n
    ensures CanServe(h, c, size) && Slot(SizeOf(h.all, c)) == n
  {
    BinnedIsFree(h, n, c);
  }

  /** The search over the bins, for a request that does not wrap with its header. */
  lemma SearchFinds(h: Heap, size: nat)
    requires HeapOk(h) && Rounded(size) < 0xFFFF_FFFF_FFFF_FFE8 && Rounded(size) <= h.memFree
    ensures AllocBlock(h, size).None? ==> forall c :: !CanServe(h, c, size)
    ensures AllocBlock(h, size).Some? ==> forall c :: CanServe(h, c, size) ==>
              AllocBlock(h, size).value >= 24
              && Slot(SizeOf(h.all, AllocBlock(h, size).value - 24)) <= Slot(SizeOf(h.all, c))
    ensures AllocBlock(h, size).Some? ==>
              AllocBlock(h, size).value >= 24 && CanServe(h, AllocBlock(h, size).value - 24, size)
  {
    var m := FirstBin(h.bins, Slot(Rounded(size) + 24));
    WrapExact(Rounded(size) + 24);
    if m < 32 {
      BinnedCanServe(h, m, h.bins[m][0], size);
    }
    forall c | CanServe(h, c, size)
      ensures m <= Slot(SizeOf(h.all, c)) && m < 32
    {
      SearchStops(h, c, size);
    }
  }

  lemma SearchStops(h: Heap, c: nat, size: nat)
    requires HeapOk(h) && CanServe(h, c, size)
    ensures FirstBin(h.bins, Slot(Rounded(size) + 24)) <= Slot(SizeOf(h.all, c)) < 32
  {
    ServerIsBinned(h, c, size);
  }

  /**
   * A request is served exactly when the free count admits it and some free chunk is of its size
   * class or a higher one; and it is served by a chunk of the lowest such class.
   */
  lemma ServedIff(h: Heap, size: nat)
    requires HeapOk(h) && Rounded(size) < 0xFFFF_FFFF_FFFF_FFE8
    ensures AllocBlock(h, size).Some? <==> Rounded(size) <= h.memFree && exists c :: CanServe(h, c, size)
    ensures AllocBlock(h, size).Some? ==>
              && AllocBlock(h, size).value >= 24
              && var f := AllocBlock(h, size).value - 24;
                 && CanServe(h, f, size)
                 && forall c :: CanServe(h, c, size) ==> Slot(SizeOf(h.all, f)) <= Slot(SizeOf(h.all, c))
  {
    if Rounded(size) <= h.memFree {
      SearchFinds(h, size);
    }
  }

  /** In bytes: a free chunk that holds the rounded request with its header is enough. */
  lemma LargeChunkServes(h: Heap, c: nat, size: nat)
    requires HeapOk(h) && Rounded(size) <= h.memFree && c in h.all && c !in h.used
    requires Rounded(size) + 24 <= SizeOf(h.all, c)
    ensures AllocBlock(h, size).Some?
  {
    FreeChunk(h, c);
    ChunkSize(h, IndexOf(h.all, c));
    SlotMonotone(Rounded(size) + 24, SizeOf(h.all, c));
    assert CanServe(h, c, size);
    ServedIff(h, size);
  }

  /** The first request of a heap is served from pages allocated for it, with room to clear it. */
  lemma FirstRequestServed(base: nat, size: nat)
    requires base % 4 == 0 && 0 < size && (120 + size + 4095) / 4096 < 0x10_0000
    ensures var h := InitHeap(base, (120 + size + 4095) / 4096);
            && AllocBlock(h, size) == Some(base + 64)
            && PayloadOf(Alloc(h, size), base + 64) >= size
            && ClearsInside(Alloc(h, size), base + 64, size)
  {
    var npages := (120 + size + 4095) / 4096;
    var h, c := InitHeap(base, npages), base + 40;
    assert 120 + size <= 4096 * npages;
    InitOk(base, npages);
    RoundedLeast(size);
    FirstChunkSize(base, npages);
    LargeChunkServes(h, c, size);
    ServedIff(h, size);
    assert AllocBlock(h, size).value - 24 == c;
    FirstBlockFits(h, size, c);
  }

  lemma FirstChunkSize(base: nat, npages: nat)
    requires 0 < npages
    ensures var h := InitHeap(base, npages);
            && base + 40 in h.all && base + 40 !in h.used && SizeOf(h.all, base + 40) == 4096 * npages - 80
            && forall c :: c in h.all && c !in h.used ==> c == base + 40
  {
    var all := InitHeap(base, npages).all;
    assert all[1] == base + 40 && all[1..] == [base + 40, base + 4096 * npages - 40];
  }

  lemma FirstBlockFits(h: Heap, size: nat, c: nat)
    requires HeapOk(h) && AllocBlock(h, size) == Some(c + 24) && size <= 0xFFFF_FFFF_FFFF_FF00
    requires c in h.all && c !in h.used && Rounded(size) + 24 <= SizeOf(h.all, c)
    ensures PayloadOf(Alloc(h, size), c + 24) >= size && ClearsInside(Alloc(h, size), c + 24, size)
  {
    RoundedLeast(size);
    var m := ServingBin(h, size).value;
    WrapExact(Rounded(size) + 24);
    assert Fits(h, size);
    BlockFitsIff(h, size);
    ClearsInsideIff(h, size);
  }

  // ---------- in what order ----------

  /** a stands before b. */
  ghost predicate Before(ring: seq<nat>, a: nat, b: nat) {
    exists i, j :: 0 <= i < j < |ring| && ring[i] == a && ring[j] == b
  }

  /** A chunk put in a bin stands behind all that are there. */
  lemma PushedLast(bins: seq<seq<nat>>, n: nat, c: nat, a: nat)
    requires n < |bins| && a in bins[n]
    ensures Before(Push(bins, n, c)[n], a, c)
  {
    var i :| 0 <= i < |bins[n]| && bins[n][i] == a;
    var ring := Push(bins, n, c)[n];
    assert ring[i] == a && ring[|bins[n]|] == c;
  }

  /** The chunk handed out stands before all others of its bin. */
  lemma FirstIsServed(h: Heap, size: nat, b: nat)
    requires HeapOk(h) && AllocBlock(h, size).Some? && !Wrecks(h, size)
    ensures AllocBlock(h, size).value >= 24
    ensures var f := AllocBlock(h, size).value - 24;
            var n := Slot(SizeOf(h.all, f));
            && 0 <= n < 32 && f in h.bins[n] && (b in h.bins[n] && b != f ==> Before(h.bins[n], f, b))
  {
    var m := AllocCase(h, size);
    BinnedIsFree(h, m, h.bins[m][0]);
    if b in h.bins[m] && b != h.bins[m][0] {
      var j :| 0 <= j < |h.bins[m]| && h.bins[m][j] == b;
      assert h.bins[m][0] == AllocBlock(h, size).value - 24 && 0 < j;
    }
  }

  lemma StillBefore(ring: seq<nat>, x: nat, a: nat, b: nat)
    requires Before(ring, a, b)
    ensures Before(ring + [x], a, b)
    ensures ring[0] != a ==> Before(ring[1..], a, b)
  {
    var i, j :| 0 <= i < j < |ring| && ring[i] == a && ring[j] == b;
    assert (ring + [x])[i] == a && (ring + [x])[j] == b;
    if ring[0] != a {
      assert ring[1..][i - 1] == a && ring[1..][j - 1] == b;
    }
  }

  /** An allocation hands out the earlier of two chunks of a bin, or keeps their order. */
  lemma AllocKeepsOrder(h: Heap, size: nat, n: nat, a: nat, b: nat)
    requires HeapOk(h) && !Wrecks(h, size) && n < 32 && Before(h.bins[n], a, b)
    ensures AllocBlock(h, size) == Some(a + 24) || Before(Alloc(h, size).bins[n], a, b)
  {
    if AllocBlock(h, size).Some? {
      var m := AllocCase(h, size);
      ServedKeepsOrder(h, m, Rounded(size), Alloc(h, size), n, a, b);
    }
  }

  lemma ServedKeepsOrder(h: Heap, m: nat, r: nat, h': Heap, n: nat, a: nat, b: nat)
    requires HeapOk(h) && ServedFrom(h, m, r, h') && n < 32 && Before(h.bins[n], a, b)
    ensures (n == m && a == h.bins[m][0]) || Before(h'.bins[n], a, b)
  {
    var bins := h.bins[m := h.bins[m][1..]];
    StillBefore(h.bins[n], 0, a, b);
    if !(n == m && a == h.bins[m][0]) {
      assert Before(bins[n], a, b);
      if r + 80 <= SizeOf(h.all, h.bins[m][0]) {
        var x := h.bins[m][0] + 24 + r;
        var k := Slot(SizeOf(SplitAll(h, h.bins[m][0], r), x));
        assert h'.bins == Push(bins, k, x);
        StillBefore(bins[n], x, a, b);
      }
    }
  }

  /** First in, first out: over any allocations, of two chunks of one bin the later is not handed out before the earlier. */
  lemma {:induction false} FirstInFirstOut(c: Client, calls: seq<Call>, n: nat, a: nat, b: nat)
    requires Consistent(c) && Disciplined(c, calls) && (forall k :: 0 <= k < |calls| ==> calls[k].Kmalloc?) && n < 32
    requires Before(c.heap.bins[n], a, b) || a in c.heap.used
    ensures Consistent(After(c, calls))
    ensures Before(After(c, calls).heap.bins[n], a, b) || a in After(c, calls).heap.used
    decreases |calls|
  {
    if calls != [] {
      StepConsistent(c, calls[0]);
      StepKeepsOrder(c, calls[0].size, n, a, b);
      FirstInFirstOut(Step(c, calls[0]), calls[1..], n, a, b);
    }
  }

  lemma StepKeepsOrder(c: Client, size: nat, n: nat, a: nat, b: nat)
    requires Consistent(c) && Allowed(c, Kmalloc(size)) && n < 32
    requires Before(c.heap.bins[n], a, b) || a in c.heap.used
    ensures var h' := Step(c, Kmalloc(size)).heap;
            |h'.bins| == 32 && (Before(h'.bins[n], a, b) || a in h'.used)
  {
    StepConsistent(c, Kmalloc(size));
    if size > 0 && AllocBlock(c.heap, size).Some? {
      RoomySaves(c.heap, size);
      ServedOrUsed(c.heap, size, n, a, b);
    }
  }

  lemma ServedOrUsed(h: Heap, size: nat, n: nat, a: nat, b: nat)
    requires HeapOk(h) && AllocBlock(h, size).Some? && !Wrecks(h, size) && n < 32
    requires Before(h.bins[n], a, b) || a in h.used
    ensures |Alloc(h, size).bins| == 32 && (Before(Alloc(h, size).bins[n], a, b) || a in Alloc(h, size).used)
  {
    assert |Alloc(h, size).bins| == 32 by {
      AllocKeeps(h, size);
    }
    assert AllocBlock(h, size).value >= 24 && Alloc(h, size).used == h.used + {AllocBlock(h, size).value - 24} by {
      AllocShape(h, size);
    }
    if a !in h.used {
      AllocKeepsOrder(h, size, n, a, b);
    }
  }

  /**
   * Taking a chunk out of a bin for merging turns the ring: the order of two others is kept exactly
   * when it did not stand between them.
   */
  lemma DeleteTurns(bins: seq<seq<nat>>, n: nat, x: nat, a: nat, b: nat)
    requires n < |bins| && Distinct(bins[n]) && x in bins[n] && Before(bins[n], a, b) && a != x && b != x
    ensures Before(Delete(bins, n, x)[n], a, b) <==> !(Before(bins[n], a, x) && Before(bins[n], x, b))
  {
    var ring, j := bins[n], Position(bins[n], x);
    var i, k :| 0 <= i < k < |ring| && ring[i] == a && ring[k] == b;
    var rest := Without(ring, j);
    assert Delete(bins, n, x)[n] == rest && ring[j] == x && i != j && k != j;
    WithoutIsDistinct(ring, j);
    var i', k' := PlaceAfter(ring, j, i), PlaceAfter(ring, j, k);
    assert rest[i'] == a && rest[k'] == b;
    assert Before(rest, a, b) <==> i' < k';
    assert i < j < k ==> Before(ring, a, x) && Before(ring, x, b);
  }

  /** Where position i of a ring is found once position j was taken out. */
  function PlaceAfter(ring: seq<nat>, j: nat, i: nat): (k: nat)
    requires j < |ring| && i < |ring| && i != j
    ensures k < |Without(ring, j)| && Without(ring, j)[k] == ring[i]
  {
    if i > j then i - j - 1 else |ring| - j - 1 + i
  }

  lemma WithoutIsDistinct(ring: seq<nat>, j: nat)
    requires Distinct(ring) && j < |ring|
    ensures Distinct(Without(ring, j))
  {
  }
}
