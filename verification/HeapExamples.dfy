/** Runs of the heap that end where a request is served badly. */
module HeapExamples {
  import opened Options
  import opened HeapLayout
  import opened HeapSpec
  import opened HeapInvariant
  import opened HeapBlocks
  import opened HeapRuns
  import opened Ring
  import opened Words

  /** Bins of which only one is not empty. */
  function OneBin(n: nat, c: nat): (bins: seq<seq<nat>>)
    ensures |bins| == 32
  {
    seq(32, k => if k == n then [c] else [])
  }

  lemma {:induction false} SlotIs(size: nat, n: nat)
    requires Pow2(n) <= size < 2 * Pow2(n)
    ensures Slot(size) == n
  {
    if n > 0 {
      SlotIs(size / 2, n - 1);
    }
  }

  lemma SlotsOfExamples(s: nat)
    ensures 32 <= s < 64 ==> Slot(s) == 5
    ensures 64 <= s < 128 ==> Slot(s) == 6
    ensures 2048 <= s < 4096 ==> Slot(s) == 11
  {
    assert Pow2(5) == 32;
    assert Pow2(6) == 64;
    assert Pow2(11) == 2048 by {
      assert Pow2(8) == 256;
    }
    if 32 <= s < 64 {
      SlotIs(s, 5);
    } else if 64 <= s < 128 {
      SlotIs(s, 6);
    } else if 2048 <= s < 4096 {
      SlotIs(s, 11);
    }
  }

  lemma FirstBinIs(bins: seq<seq<nat>>, n: nat, m: nat)
    requires |bins| == 32 && n <= m < 32 && bins[m] != [] && (forall k :: n <= k < m ==> bins[k] == [])
    ensures FirstBin(bins, n) == m
  {
  }

  /** A page on which bin 11 holds one chunk, the last before the sentinel, and serves r bytes from it. */
  ghost predicate OpenPage(h: Heap, f: nat, r: nat) {
    && |h.all| >= 3 && Sorted(h.all) && h.all[|h.all| - 2] == f
    && h.bins == OneBin(11, f)
    && 16 <= r <= h.memFree && r % 4 == 0 && r <= 100
    && 2048 + 24 + r <= h.all[|h.all| - 1] - f < 4096
  }

  /** The page after that. */
  ghost function Served(h: Heap, f: nat, r: nat): Heap
    requires |h.all| >= 2
  {
    var n, size := |h.all|, h.all[|h.all| - 1] - f;
    h.(all := h.all[..n - 1] + [f + 24 + r, h.all[n - 1]],
       used := h.used + {f},
       bins := OneBin(11, f + 24 + r),
       memMeta := Wrap64(h.memMeta + 24),
       memFree := Wrap64(Wrap64(h.memFree + (size - r - 48)) - (size - 24)),
       memUsed := Wrap64(h.memUsed + r))
  }

  lemma OpenServes(h: Heap, f: nat, r: nat)
    requires OpenPage(h, f, r)
    ensures Rounded(r) == r && ServingBin(h, r) == Some(11)
  {
    WrapExact(r + 3);
    WrapExact(r + 24);
    SlotsOfExamples(r + 24);
    assert Slot(r + 24) == 5 || Slot(r + 24) == 6;
    FirstBinIs(h.bins, Slot(r + 24), 11);
  }

  lemma OpenSplit(h: Heap, f: nat, r: nat)
    requires OpenPage(h, f, r)
    ensures f in h.all && IndexOf(h.all, f) == |h.all| - 2 && SizeOf(h.all, f) == h.all[|h.all| - 1] - f
    ensures Insert(h.all, |h.all| - 2, f + 24 + r) == Served(h, f, r).all
    ensures SizeOf(Served(h, f, r).all, f + 24 + r) == h.all[|h.all| - 1] - f - 24 - r
  {
    var n := |h.all|;
    IndexUnique(h.all, n - 2);
    SizeAt(h.all, n - 2);
    LastGap(h.all, f + 24 + r);
    InsertedSizes(h.all, n - 2, f + 24 + r);
  }

  lemma LastGap(all: seq<nat>, x: nat)
    requires |all| >= 2
    ensures Insert(all, |all| - 2, x) == all[..|all| - 1] + [x, all[|all| - 1]]
  {
    InsertIsSlice(all, |all| - 2, x);
    assert all[|all| - 1..] == [all[|all| - 1]];
  }

  lemma OpenBins(h: Heap, f: nat, r: nat, len: nat)
    requires OpenPage(h, f, r) && 2048 <= len < 4096
    ensures Push(h.bins[11 := h.bins[11][1..]], Slot(len), f + 24 + r) == OneBin(11, f + 24 + r)
  {
    SlotsOfExamples(len);
    assert h.bins[11][1..] == [] && [] + [f + 24 + r] == [f + 24 + r];
  }

  lemma OpenTake(h: Heap, f: nat, r: nat)
    requires OpenPage(h, f, r) && f in h.all
    ensures h.bins[11] == [f] && TakeSplit(h, 11, r) == Served(h, f, r)
  {
    var size, x := h.all[|h.all| - 1] - f, f + 24 + r;
    OpenSplit(h, f, r);
    OpenBins(h, f, r, size - 24 - r);
    var len := SizeOf(Served(h, f, r).all, x);
    assert len - 24 == size - r - 48;
    assert TakeSplit(h, 11, r).bins == OneBin(11, x);
    assert TakeSplit(h, 11, r).memFree == Served(h, f, r).memFree;
    assert h.memUsed + size - len - 24 == h.memUsed + r;
  }

  /** An open page serves the request from its chunk, with room to clear it. */
  lemma OpenAlloc(h: Heap, f: nat, r: nat)
    requires OpenPage(h, f, r)
    ensures AllocBlock(h, r) == Some(f + 24) && Alloc(h, r) == Served(h, f, r) && Roomy(h, r)
  {
    OpenServes(h, f, r);
    OpenSplit(h, f, r);
    OpenTake(h, f, r);
    OpenFits(h, f, r);
    assert Wrap64(r + 24) - 24 == r && Wrap64(r + 80) == r + 80 by {
      WrapExact(r + 24);
      WrapExact(r + 80);
    }
    assert Alloc(h, r) == TakeSplit(h, 11, r);
  }

  lemma OpenFits(h: Heap, f: nat, r: nat)
    requires OpenPage(h, f, r) && Rounded(r) == r && ServingBin(h, r) == Some(11)
    ensures Fits(h, r)
  {
    SlotsOfExamples(r + 24);
  }

  // ---------- the states of the two runs ----------

  /** One page at 4096 with two blocks at its start, the second's payload 16 bytes; `first` is the first's. */
  ghost function TwoBlocks(first: nat): Heap
    requires first <= 100
  {
    Heap(4096, 8192, [4096, 4136, 4160 + first, 4200 + first, 8152], {4096, 4136, 4160 + first, 8152},
         OneBin(11, 4200 + first), 3928 - first, first + 16, 152)
  }

  lemma FreshPage(r: nat)
    requires 16 <= r <= 100 && r % 4 == 0
    ensures OpenPage(InitHeap(4096, 1), 4136, r)
  {
    var h := InitHeap(4096, 1);
    SlotsOfExamples(4016);
    assert h.bins == OneBin(11, 4136);
    assert h.all[1..] == [4136, 8152] && h.all[1..][1..] == [8152];
  }

  ghost function OneBlock(first: nat): Heap {
    Served(InitHeap(4096, 1), 4136, first)
  }

  lemma FirstServed(first: nat)
    requires 16 <= first <= 100 && first % 4 == 0
    ensures OneBlock(first) ==
            Heap(4096, 8192, [4096, 4136, 4160 + first, 8152], {4096, 4136, 8152},
                 OneBin(11, 4160 + first), 3968 - first, first, 128)
    ensures OpenPage(OneBlock(first), 4160 + first, 16)
  {
    var h, h1 := InitHeap(4096, 1), OneBlock(first);
    assert h.all[..2] == [4096, 4136];
    assert h1.all == [4096, 4136, 4160 + first, 8152];
    assert {4096, 8152} + {4136} == {4096, 4136, 8152};
    assert h1.all[1..] == [4136, 4160 + first, 8152] && h1.all[1..][1..] == [4160 + first, 8152];
    assert h1.all[1..][1..][1..] == [8152];
    assert Sorted(h1.all[1..][1..]);
  }

  lemma SecondServed(first: nat)
    requires 16 <= first <= 100 && first % 4 == 0
    ensures Served(OneBlock(first), 4160 + first, 16) == TwoBlocks(first)
  {
    FirstServed(first);
    var h1 := OneBlock(first);
    assert h1.all[..3] == [4096, 4136, 4160 + first];
    assert {4096, 4136, 8152} + {4160 + first} == {4096, 4136, 4160 + first, 8152};
  }

  lemma FirstStep(first: nat)
    requires 16 <= first <= 100 && first % 4 == 0
    ensures Roomy(InitHeap(4096, 1), first)
    ensures Step(FirstClient(4096, 1), Kmalloc(first)) == Client(OneBlock(first), map[4160 := first])
  {
    FreshPage(first);
    OpenAlloc(InitHeap(4096, 1), 4136, first);
  }

  lemma SecondStep(first: nat)
    requires 16 <= first <= 100 && first % 4 == 0
    ensures Ready(OneBlock(first)) && Roomy(OneBlock(first), 16)
    ensures Step(Client(OneBlock(first), map[4160 := first]), Kmalloc(16)) ==
            Client(TwoBlocks(first), map[4160 := first, 4184 + first := 16])
  {
    FirstServed(first);
    OpenAlloc(OneBlock(first), 4160 + first, 16);
    SecondServed(first);
  }

  lemma TwoBlocksRing(first: nat)
    requires 16 <= first <= 100 && first % 4 == 0
    ensures var all := TwoBlocks(first).all;
            && Sorted(all)
            && IndexOf(all, 4136) == 1 && SizeOf(all, 4136) == first + 24
            && IndexOf(all, 4160 + first) == 2 && SizeOf(all, 4160 + first) == 40
            && SizeOf(all, 4200 + first) == 3952 - first
  {
    var all := TwoBlocks(first).all;
    assert all[1..] == [4136, 4160 + first, 4200 + first, 8152];
    assert all[1..][1..] == [4160 + first, 4200 + first, 8152];
    assert all[1..][1..][1..] == [4200 + first, 8152] && all[1..][1..][1..][1..] == [8152];
    assert Sorted(all[1..][1..]) && Sorted(all);
    IndexUnique(all, 1);
    IndexUnique(all, 2);
    SizeAt(all, 1);
    SizeAt(all, 2);
    SizeAt(all, 3);
  }

  /** One call before a run. */
  lemma Prepend(c: Client, call: Call, c': Client, calls: seq<Call>)
    requires Ready(c.heap) && Allowed(c, call) && !Releases(c, call) && Step(c, call) == c' && Disciplined(c', calls)
    ensures Disciplined(c, [call] + calls) && After(c, [call] + calls) == After(c', calls)
  {
    assert ([call] + calls)[1..] == calls;
  }

  lemma OneCall(c: Client, call: Call)
    requires Ready(c.heap) && Allowed(c, call)
    ensures Disciplined(c, [call]) && After(c, [call]) == Step(c, call)
  {
    assert [call][1..] == [];
  }

  // ---------- a block that is too small ----------

  /** The heap after allocating 80 and 16 bytes on a fresh page at 4096 and freeing the first block. */
  ghost function Example(): Heap {
    Heap(4096, 8192, [4096, 4136, 4240, 4280, 8152], {4096, 4240, 8152},
         seq(32, k => if k == 6 then [4136] else if k == 11 then [4280] else []),
         3848, 0xFFFF_FFFF_FFFF_FFF8, 152)
  }

  lemma ExampleFreed()
    ensures LiveBlock(TwoBlocks(80), 4160) && Free(TwoBlocks(80), 4160) == Example() && !Vacant(Example())
  {
    var h := TwoBlocks(80);
    TwoBlocksRing(80);
    assert h.all[1] == 4136 && h.all[2] in h.used && h.all[0] in h.used;
    SlotsOfExamples(104);
    assert {4096, 4136, 4240, 8152} - {4136} == {4096, 4240, 8152};
    assert Push(OneBin(11, 4280), 6, 4136) == Example().bins by {
      ExampleBins();
    }
    WrapNegative(96 - 104);
    assert Example().all[2] in Example().used;
  }

  lemma ExampleBins()
    ensures Push(OneBin(11, 4280), 6, 4136) == Example().bins
  {
    assert OneBin(11, 4280)[6] + [4136] == [4136];
  }

  /** The clients before each of two calls after two blocks were handed out. */
  ghost function Holding(first: nat): Client
    requires first <= 100
  {
    Client(TwoBlocks(first), map[4160 := first, 4184 + first := 16])
  }

  /** Two blocks, and then any allowed calls. */
  lemma StartsWithTwo(first: nat, rest: seq<Call>)
    requires 16 <= first <= 100 && first % 4 == 0 && Disciplined(Holding(first), rest)
    ensures Disciplined(FirstClient(4096, 1), [Kmalloc(first), Kmalloc(16)] + rest)
    ensures After(FirstClient(4096, 1), [Kmalloc(first), Kmalloc(16)] + rest) == After(Holding(first), rest)
  {
    FirstStep(first);
    SecondStep(first);
    var c1 := Client(OneBlock(first), map[4160 := first]);
    Prepend(c1, Kmalloc(16), Holding(first), rest);
    Prepend(FirstClient(4096, 1), Kmalloc(first), c1, [Kmalloc(16)] + rest);
    assert [Kmalloc(first)] + ([Kmalloc(16)] + rest) == [Kmalloc(first), Kmalloc(16)] + rest;
  }

  /** The calls that lead there are all allowed. */
  lemma ExampleReached()
    ensures var calls := [Kmalloc(80), Kmalloc(16)] + [Kfree(4160)];
            Disciplined(FirstClient(4096, 1), calls) && After(FirstClient(4096, 1), calls).heap == Example()
  {
    ExampleFreed();
    OneCall(Holding(80), Kfree(4160));
    StartsWithTwo(80, [Kfree(4160)]);
  }

  lemma ExampleServes()
    ensures Rounded(100) == 100 && ServingBin(Example(), 100) == Some(6) && Example().bins[6] == [4136]
  {
    WrapExact(103);
    WrapExact(124);
    SlotsOfExamples(124);
    FirstBinIs(Example().bins, 6, 6);
  }

  /**
   * The bin of the request itself may serve a chunk that is too small: in this heap a request for 100
   * bytes gets the block of 80 back, and clearing it would run into the block behind it.
   */
  lemma BlockTooSmall()
    ensures HeapOk(Example()) && AllocBlock(Example(), 100) == Some(4160)
    ensures PayloadOf(Alloc(Example(), 100), 4160) == 80
    ensures !Roomy(Example(), 100) && !ClearsInside(Alloc(Example(), 100), 4160, 100)
  {
    ExampleReached();
    FirstConsistent(4096, 1);
    RunConsistent(FirstClient(4096, 1), [Kmalloc(80), Kmalloc(16)] + [Kfree(4160)]);
    ExampleServes();
    TwoBlocksRing(80);
    SlotsOfExamples(124);
    assert !Fits(Example(), 100);
    ClearsInsideIff(Example(), 100);
    AllocShape(Example(), 100);
    AllocatedPayload(Example(), Alloc(Example(), 100), 4160, 100);
  }

  // ---------- a request that wrecks the heap ----------

  /** The heap after allocating 16 bytes twice, freeing the second block and allocating 16 again. */
  ghost function WreckExample(): Heap {
    Heap(4096, 8192, [4096, 4136, 4176, 4216, 8152], {4096, 4136, 4176, 8152}, OneBin(11, 4216),
         0xFFFF_FFFF_FFFF_FFF0, 8, 152)
  }

  ghost function Reopened(): Heap {
    Heap(4096, 8192, [4096, 4136, 4176, 8152], {4096, 4136, 8152}, OneBin(11, 4176),
         24, 0xFFFF_FFFF_FFFF_FFF8, 128)
  }

  lemma WreckAbsorbs()
    ensures var h, h1 := Uncount(TwoBlocks(16), 4200), AbsorbNext(Uncount(TwoBlocks(16), 4200), 2);
            && h1.all == [4096, 4136, 4176, 8152] && h1.bins == seq(32, k => []) && h1.used == h.used
            && h1.memFree == 24 && h1.memMeta == 128 && h1.memUsed == 0xFFFF_FFFF_FFFF_FFF8
  {
    var h := Uncount(TwoBlocks(16), 4200);
    TwoBlocksRing(16);
    DropIsSlice(h.all, 3);
    assert h.all[..3] + h.all[4..] == [4096, 4136, 4176, 8152];
    SlotsOfExamples(3936);
    assert h.bins[11] == [4216] && Position([4216], 4216) == 0 && Without([4216], 0) == [];
    assert Delete(h.bins, 11, 4216) == seq(32, k => []);
    WrapExact(3912 - 3912);
    WrapExact(24);
    WrapExact(152 - 24);
    WrapNegative(32 - 40);
  }

  lemma WreckReleases(h: Heap)
    requires h.all == [4096, 4136, 4176, 8152] && h.used == {4096, 4136, 4176, 8152} && h.bins == seq(32, k => [])
    ensures FreeTail(h, 2) == h.(used := {4096, 4136, 8152}, bins := OneBin(11, 4176))
  {
    ReopenedRing();
    SlotsOfExamples(3976);
    assert h.bins[11] + [4176] == [4176];
    assert Push(h.bins, 11, 4176) == OneBin(11, 4176);
    assert h.used - {4176} == {4096, 4136, 8152};
  }

  lemma WreckFreed()
    ensures LiveBlock(TwoBlocks(16), 4200) && Free(TwoBlocks(16), 4200) == Reopened() && !Vacant(Reopened())
  {
    TwoBlocksRing(16);
    WreckAbsorbs();
    WreckReleases(AbsorbNext(Uncount(TwoBlocks(16), 4200), 2));
    assert TwoBlocks(16).all[3] !in TwoBlocks(16).used;
    assert Reopened().all[1] in Reopened().used;
  }

  lemma ReopenedRing()
    ensures Sorted(Reopened().all) && SizeOf(Reopened().all, 4176) == 3976
  {
    var all := Reopened().all;
    assert all[1..] == [4136, 4176, 8152] && all[1..][1..] == [4176, 8152] && all[1..][1..][1..] == [8152];
    assert Sorted(all[1..][1..]) && Sorted(all);
    SizeAt(all, 2);
  }

  lemma WreckServed()
    ensures OpenPage(Reopened(), 4176, 16) && Served(Reopened(), 4176, 16) == WreckExample()
  {
    var h := Reopened();
    ReopenedRing();
    assert h.all[..3] == [4096, 4136, 4176];
    assert {4096, 4136, 8152} + {4176} == {4096, 4136, 4176, 8152};
    WrapExact(24 + 3912);
    WrapNegative(3936 - 3952);
    WrapExact(128 + 24);
    WrapOnce(0xFFFF_FFFF_FFFF_FFF8 + 16);
  }

  ghost function HoldingOne(): Client {
    Client(Reopened(), map[4160 := 16])
  }

  lemma WreckThird()
    ensures Allowed(Holding(16), Kfree(4200)) && !Releases(Holding(16), Kfree(4200))
    ensures Step(Holding(16), Kfree(4200)) == HoldingOne()
  {
    WreckFreed();
    assert map[4160 := 16, 4200 := 16] - {4200} == map[4160 := 16];
  }

  lemma WreckFourth()
    ensures Allowed(HoldingOne(), Kmalloc(16)) && Step(HoldingOne(), Kmalloc(16)).heap == WreckExample()
  {
    WreckServed();
    OpenAlloc(Reopened(), 4176, 16);
  }

  /** The calls that lead there are all allowed. */
  lemma WreckReached()
    ensures var calls := [Kmalloc(16), Kmalloc(16)] + ([Kfree(4200)] + [Kmalloc(16)]);
            Disciplined(FirstClient(4096, 1), calls) && After(FirstClient(4096, 1), calls).heap == WreckExample()
  {
    WreckThird();
    WreckFourth();
    OneCall(HoldingOne(), Kmalloc(16));
    Prepend(Holding(16), Kfree(4200), HoldingOne(), [Kmalloc(16)]);
    StartsWithTwo(16, [Kfree(4200)] + [Kmalloc(16)]);
  }

  lemma WreckOk()
    ensures HeapOk(WreckExample())
  {
    WreckReached();
    FirstConsistent(4096, 1);
    RunConsistent(FirstClient(4096, 1), [Kmalloc(16), Kmalloc(16)] + ([Kfree(4200)] + [Kmalloc(16)]));
  }

  /** There a request for 2^64 - 20 bytes passes the free count and splits a chunk inside its own header. */
  lemma RequestWrecks()
    ensures HeapOk(WreckExample()) && Wrecks(WreckExample(), 0xFFFF_FFFF_FFFF_FFEC)
    ensures AllocBlock(WreckExample(), 0xFFFF_FFFF_FFFF_FFEC) == Some(4240)
    ensures !HeapOk(Alloc(WreckExample(), 0xFFFF_FFFF_FFFF_FFEC))
  {
    WreckOk();
    WreckFound();
    AllocKeepsIff(WreckExample(), 0xFFFF_FFFF_FFFF_FFEC);
  }

  lemma WreckFound()
    ensures ServingBin(WreckExample(), 0xFFFF_FFFF_FFFF_FFEC) == Some(11) && WreckExample().bins[11] == [4216]
    ensures Wrecks(WreckExample(), 0xFFFF_FFFF_FFFF_FFEC)
  {
    var h, size := WreckExample(), 0xFFFF_FFFF_FFFF_FFEC;
    TwoBlocksRing(16);
    WrapExact(size + 3);
    WrapOnce(size + 24);
    WrapOnce(size + 80);
    assert Slot(4) == 2;
    FirstBinIs(h.bins, 2, 11);
  }
}
