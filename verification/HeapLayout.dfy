/** The address-ordered ring of chunks in the kernel heap, and the power-of-two size classes. */
module HeapLayout {

  /** memory_chunk_slot: the bin of a size, floor(log2(size)); -1 for 0. */
  function Slot(size: nat): (n: int)
    ensures n >= -1
    ensures size > 0 ==> n >= 0
  {
    if size == 0 then -1 else 1 + Slot(size / 2)
  }

  function Pow2(n: nat): nat {
    if n == 0 then 1 else 2 * Pow2(n - 1)
  }

  /** The loop of memory_chunk_slot. */
  method MemoryChunkSlot(size: nat) returns (n: int)
    ensures n == Slot(size)
  {
    n := -1;
    var rest := size;
    while rest > 0
      invariant rest >= 0 && n + 1 + Slot(rest) == Slot(size)
      decreases rest
    {
      n := n + 1;
      rest := rest / 2;
    }
  }

  /** The bin index really is the binary logarithm. */
  lemma {:induction false} SlotIsLog2(size: nat)
    requires size > 0
    ensures Pow2(Slot(size)) <= size < 2 * Pow2(Slot(size))
  {
    if size > 1 {
      var half := size / 2;
      SlotIsLog2(half);
      assert Pow2(Slot(size)) == 2 * Pow2(Slot(half));
    }
  }

  lemma {:induction false} SlotMonotone(a: nat, b: nat)
    requires a <= b
    ensures Slot(a) <= Slot(b)
  {
    if a > 0 {
      SlotMonotone(a / 2, b / 2);
    }
  }

  /** A chunk from a higher bin is larger than anything that belongs in a lower one. */
  lemma HigherBinIsLarger(need: nat, size: nat)
    requires Slot(size) > Slot(need)
    ensures size > need
  {
    if size <= need {
      SlotMonotone(size, need);
    }
  }

  lemma {:induction false} SlotBelow(size: nat, n: nat)
    requires size < Pow2(n)
    ensures Slot(size) < n
  {
    if size > 0 {
      SlotBelow(size / 2, n - 1);
    }
  }

  /** Sizes below 4 GiB have one of the 32 bins. */
  lemma SlotFitsBins(size: nat)
    requires 0 < size < 0x1_0000_0000
    ensures 0 <= Slot(size) < 32
  {
    Pow2Of32();
    SlotBelow(size, 32);
  }

  lemma {:induction false} SlotOfPow2(n: nat)
    ensures Slot(Pow2(n)) == n
  {
    if n > 0 {
      SlotOfPow2(n - 1);
      assert Pow2(n) / 2 == Pow2(n - 1);
    }
  }

  lemma SlotOf4GiB()
    ensures Slot(0x1_0000_0000) == 32
  {
    Pow2Of32();
    SlotOfPow2(32);
  }

  lemma Pow2Of32()
    ensures Pow2(32) == 0x1_0000_0000
  {
    assert Pow2(8) == 256;
    FourMore(8);
    FourMore(12);
    FourMore(16);
    FourMore(20);
    FourMore(24);
    FourMore(28);
  }

  lemma FourMore(n: nat)
    ensures Pow2(n + 4) == 16 * Pow2(n)
  {
    assert Pow2(n + 2) == 4 * Pow2(n);
  }

  // ---------- the ring ----------

  /** Chunk addresses in increasing order, each leaving room for a whole chunk header before the next. */
  ghost predicate Sorted(all: seq<nat>) {
    |all| < 2 || (all[0] + 40 <= all[1] && Sorted(all[1..]))
  }

  /** memory_chunk_size: the distance to the next chunk. */
  function SizeOf(all: seq<nat>, c: nat): nat {
    if |all| < 2 then 0
    else if all[0] == c then if all[0] <= all[1] then all[1] - all[0] else 0
    else SizeOf(all[1..], c)
  }

  /** Position of a chunk on the ring. */
  ghost function IndexOf(all: seq<nat>, c: nat): (i: nat)
    requires c in all
    ensures i < |all| && all[i] == c
  {
    if all[0] == c then 0 else 1 + IndexOf(all[1..], c)
  }

  /** list_add of a new chunk after position i. */
  ghost function Insert(all: seq<nat>, i: nat, x: nat): (r: seq<nat>)
    requires i < |all|
    ensures |r| == |all| + 1
  {
    if i == 0 then [all[0], x] + all[1..] else [all[0]] + Insert(all[1..], i - 1, x)
  }

  /** list_del of the chunk at position i. */
  ghost function Drop(all: seq<nat>, i: nat): (r: seq<nat>)
    requires i < |all|
    ensures |r| == |all| - 1
  {
    if i == 0 then all[1..] else [all[0]] + Drop(all[1..], i - 1)
  }

  lemma {:induction false} InsertIsSlice(all: seq<nat>, i: nat, x: nat)
    requires i < |all|
    ensures Insert(all, i, x) == all[..i + 1] + [x] + all[i + 1..]
  {
    if i > 0 {
      InsertIsSlice(all[1..], i - 1, x);
      assert all == [all[0]] + all[1..];
      assert all[..i + 1] == [all[0]] + all[1..][..i];
      assert all[1..][i..] == all[i + 1..];
    }
  }

  lemma {:induction false} DropIsSlice(all: seq<nat>, i: nat)
    requires i < |all|
    ensures Drop(all, i) == all[..i] + all[i + 1..]
  {
    if i > 0 {
      DropIsSlice(all[1..], i - 1);
      assert all[..i] == [all[0]] + all[1..][..i - 1];
      assert all[1..][i..] == all[i + 1..];
    }
  }

  lemma {:induction false} SortedAbove(all: seq<nat>, c: nat)
    requires Sorted(all) && |all| > 0 && c in all[1..]
    ensures all[0] + 40 <= c
  {
    if c != all[1] {
      assert all[1..][1..] == all[2..];
      SortedAbove(all[1..], c);
    }
  }

  lemma {:induction false} SortedAt(all: seq<nat>, i: nat, j: nat)
    requires Sorted(all) && i < j < |all|
    ensures all[i] + 40 <= all[j]
  {
    if i == 0 {
      SortedAbove(all, all[j]);
    } else {
      SortedAt(all[1..], i - 1, j - 1);
    }
  }

  lemma {:induction false} SizeAt(all: seq<nat>, i: nat)
    requires Sorted(all) && i + 1 < |all|
    ensures all[i] + SizeOf(all, all[i]) == all[i + 1] && SizeOf(all, all[i]) >= 40
  {
    if i > 0 {
      SortedAt(all, 0, i);
      SizeAt(all[1..], i - 1);
    }
  }

  lemma {:induction false} IndexUnique(all: seq<nat>, i: nat)
    requires Sorted(all) && i < |all|
    ensures IndexOf(all, all[i]) == i
  {
    if i > 0 {
      SortedAt(all, 0, i);
      IndexUnique(all[1..], i - 1);
    }
  }

  /** x can be a chunk between positions i and i+1. */
  ghost predicate Between(all: seq<nat>, i: nat, x: nat) {
    i + 1 < |all| && all[i] + 40 <= x && x + 40 <= all[i + 1]
  }

  lemma {:induction false} InsertAt(all: seq<nat>, i: nat, x: nat, j: nat)
    requires i < |all| && j <= |all|
    ensures Insert(all, i, x)[j] == if j <= i then all[j] else if j == i + 1 then x else all[j - 1]
  {
    if i > 0 && j > 0 {
      InsertAt(all[1..], i - 1, x, j - 1);
    }
  }

  lemma {:induction false} DropAt(all: seq<nat>, i: nat, j: nat)
    requires i < |all| && j < |all| - 1
    ensures Drop(all, i)[j] == if j < i then all[j] else all[j + 1]
  {
    if i > 0 && j > 0 {
      DropAt(all[1..], i - 1, j - 1);
    }
  }

  lemma {:induction false} InsertMembers(all: seq<nat>, i: nat, x: nat, c: nat)
    requires i < |all|
    ensures c in Insert(all, i, x) <==> c == x || c in all
  {
    if i == 0 {
      assert all == [all[0]] + all[1..];
    } else {
      InsertMembers(all[1..], i - 1, x, c);
      assert all == [all[0]] + all[1..];
    }
  }

  lemma {:induction false} InsertSorted(all: seq<nat>, i: nat, x: nat)
    requires Sorted(all) && Between(all, i, x)
    ensures Sorted(Insert(all, i, x))
  {
    if i == 0 {
      assert Insert(all, i, x)[1..] == [x] + all[1..];
      assert ([x] + all[1..])[1..] == all[1..];
    } else {
      InsertSorted(all[1..], i - 1, x);
      assert Insert(all, i, x)[1..] == Insert(all[1..], i - 1, x);
      InsertAt(all[1..], i - 1, x, 0);
    }
  }

  /** A new address between two chunks is no chunk's address. */
  lemma {:induction false} BetweenIsNew(all: seq<nat>, i: nat, x: nat)
    requires Sorted(all) && Between(all, i, x)
    ensures x !in all
  {
    if i > 0 {
      SortedAt(all, 0, i);
      BetweenIsNew(all[1..], i - 1, x);
      assert all == [all[0]] + all[1..];
    } else {
      if x in all {
        var j := IndexOf(all, x);
        if j > 1 {
          SortedAt(all, 1, j);
        }
      }
    }
  }

  /** Splitting divides one chunk's bytes between two. */
  lemma InsertedSizes(all: seq<nat>, i: nat, x: nat)
    requires Sorted(all) && Between(all, i, x)
    ensures x + SizeOf(Insert(all, i, x), x) == all[i + 1]
    ensures all[i] + SizeOf(Insert(all, i, x), all[i]) == x
  {
    InsertSorted(all, i, x);
    InsertAt(all, i, x, i);
    InsertAt(all, i, x, i + 1);
    InsertAt(all, i, x, i + 2);
    SizeAt(Insert(all, i, x), i);
    SizeAt(Insert(all, i, x), i + 1);
  }

  /** All other sizes stay. */
  lemma {:induction false} OtherSizes(all: seq<nat>, i: nat, x: nat, c: nat)
    requires Sorted(all) && Between(all, i, x) && c != all[i] && c != x
    ensures SizeOf(Insert(all, i, x), c) == SizeOf(all, c)
  {
    if i == 0 {
      assert Insert(all, i, x)[1..] == [x] + all[1..];
      assert ([x] + all[1..])[1..] == all[1..];
    } else {
      InsertAt(all, i, x, 1);
      assert Insert(all, i, x)[1..] == Insert(all[1..], i - 1, x);
      if c != all[0] {
        OtherSizes(all[1..], i - 1, x, c);
      }
    }
  }

  lemma {:induction false} DropThenInsert(all: seq<nat>, i: nat)
    requires i + 1 < |all|
    ensures Insert(Drop(all, i + 1), i, all[i + 1]) == all
  {
    if i == 0 {
      assert Drop(all, 1) == [all[0]] + all[2..];
      assert ([all[0]] + all[2..])[1..] == all[2..];
      assert all == [all[0], all[1]] + all[2..];
    } else {
      DropThenInsert(all[1..], i - 1);
      var rest := Drop(all[1..], i);
      assert Drop(all, i + 1) == [all[0]] + rest;
      assert ([all[0]] + rest)[1..] == rest;
      assert all == [all[0]] + all[1..];
    }
  }

  lemma {:induction false} InsertThenDrop(all: seq<nat>, i: nat, x: nat)
    requires i < |all|
    ensures Drop(Insert(all, i, x), i + 1) == all
  {
    if i == 0 {
      assert Insert(all, 0, x)[1..] == [x] + all[1..];
      assert ([x] + all[1..])[1..] == all[1..];
      assert all == [all[0]] + all[1..];
    } else {
      assert Insert(all, i, x)[1..] == Insert(all[1..], i - 1, x);
      InsertThenDrop(all[1..], i - 1, x);
      assert all == [all[0]] + all[1..];
    }
  }

  lemma {:induction false} DropSorted(all: seq<nat>, i: nat)
    requires Sorted(all) && i + 1 < |all|
    ensures Sorted(Drop(all, i + 1))
  {
    if i == 0 {
      assert Drop(all, 1) == [all[0]] + all[2..];
      assert Drop(all, 1)[1..] == all[2..] == all[1..][1..];
    } else {
      DropSorted(all[1..], i - 1);
      assert Drop(all, i + 1)[1..] == Drop(all[1..], i);
      DropAt(all[1..], i, 0);
    }
  }

  lemma DropBetween(all: seq<nat>, i: nat)
    requires Sorted(all) && i + 2 < |all|
    ensures Sorted(Drop(all, i + 1)) && Between(Drop(all, i + 1), i, all[i + 1])
  {
    DropSorted(all, i);
    DropAt(all, i + 1, i);
    DropAt(all, i + 1, i + 1);
    SortedAt(all, i, i + 1);
    SortedAt(all, i + 1, i + 2);
  }

  lemma DropMembers(all: seq<nat>, i: nat, c: nat)
    requires Sorted(all) && i + 2 < |all|
    ensures c in Drop(all, i + 1) <==> c in all && c != all[i + 1]
  {
    DropBetween(all, i);
    DropThenInsert(all, i);
    InsertMembers(Drop(all, i + 1), i, all[i + 1], c);
    BetweenIsNew(Drop(all, i + 1), i, all[i + 1]);
  }

  /** Dropping a middle chunk: its bytes go to the chunk before it, all other sizes stay. */
  lemma DropSizes(all: seq<nat>, i: nat, c: nat)
    requires Sorted(all) && i + 2 < |all|
    ensures all[i] + SizeOf(Drop(all, i + 1), all[i]) == all[i + 2]
    ensures c != all[i + 1] && c != all[i] ==> SizeOf(Drop(all, i + 1), c) == SizeOf(all, c)
  {
    DropBetween(all, i);
    DropThenInsert(all, i);
    DropAt(all, i + 1, i);
    DropAt(all, i + 1, i + 1);
    SizeAt(Drop(all, i + 1), i);
    if c != all[i + 1] && c != all[i] {
      OtherSizes(Drop(all, i + 1), i, all[i + 1], c);
    }
  }

  // ---------- neighbours ----------

  /** No two neighbouring chunks are both free. */
  ghost predicate NoFreeNeighbours(all: seq<nat>, used: set<nat>) {
    |all| < 2 || ((all[0] in used || all[1] in used) && NoFreeNeighbours(all[1..], used))
  }

  lemma {:induction false} NeighbourAt(all: seq<nat>, used: set<nat>, i: nat)
    requires NoFreeNeighbours(all, used) && i + 1 < |all|
    ensures all[i] in used || all[i + 1] in used
  {
    if i > 0 {
      NeighbourAt(all[1..], used, i - 1);
    }
  }

  lemma {:induction false} MoreUsed(all: seq<nat>, used: set<nat>, used': set<nat>)
    requires NoFreeNeighbours(all, used) && used <= used'
    ensures NoFreeNeighbours(all, used')
  {
    if |all| >= 2 {
      MoreUsed(all[1..], used, used');
    }
  }

  /** A chunk may be freed when its neighbours are used, or do not exist. */
  lemma {:induction false} FreeBetweenUsed(all: seq<nat>, used: set<nat>, i: nat)
    requires Sorted(all) && NoFreeNeighbours(all, used) && i < |all|
    requires (i > 0 ==> all[i - 1] in used) && (i + 1 < |all| ==> all[i + 1] in used)
    ensures NoFreeNeighbours(all, used - {all[i]})
  {
    if |all| >= 2 {
      if i == 0 {
        SortedAt(all, 0, 1);
        OthersUsed(all[1..], used, all[0]);
      } else {
        SortedAt(all, 0, i);
        if i > 1 {
          SortedAt(all, 1, i);
        }
        FreeBetweenUsed(all[1..], used, i - 1);
      }
    }
  }

  /** Freeing something that is not on the ring does not matter to it. */
  lemma {:induction false} OthersUsed(all: seq<nat>, used: set<nat>, c: nat)
    requires NoFreeNeighbours(all, used) && Sorted(all) && (|all| > 0 ==> c < all[0])
    ensures NoFreeNeighbours(all, used - {c})
  {
    if |all| >= 2 {
      OthersUsed(all[1..], used, c);
    }
  }

  lemma {:induction false} InsertNeighbours(all: seq<nat>, used: set<nat>, i: nat, x: nat)
    requires i + 1 < |all| && NoFreeNeighbours(all, used) && all[i] in used && all[i + 1] in used
    ensures NoFreeNeighbours(Insert(all, i, x), used)
  {
    if i == 0 {
      assert Insert(all, i, x)[1..] == [x] + all[1..];
      assert ([x] + all[1..])[1..] == all[1..];
    } else {
      InsertNeighbours(all[1..], used, i - 1, x);
      assert Insert(all, i, x)[1..] == Insert(all[1..], i - 1, x);
      InsertAt(all[1..], i - 1, x, 0);
    }
  }

  lemma {:induction false} DropNeighbours(all: seq<nat>, used: set<nat>, i: nat)
    requires i + 2 < |all| && NoFreeNeighbours(all, used) && (all[i] in used || all[i + 2] in used)
    ensures NoFreeNeighbours(Drop(all, i + 1), used)
  {
    if i == 0 {
      assert Drop(all, 1) == [all[0]] + all[2..];
      assert Drop(all, 1)[1..] == all[2..] == all[1..][1..];
    } else {
      DropNeighbours(all[1..], used, i - 1);
      assert Drop(all, i + 1)[1..] == Drop(all[1..], i);
      DropAt(all[1..], i, 0);
    }
  }
}
