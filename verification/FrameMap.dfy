/** The physical frame allocator's bitmap: one bit per frame, packed into 64-bit words. */
module FrameBits {

  // The word operations are named so that proofs about bitmaps use the facts
  // below instead of unfolding 64-bit arithmetic.

  function And(w: bv64, m: bv64): bv64 {
    w & m
  }

  predicate Meets(w: bv64, m: bv64) {
    And(w, m) != 0
  }

  function Or(w: bv64, m: bv64): bv64 {
    w | m
  }

  function AndNot(w: bv64, m: bv64): bv64 {
    w & !m
  }

  function Double(w: bv64): bv64 {
    w << 1
  }

  /** The word with only bit k set: 1 shifted left k times. */
  function Mask(k: nat): bv64
    requires k < 64
  {
    if k == 0 then 1 else Double(Mask(k - 1))
  }

  lemma DoublesApart(v: bv64, w: bv64)
    ensures And(v, w) == 0 ==> And(Double(v), Double(w)) == 0
    ensures And(1, Double(w)) == 0 && And(Double(w), 1) == 0
  {
  }

  lemma {:induction false} MasksApart(j: nat, k: nat)
    requires j < 64 && k < 64 && j != k
    ensures And(Mask(j), Mask(k)) == 0
  {
    if j == 0 {
      DoublesApart(1, Mask(k - 1));
    } else if k == 0 {
      DoublesApart(1, Mask(j - 1));
    } else {
      MasksApart(j - 1, k - 1);
      DoublesApart(Mask(j - 1), Mask(k - 1));
    }
  }

  function FourTimes(w: bv64): bv64 {
    w << 4
  }

  lemma FourDoublings(w: bv64)
    ensures Double(Double(Double(Double(w)))) == FourTimes(w)
  {
  }

  lemma MaskLater(k: nat)
    requires k + 4 < 64
    ensures Mask(k + 4) == FourTimes(Mask(k))
  {
    assert Mask(k + 2) == Double(Double(Mask(k)));
    assert Mask(k + 4) == Double(Double(Mask(k + 2)));
    FourDoublings(Mask(k));
  }

  lemma TopMask()
    ensures Mask(63) == 0x8000_0000_0000_0000
  {
    assert Mask(1) == 2;
    assert Mask(3) == 8;
    MaskLater(3);
    MaskLater(7);
    MaskLater(11);
    MaskLater(15);
    MaskLater(19);
    MaskLater(23);
    MaskLater(27);
    MaskLater(31);
    MaskLater(35);
    MaskLater(39);
    MaskLater(43);
    MaskLater(47);
    MaskLater(51);
    MaskLater(55);
    MaskLater(59);
  }

  /** Doubling loses only the top bit. */
  lemma DoubleNonzero(w: bv64)
    requires w != 0 && And(w, 0x8000_0000_0000_0000) == 0
    ensures Double(w) != 0
  {
  }

  lemma {:induction false} MaskNonzero(k: nat)
    requires k < 64
    ensures Mask(k) != 0
  {
    if k > 0 {
      MaskNonzero(k - 1);
      MasksApart(k - 1, 63);
      TopMask();
      DoubleNonzero(Mask(k - 1));
    }
  }

  lemma SelfMeets(w: bv64, m: bv64)
    requires m != 0
    ensures Meets(Or(w, m), m)
  {
    assert (w | m) & m == m;
  }

  lemma ClearedMisses(w: bv64, m: bv64)
    ensures !Meets(AndNot(w, m), m)
  {
  }

  lemma OrKeepsOthers(w: bv64, m: bv64, n: bv64)
    requires And(m, n) == 0
    ensures And(Or(w, m), n) == And(w, n)
  {
  }

  lemma AndNotKeepsOthers(w: bv64, m: bv64, n: bv64)
    requires And(m, n) == 0
    ensures And(AndNot(w, m), n) == And(w, n)
  {
  }

  function SetBit(w: bv64, k: nat, on: bool): bv64
    requires k < 64
  {
    if on then Or(w, Mask(k)) else AndNot(w, Mask(k))
  }

  lemma SetBitMeets(w: bv64, i: nat, on: bool, k: nat)
    requires i < 64 && k < 64
    ensures Meets(SetBit(w, i, on), Mask(k)) == if k == i then on else Meets(w, Mask(k))
  {
    MaskNonzero(i);
    if i != k {
      MasksApart(i, k);
      OrKeepsOthers(w, Mask(i), Mask(k));
      AndNotKeepsOthers(w, Mask(i), Mask(k));
    } else {
      SelfMeets(w, Mask(i));
      ClearedMisses(w, Mask(i));
    }
  }

  /** The bit of frame i in a packed bitmap. */
  predicate Bit(words: seq<bv64>, i: nat)
    requires i < 64 * |words|
  {
    Meets(words[i / 64], Mask(i % 64))
  }

  /** Writing one bit the way set_frame_map does changes that bit and no other. */
  lemma WriteBit(words: seq<bv64>, i: nat, on: bool, k: nat)
    requires i < 64 * |words| && k < 64 * |words|
    ensures Bit(words[i / 64 := SetBit(words[i / 64], i % 64, on)], k) == if k == i then on else Bit(words, k)
  {
    SetBitMeets(words[i / 64], i % 64, on, k % 64);
    assert k == i <==> k / 64 == i / 64 && k % 64 == i % 64;
  }

  /** The bitmap is the characteristic function of the used set. */
  ghost predicate Denotes(words: seq<bv64>, npages: nat, used: set<nat>) {
    && npages <= 64 * |words|
    && (forall i: nat {:trigger Bit(words, i)} :: i < npages ==> (Bit(words, i) <==> i in used))
    && (forall i: nat :: i in used ==> i < npages)
  }

  lemma ZeroDenotesEmpty(words: seq<bv64>, npages: nat)
    requires npages <= 64 * |words|
    requires forall k :: 0 <= k < |words| ==> words[k] == 0
    ensures Denotes(words, npages, {})
  {
    forall i: nat | i < npages
      ensures !Bit(words, i)
    {
      assert words[i / 64] == 0;
    }
  }

  /** Writing a bit adds or removes exactly that frame. */
  lemma WriteDenotes(words: seq<bv64>, npages: nat, used: set<nat>, i: nat, on: bool)
    requires Denotes(words, npages, used) && i < npages
    ensures Denotes(words[i / 64 := SetBit(words[i / 64], i % 64, on)], npages, if on then used + {i} else used - {i})
  {
    var words' := words[i / 64 := SetBit(words[i / 64], i % 64, on)];
    forall k: nat | k < npages
      ensures Bit(words', k) == if k == i then on else k in used
    {
      WriteBit(words, i, on, k);
    }
  }
}

/** What alloc_pages promises, stated on the set of used frames alone. */
module FrameRuns {

  /** The frames start .. start+count-1. */
  function Run(start: nat, count: nat): (r: set<nat>)
    ensures forall i: nat :: i in r <==> start <= i < start + count
  {
    if count == 0 then {} else Run(start, count - 1) + {start + count - 1}
  }

  /** A run the allocator may hand out: inside the region, short of its last frame, and all free. */
  ghost predicate FreeRun(used: set<nat>, npages: nat, start: nat, count: nat) {
    start + count < npages && Run(start, count) !! used
  }

  /** No run of this length is left. */
  ghost predicate Exhausted(used: set<nat>, npages: nat, count: nat) {
    forall s: nat :: !FreeRun(used, npages, s, count)
  }

  /** One successful call: the lowest free run is taken and nothing else changes. */
  ghost predicate TakesLowest(used: set<nat>, npages: nat, count: nat, start: nat, used': set<nat>) {
    && count > 0
    && FreeRun(used, npages, start, count)
    && (forall s: nat :: FreeRun(used, npages, s, count) ==> start <= s)
    && used' == used + Run(start, count)
  }

  /** Frame by frame: which runs may be handed out. */
  lemma FreeRunMeans(used: set<nat>, npages: nat, start: nat, count: nat)
    ensures FreeRun(used, npages, start, count) <==>
            start + count < npages && forall f: nat :: start <= f < start + count ==> f !in used
  {
    if FreeRun(used, npages, start, count) {
      assert forall f: nat :: start <= f < start + count ==> f in Run(start, count);
    }
  }

  /** No run of this length is left exactly when every stretch of it short of the last frame holds a used frame. */
  lemma ExhaustedMeans(used: set<nat>, npages: nat, count: nat, s: nat)
    requires s + count < npages
    ensures Exhausted(used, npages, count) ==> exists f: nat :: s <= f < s + count && f in used
    ensures (forall f: nat :: s <= f < s + count ==> f !in used) ==> !Exhausted(used, npages, count)
  {
    FreeRunMeans(used, npages, s, count);
  }

  /** Frame by frame: a successful call takes exactly the frames of a free run, and a used frame lies in any lower one. */
  lemma TakesLowestMeans(used: set<nat>, npages: nat, count: nat, start: nat, used': set<nat>, s: nat)
    requires TakesLowest(used, npages, count, start, used')
    ensures start + count < npages
    ensures forall f: nat :: f in used' <==> f in used || start <= f < start + count
    ensures forall f: nat :: start <= f < start + count ==> f !in used
    ensures s < start ==> exists f: nat :: s <= f < s + count && f in used
  {
    FreeRunMeans(used, npages, start, count);
    if s < start {
      assert !FreeRun(used, npages, s, count);
      FreeRunMeans(used, npages, s, count);
    }
  }

  /** A block handed out by one call. */
  datatype Block = Block(start: nat, count: nat)

  /** A run of successful allocation calls through the used sets `states`. */
  ghost predicate AllocationRun(npages: nat, states: seq<set<nat>>, blocks: seq<Block>) {
    && |states| == |blocks| + 1
    && forall k :: 0 <= k < |blocks| ==>
         TakesLowest(states[k], npages, blocks[k].count, blocks[k].start, states[k + 1])
  }

  lemma {:induction false} UsedOnlyGrows(npages: nat, states: seq<set<nat>>, blocks: seq<Block>, i: nat, j: nat)
    requires AllocationRun(npages, states, blocks) && i <= j <= |blocks|
    ensures states[i] <= states[j]
    decreases j
  {
    if i < j {
      UsedOnlyGrows(npages, states, blocks, i, j - 1);
      assert TakesLowest(states[j - 1], npages, blocks[j - 1].count, blocks[j - 1].start, states[j]);
    }
  }

  /** All blocks handed out by a run of allocations are disjoint, and disjoint from what was used before. */
  lemma BlocksDisjoint(npages: nat, states: seq<set<nat>>, blocks: seq<Block>, i: nat, j: nat)
    requires AllocationRun(npages, states, blocks) && i < j < |blocks|
    ensures Run(blocks[i].start, blocks[i].count) !! Run(blocks[j].start, blocks[j].count)
    ensures Run(blocks[j].start, blocks[j].count) !! states[0]
  {
    UsedOnlyGrows(npages, states, blocks, i + 1, j);
    UsedOnlyGrows(npages, states, blocks, 0, j);
    assert TakesLowest(states[i], npages, blocks[i].count, blocks[i].start, states[i + 1]);
    assert TakesLowest(states[j], npages, blocks[j].count, blocks[j].start, states[j + 1]);
  }

  /** The lowest free run leaves no usable gap: a single frame is taken first-fit, so every lower frame is used. */
  lemma SingleFrameFirstFit(used: set<nat>, npages: nat, start: nat, used': set<nat>)
    requires TakesLowest(used, npages, 1, start, used')
    ensures forall i: nat :: i < start ==> i in used
  {
    forall i: nat | i < start ensures i in used {
      assert !FreeRun(used, npages, i, 1);
    }
  }
}

module FrameMaps {
  import opened Options
  import opened FrameBits
  import opened FrameRuns

  class FrameMap {
    var npages: nat
    const words: array<bv64>

    /** The frames whose bit is set. */
    ghost var used: set<nat>

    /** The bitmap has a bit for every frame; frame numbers fit the source's 32-bit loop counters. */
    ghost predicate Valid()
      reads this, words
    {
      npages < 0x1_0000_0000 && Denotes(words[..], npages, used)
    }

    /** A zeroed bitmap: all frames are free. */
    constructor (npages: nat, words: array<bv64>)
      requires forall k :: 0 <= k < words.Length ==> words[k] == 0
      ensures this.npages == npages && this.words == words && used == {}
      ensures Valid() <==> npages < 0x1_0000_0000 && npages <= 64 * words.Length
    {
      this.npages := npages;
      this.words := words;
      this.used := {};
      new;
      if npages <= 64 * words.Length {
        ZeroDenotesEmpty(words[..], npages);
      }
    }

    method GetFrameMap(index: nat) returns (v: nat)
      requires Valid() && index < npages
      ensures v == if index in used then 1 else 0
    {
      assert Bit(words[..], index) <==> index in used;
      v := if !Meets(words[index / 64], Mask(index % 64)) then 0 else 1;
    }

    method SetFrameMap(index: nat, val: nat)
      requires Valid() && index < npages
      modifies words, this`used
      ensures Valid()
      ensures used == if val > 0 then old(used) + {index} else old(used) - {index}
    {
      WriteDenotes(words[..], npages, used, index, val > 0);
      ghost var before := words[..];
      if val > 0 {
        words[index / 64] := Or(words[index / 64], Mask(index % 64));
        used := used + {index};
      } else {
        words[index / 64] := AndNot(words[index / 64], Mask(index % 64));
        used := used - {index};
      }
      assert words[..] == before[index / 64 := SetBit(before[index / 64], index % 64, val > 0)];
    }

    /** 0 when the whole run is free and inside the region, -1 otherwise. */
    method CheckContinuousFreePage(start: nat, count: nat) returns (r: int)
      requires Valid()
      ensures r == if FreeRun(used, npages, start, count) then 0 else -1
    {
      if start + count >= npages {
        return -1;
      }
      for i := 0 to count
        invariant Run(start, i) !! used
      {
        var bit := GetFrameMap(start + i);
        if bit != 0 {
          assert start + i in Run(start, count);
          return -1;
        }
      }
      return 0;
    }

    /** The marking loop of alloc_pages. */
    method MarkRun(start: nat, count: nat)
      requires Valid() && start + count <= npages
      modifies words, this`used
      ensures Valid() && used == old(used) + Run(start, count)
    {
      for j := 0 to count
        invariant Valid() && used == old(used) + Run(start, j)
      {
        SetFrameMap(start + j, 1);
      }
    }

    /** The search of alloc_pages: first fit over all starts, marking the run it finds. */
    method AllocRun(count: nat) returns (r: Option<nat>)
      requires Valid()
      modifies words, this`used
      ensures Valid()
      ensures r.Some? ==> TakesLowest(old(used), npages, count, r.value, used)
      ensures r.None? <==> count == 0 || Exhausted(old(used), npages, count)
      ensures r.None? ==> used == old(used)
    {
      if count >= npages || count == 0 {
        return None;
      }
      var i := 0;
      while i <= npages - count
        invariant i <= npages - count + 1
        invariant Valid() && used == old(used)
        invariant forall s: nat :: s < i ==> !FreeRun(used, npages, s, count)
      {
        var free := CheckContinuousFreePage(i, count);
        if free == 0 {
          MarkRun(i, count);
          return Some(i);
        }
        i := i + 1;
      }
      return None;
    }
  }
}
