/** RAM together with the frame allocator that hands it out. */
module PhysicalMemory {
  import opened Options
  import opened Paging
  import opened FrameMaps
  import FrameRuns

  const HIGHER_HALF_OFFSET: nat := 0xffff_ffff_8000_0000

  /** `struct page_alloc`: a kernel virtual address and a page count, both 0 on failure. */
  datatype PageAlloc = PageAlloc(page: nat, npages: nat)

  /** Where the kernel sees a physical frame. */
  function KernelAddress(frame: nat): nat {
    0xffff_ffff_8000_0000 + 4096 * frame
  }

  /** The physical frame behind a page-aligned kernel address. */
  function FrameOf(page: nat): nat
    requires page >= 0xffff_ffff_8000_0000
  {
    (page - 0xffff_ffff_8000_0000) / 4096
  }

  lemma PageAddress(startPfn: nat, start: nat)
    ensures 0xffff_ffff_8000_0000 + 4096 * startPfn + start * 4096 == KernelAddress(startPfn + start)
    ensures KernelAddress(startPfn + start) % 4096 == 0
    ensures FrameOf(KernelAddress(startPfn + start)) == startPfn + start
  {
  }

  /** The higher-half case of get_physaddr. */
  function GetPhysAddr(address: nat): nat
    requires address > 0xffff_ffff_8000_0000
  {
    address - 0xffff_ffff_8000_0000
  }

  /** The entry that links a page just allocated is the one made of its flags and its frame. */
  lemma PhysAddrOfFrame(frame: nat, flags: nat)
    requires 0 < frame < 0x10_0000_0000 && flags < 8
    ensures GetPhysAddr(KernelAddress(frame)) + flags == MakeEntry(flags, frame)
    ensures Pfn(GetPhysAddr(KernelAddress(frame)) + flags) == frame
  {
    MadeEntry(flags, frame);
  }

  ghost predicate IsFree(x: nat, startPfn: nat, npages: nat, used: set<nat>) {
    startPfn <= x < startPfn + npages && x - startPfn !in used
  }

  /** The frames that are not free: everything outside the allocator's region, and the marked ones inside it. */
  ghost function TakenFrames(memSize: nat, startPfn: nat, npages: nat, used: set<nat>): (taken: set<nat>) {
    set x: nat | x < memSize && !IsFree(x, startPfn, npages, used)
  }

  lemma TakenGrows(memSize: nat, startPfn: nat, npages: nat, used: set<nat>, start: nat, used': set<nat>)
    requires FrameRuns.TakesLowest(used, npages, 1, start, used') && startPfn + npages <= memSize
    ensures startPfn + start !in TakenFrames(memSize, startPfn, npages, used)
    ensures TakenFrames(memSize, startPfn, npages, used') ==
            TakenFrames(memSize, startPfn, npages, used) + {startPfn + start}
  {
    assert start in FrameRuns.Run(start, 1);
    assert IsFree(startPfn + start, startPfn, npages, used);
    assert used' == used + {start};
  }

  class Ram {
    var mem: Memory
    const frames: FrameMap
    const startPfn: nat

    /** Frame 0 is never handed out, and all of RAM is visible through the 2 GiB higher half. */
    ghost predicate Valid()
      reads this, frames, frames.words
    {
      && frames.Valid()
      && 1 <= startPfn
      && startPfn + frames.npages <= |mem| <= 0x8_0000
    }

    ghost function Taken(): set<nat>
      requires Valid()
      reads this, frames, frames.words
    {
      TakenFrames(|mem|, startPfn, frames.npages, frames.used)
    }

    /** Every frame but the region's last, which the allocator never hands out, is in use. */
    ghost predicate OutOfFrames()
      reads this, frames
    {
      forall f: nat :: f + 1 < frames.npages ==> f in frames.used
    }

    constructor (mem: Memory, frames: FrameMap, startPfn: nat)
      ensures this.mem == mem && this.frames == frames && this.startPfn == startPfn
    {
      this.mem := mem;
      this.frames := frames;
      this.startPfn := startPfn;
    }

    /**
     * alloc_pages: the lowest free run, of which only the first page is cleared.
     */
    method AllocPages(count: nat) returns (pa: PageAlloc)
      requires Valid()
      modifies this`mem, frames.words, frames`used
      ensures Valid() && |mem| == |old(mem)|
      ensures pa.npages == 0 ==>
                && pa.page == 0 && mem == old(mem) && frames.used == old(frames.used)
                && (count == 0 || FrameRuns.Exhausted(frames.used, frames.npages, count))
      ensures pa.npages != 0 ==>
                && pa.npages == count
                && pa.page > HIGHER_HALF_OFFSET && pa.page % 4096 == 0
                && var first := FrameOf(pa.page);
                && pa.page == KernelAddress(first) && startPfn <= first < |mem|
                && FrameRuns.TakesLowest(old(frames.used), frames.npages, count, first - startPfn, frames.used)
                && mem == old(mem)[first := ZeroFrame()]
      ensures pa.npages == 0 ==> Taken() == old(Taken())
      ensures pa.npages == 0 && count == 1 ==> OutOfFrames()
      ensures pa.npages != 0 && count == 1 ==>
                FrameOf(pa.page) !in old(Taken()) && Taken() == old(Taken()) + {FrameOf(pa.page)}
    {
      var start := frames.AllocRun(count);
      if start == None {
        forall f: nat | count == 1 && f + 1 < frames.npages
          ensures f in frames.used
        {
          assert !FrameRuns.FreeRun(frames.used, frames.npages, f, 1);
        }
        return PageAlloc(0, 0);
      }
      var first := startPfn + start.value;
      mem := mem[first := ZeroFrame()];
      PageAddress(startPfn, start.value);
      pa := PageAlloc(HIGHER_HALF_OFFSET + 4096 * startPfn + start.value * 4096, count);
      if count == 1 {
        TakenGrows(|mem|, startPfn, frames.npages, old(frames.used), start.value, frames.used);
      }
    }
  }
}
