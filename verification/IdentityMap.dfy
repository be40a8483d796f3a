/** The tables of the kernel's identity map, level by level. */
module IdentityMapSpec {
  import opened Paging

  /** The number of the page with lower indices a, b, c. */
  function Page(a: nat, b: nat, c: nat): nat {
    (a * 512 + b) * 512 + c
  }

  predicate InKernel(n: nat, k: nat) {
    4096 * n <= k
  }

  /** The page-table entry for page n when the kernel image ends at physical address k. */
  function LeafEntry(n: nat, k: nat): (e: nat)
    requires k <= 0x4000_0000
    ensures e < 0x1_0000_0000_0000_0000
  {
    if InKernel(n, k) then 4096 * n + 3 else 0
  }

  /** What the map must translate page n to, under the given upper-level flags. */
  function Identity(n: nat, k: nat, above: seq<nat>): Translation {
    if InKernel(n, k) then SmallPage(above + [3], n) else Unmapped
  }

  ghost predicate PtOk(m: Memory, pt: nat, a: nat, b: nat, k: nat)
    requires k <= 0x4000_0000
  {
    pt < |m| && forall c: Index :: m[pt][c] == LeafEntry(Page(a, b, c as nat), k)
  }

  /** A table entry of the map: a 0x07 link to a finished fresh table, or nothing when all below lies past the kernel. */
  ghost predicate PdEntryOk(m: Memory, e: Word, a: nat, b: nat, k: nat, own: set<nat>)
    requires k <= 0x4000_0000
  {
    if e == 0 then !InKernel(Page(a, b, 0), k)
    else LowFlags(e) == 7 && !IsHugePage(e) && Pfn(e) in own && PtOk(m, Pfn(e), a, b, k)
  }

  ghost predicate PdOk(m: Memory, pd: nat, a: nat, k: nat, own: set<nat>)
    requires k <= 0x4000_0000
  {
    pd < |m| && forall b: Index :: PdEntryOk(m, m[pd][b], a, b as nat, k, own)
  }

  ghost predicate PdptEntryOk(m: Memory, e: Word, a: nat, k: nat, own: set<nat>)
    requires k <= 0x4000_0000
  {
    if e == 0 then !InKernel(Page(a, 0, 0), k)
    else LowFlags(e) == 7 && !IsHugePage(e) && Pfn(e) in own && PdOk(m, Pfn(e), a, k, own)
  }

  ghost predicate PdptOk(m: Memory, pdpt: nat, k: nat, own: set<nat>)
    requires k <= 0x4000_0000
  {
    pdpt < |m| && forall a: Index :: PdptEntryOk(m, m[pdpt][a], a as nat, k, own)
  }

  lemma PtStable(m: Memory, m': Memory, e: Word, a: nat, b: nat, k: nat, own: set<nat>, own': set<nat>)
    requires k <= 0x4000_0000 && PdEntryOk(m, e, a, b, k, own) && own <= own'
    requires |m'| == |m| && forall x :: x in own && x < |m| ==> m'[x] == m[x]
    ensures PdEntryOk(m', e, a, b, k, own')
  {
  }

  lemma PdStable(m: Memory, m': Memory, pd: nat, a: nat, k: nat, own: set<nat>, own': set<nat>)
    requires k <= 0x4000_0000 && PdOk(m, pd, a, k, own) && own <= own'
    requires |m'| == |m| && m'[pd] == m[pd] && forall x :: x in own && x < |m| ==> m'[x] == m[x]
    ensures PdOk(m', pd, a, k, own')
  {
    forall b: Index
      ensures PdEntryOk(m', m'[pd][b], a, b as nat, k, own')
    {
      PtStable(m, m', m[pd][b], a, b as nat, k, own, own');
    }
  }

  lemma PdptStable(m: Memory, m': Memory, pdpt: nat, k: nat, own: set<nat>)
    requires k <= 0x4000_0000 && PdptOk(m, pdpt, k, own)
    requires |m'| == |m| && m'[pdpt] == m[pdpt] && forall x :: x in own && x < |m| ==> m'[x] == m[x]
    ensures PdptOk(m', pdpt, k, own)
  {
    forall a: Index
      ensures PdptEntryOk(m', m'[pdpt][a], a as nat, k, own)
    {
      assert PdptEntryOk(m, m[pdpt][a], a as nat, k, own);
      if m[pdpt][a] != 0 {
        PdStable(m, m', Pfn(m[pdpt][a]), a as nat, k, own, own);
      }
    }
  }

  lemma PtTranslates(m: Memory, pt: nat, a: nat, b: nat, k: nat, q: Path)
    requires k <= 0x4000_0000 && PtOk(m, pt, a, b, k) && |q| == 1
    ensures Lookup(m, 1, pt, q) == Identity(Page(a, b, q[0] as nat), k, [])
  {
    var n := Page(a, b, q[0] as nat);
    assert m[pt][q[0]] == LeafEntry(n, k);
    if InKernel(n, k) {
      MadeEntry(3, n);
      assert MakeEntry(3, n) == m[pt][q[0]];
    }
  }

  lemma PdTranslates(m: Memory, pd: nat, a: nat, k: nat, own: set<nat>, q: Path)
    requires k <= 0x4000_0000 && PdOk(m, pd, a, k, own) && |q| == 2
    ensures Lookup(m, 2, pd, q) == Identity(Page(a, q[0] as nat, q[1] as nat), k, [7])
  {
    var e := m[pd][q[0]];
    assert PdEntryOk(m, e, a, q[0] as nat, k, own);
    if e != 0 {
      PtTranslates(m, Pfn(e), a, q[0] as nat, k, q[1..]);
    }
  }

  lemma PdptTranslates(m: Memory, pdpt: nat, k: nat, own: set<nat>, q: Path)
    requires k <= 0x4000_0000 && PdptOk(m, pdpt, k, own) && |q| == 3
    ensures Lookup(m, 3, pdpt, q) == Identity(Page(q[0] as nat, q[1] as nat, q[2] as nat), k, [7, 7])
  {
    var e := m[pdpt][q[0]];
    assert PdptEntryOk(m, e, q[0] as nat, k, own);
    if e != 0 {
      PdTranslates(m, Pfn(e), q[0] as nat, k, own, q[1..]);
    }
  }
}

/** remap_lower_kernel_range: the kernel's identity map in 4 KiB pages. */
module IdentityMap {
  import opened Paging
  import opened PageIndices
  import opened PageCopySpec
  import opened PhysicalMemory
  import opened IdentityMapSpec
  import opened Words

  /** How a loop of the source ends: out of frames, at its last index, or by the jump to mapping_end. */
  datatype Progress = Panic | Exhausted | MappingEnd

  /** The 32-bit unsigned product the source computes for the next address. */
  function LowerMapped(a: nat, b: nat, c: nat): nat {
    Wrap32(Page(a, b, c) * 4096)
  }

  /** Nothing before this point went past the kernel end, so 32 bits are enough for the next address. */
  predicate Reached(n: nat, k: nat) {
    n == 0 || InKernel(n - 1, k)
  }

  lemma LowerExact(a: nat, b: nat, c: nat, k: nat)
    requires k <= 0x4000_0000 && Reached(Page(a, b, c), k)
    ensures LowerMapped(a, b, c) == 4096 * Page(a, b, c)
  {
    Wrap32Exact(Page(a, b, c) * 4096);
  }

  /** The innermost loop. */
  method FillPt(ram: Ram, pt: nat, a: nat, b: nat, k: nat) returns (r: Progress)
    requires pt < |ram.mem| && AllZero(ram.mem[pt]) && k <= 0x4000_0000
    requires Reached(Page(a, b, 0), k)
    modifies ram`mem
    ensures |ram.mem| == |old(ram.mem)| && PtOk(ram.mem, pt, a, b, k)
    ensures forall x :: 0 <= x < |ram.mem| && x != pt ==> ram.mem[x] == old(ram.mem)[x]
    ensures r == (if InKernel(Page(a, b, 511), k) then Exhausted else MappingEnd)
  {
    var c := 0;
    while c < ENTRY_NUM
      invariant 0 <= c <= 512 && |ram.mem| == |old(ram.mem)|
      invariant Reached(Page(a, b, c), k) && (c > 0 ==> InKernel(Page(a, b, c - 1), k))
      invariant forall x :: 0 <= x < |ram.mem| && x != pt ==> ram.mem[x] == old(ram.mem)[x]
      invariant forall i: Index :: ram.mem[pt][i] == if i as nat < c then LeafEntry(Page(a, b, i as nat), k) else 0
    {
      var mapped := LowerMapped(a, b, c);
      LowerExact(a, b, c, k);
      if mapped > k {
        return MappingEnd;
      }
      ram.mem := ram.mem[pt := ram.mem[pt][c := mapped + 0x03]];
      c := c + 1;
    }
    r := Exhausted;
  }

  /** Writes only the given table and frames that were free. */
  ghost predicate WritesFresh(m: Memory, taken: set<nat>, table: nat, m': Memory, taken': set<nat>) {
    && |m'| == |m| && taken <= taken'
    && forall x :: x in taken && x < |m| && x != table ==> m'[x] == m[x]
  }

  /** Link a fresh zeroed table at entry i with flags 0x07; 0 when memory runs out. */
  method LinkTable(ram: Ram, table: nat, i: Index) returns (child: nat)
    requires ram.Valid() && table < |ram.mem| && table in ram.Taken()
    modifies ram`mem, ram.frames.words, ram.frames`used
    ensures ram.Valid() && |ram.mem| == |old(ram.mem)|
    ensures child == 0 ==> ram.mem == old(ram.mem) && ram.Taken() == old(ram.Taken()) && ram.OutOfFrames()
    ensures child != 0 ==>
              && child < |ram.mem| && child !in old(ram.Taken()) && ram.Taken() == old(ram.Taken()) + {child}
              && ram.mem == old(ram.mem)[child := ZeroFrame()][table := old(ram.mem)[table][i := MakeEntry(7, child)]]
  {
    var pa := ram.AllocPages(1);
    if pa.npages == 0 {
      return 0;
    }
    child := FrameOf(pa.page);
    ram.mem := ram.mem[table := ram.mem[table][i := pa.page - HIGHER_HALF_OFFSET + 0x07]];
  }

  lemma PageOrder(a: nat, b: nat, c: nat, b': nat)
    requires c < 512
    ensures b < b' ==> Page(a, b, c) < Page(a, b', 0)
    ensures Page(a, b, 511) + 1 == Page(a, b + 1, 0)
    ensures Page(a, 511, 511) + 1 == Page(a + 1, 0, 0)
  {
  }

  /** The middle loop. */
  method FillPd(ram: Ram, pd: nat, a: nat, k: nat) returns (r: Progress)
    requires ram.Valid() && pd < |ram.mem| && pd in ram.Taken() && AllZero(ram.mem[pd]) && k <= 0x4000_0000
    requires Reached(Page(a, 0, 0), k)
    modifies ram`mem, ram.frames.words, ram.frames`used
    ensures ram.Valid()
    ensures r == Panic ==> ram.OutOfFrames()
    ensures r != Panic ==> WritesFresh(old(ram.mem), old(ram.Taken()), pd, ram.mem, ram.Taken())
    ensures r != Panic ==> PdOk(ram.mem, pd, a, k, ram.Taken() - old(ram.Taken()))
    ensures r != Panic ==> (r == Exhausted <==> InKernel(Page(a, 511, 511), k))
  {
    var b := 0;
    r := Exhausted;
    while b < ENTRY_NUM && r == Exhausted
      invariant 0 <= b <= 512 && ram.Valid() && r != Panic
      invariant WritesFresh(old(ram.mem), old(ram.Taken()), pd, ram.mem, ram.Taken())
      invariant r == Exhausted && b > 0 ==> InKernel(Page(a, b - 1, 511), k)
      invariant r == MappingEnd ==> b > 0 && !InKernel(Page(a, b - 1, 511), k)
      invariant forall i: Index :: i as nat < b ==>
                  ram.mem[pd][i] != 0 && PdEntryOk(ram.mem, ram.mem[pd][i], a, i as nat, k, ram.Taken() - old(ram.Taken()))
      invariant forall i: Index :: b <= i as nat ==> ram.mem[pd][i] == 0
    {
      PageOrder(a, if b > 0 then b - 1 else 0, 0, b);
      ghost var m1, own1 := ram.mem, ram.Taken() - old(ram.Taken());
      r := AddPt(ram, pd, a, b, k, own1);
      if r == Panic {
        return;
      }
      forall i: Index | i as nat < b
        ensures PdEntryOk(ram.mem, ram.mem[pd][i], a, i as nat, k, ram.Taken() - old(ram.Taken()))
      {
        PtStable(m1, ram.mem, m1[pd][i], a, i as nat, k, own1, ram.Taken() - old(ram.Taken()));
      }
      b := b + 1;
    }
    PdRest(ram.mem, pd, a, b, k, ram.Taken() - old(ram.Taken()), r);
  }

  /** One iteration of the middle loop. */
  method AddPt(ram: Ram, pd: nat, a: nat, b: nat, k: nat, ghost own: set<nat>) returns (r: Progress)
    requires ram.Valid() && pd < |ram.mem| && pd in ram.Taken() && k <= 0x4000_0000
    requires b < 512 && Reached(Page(a, b, 0), k) && own <= ram.Taken()
    modifies ram`mem, ram.frames.words, ram.frames`used
    ensures ram.Valid()
    ensures r == Panic ==> ram.OutOfFrames()
    ensures r != Panic ==> WritesFresh(old(ram.mem), old(ram.Taken()), pd, ram.mem, ram.Taken())
    ensures r != Panic ==> forall i: Index :: i as nat != b ==> ram.mem[pd][i] == old(ram.mem)[pd][i]
    ensures r != Panic ==>
              && ram.mem[pd][b] != 0
              && PdEntryOk(ram.mem, ram.mem[pd][b], a, b, k, own + (ram.Taken() - old(ram.Taken())))
    ensures r != Panic ==> (r == Exhausted <==> InKernel(Page(a, b, 511), k))
  {
    var pt := LinkTable(ram, pd, b as Index);
    if pt == 0 {
      return Panic;
    }
    MadeEntry(7, pt);
    r := FillPt(ram, pt, a, b, k);
  }

  /** The entries after the last one made are absent, as they should be. */
  lemma PdRest(m: Memory, pd: nat, a: nat, b: nat, k: nat, made: set<nat>, r: Progress)
    requires k <= 0x4000_0000 && pd < |m| && 0 < b <= 512 && (r == MappingEnd || b == 512) && r != Panic
    requires r == Exhausted <==> InKernel(Page(a, b - 1, 511), k)
    requires forall i: Index :: i as nat < b ==> PdEntryOk(m, m[pd][i], a, i as nat, k, made)
    requires forall i: Index :: b <= i as nat ==> m[pd][i] == 0
    ensures PdOk(m, pd, a, k, made) && (r == Exhausted <==> InKernel(Page(a, 511, 511), k))
  {
    forall i: Index
      ensures PdEntryOk(m, m[pd][i], a, i as nat, k, made)
    {
      if b <= i as nat {
        PageOrder(a, b - 1, 511, i as nat);
      }
    }
    if b < 512 {
      PageOrder(a, b - 1, 511, 511);
    }
  }

  /** The outer loop. */
  method FillPdpt(ram: Ram, pdpt: nat, k: nat) returns (r: Progress)
    requires ram.Valid() && pdpt < |ram.mem| && pdpt in ram.Taken() && AllZero(ram.mem[pdpt]) && k <= 0x4000_0000
    modifies ram`mem, ram.frames.words, ram.frames`used
    ensures ram.Valid()
    ensures r == Panic ==> ram.OutOfFrames()
    ensures r != Panic ==> WritesFresh(old(ram.mem), old(ram.Taken()), pdpt, ram.mem, ram.Taken())
    ensures r != Panic ==> PdptOk(ram.mem, pdpt, k, ram.Taken() - old(ram.Taken()))
  {
    var a := 0;
    r := Exhausted;
    while a < ENTRY_NUM && r == Exhausted
      invariant 0 <= a <= 512 && ram.Valid() && r != Panic
      invariant WritesFresh(old(ram.mem), old(ram.Taken()), pdpt, ram.mem, ram.Taken())
      invariant r == Exhausted && a > 0 ==> InKernel(Page(a - 1, 511, 511), k)
      invariant r == MappingEnd ==> a > 0 && !InKernel(Page(a - 1, 511, 511), k)
      invariant forall i: Index :: i as nat < a ==>
                  ram.mem[pdpt][i] != 0 && PdptEntryOk(ram.mem, ram.mem[pdpt][i], i as nat, k, ram.Taken() - old(ram.Taken()))
      invariant forall i: Index :: a <= i as nat ==> ram.mem[pdpt][i] == 0
    {
      PageOrder(if a > 0 then a - 1 else 0, 0, 0, 0);
      ghost var m1, own1 := ram.mem, ram.Taken() - old(ram.Taken());
      r := AddPd(ram, pdpt, a, k, own1);
      if r == Panic {
        return;
      }
      forall i: Index | i as nat < a
        ensures PdptEntryOk(ram.mem, ram.mem[pdpt][i], i as nat, k, ram.Taken() - old(ram.Taken()))
      {
        PdStable(m1, ram.mem, Pfn(m1[pdpt][i]), i as nat, k, own1, ram.Taken() - old(ram.Taken()));
      }
      a := a + 1;
    }
    forall i: Index
      ensures PdptEntryOk(ram.mem, ram.mem[pdpt][i], i as nat, k, ram.Taken() - old(ram.Taken()))
    {
      if a <= i as nat {
        assert Page(a - 1, 511, 511) < Page(i as nat, 0, 0);
      }
    }
  }

  /** One iteration of the outer loop. */
  method AddPd(ram: Ram, pdpt: nat, a: nat, k: nat, ghost own: set<nat>) returns (r: Progress)
    requires ram.Valid() && pdpt < |ram.mem| && pdpt in ram.Taken() && k <= 0x4000_0000
    requires a < 512 && Reached(Page(a, 0, 0), k) && own <= ram.Taken()
    modifies ram`mem, ram.frames.words, ram.frames`used
    ensures ram.Valid()
    ensures r == Panic ==> ram.OutOfFrames()
    ensures r != Panic ==> WritesFresh(old(ram.mem), old(ram.Taken()), pdpt, ram.mem, ram.Taken())
    ensures r != Panic ==> forall i: Index :: i as nat != a ==> ram.mem[pdpt][i] == old(ram.mem)[pdpt][i]
    ensures r != Panic ==>
              && ram.mem[pdpt][a] != 0
              && PdptEntryOk(ram.mem, ram.mem[pdpt][a], a, k, own + (ram.Taken() - old(ram.Taken())))
    ensures r != Panic ==> (r == Exhausted <==> InKernel(Page(a, 511, 511), k))
  {
    var pd := LinkTable(ram, pdpt, a as Index);
    if pd == 0 {
      return Panic;
    }
    ghost var m1, taken1 := ram.mem, ram.Taken();
    assert m1[pdpt][a] == MakeEntry(7, pd);
    r := FillPd(ram, pd, a, k);
    if r != Panic {
      assert ram.mem[pdpt] == m1[pdpt];
      MadePd(ram.mem, pdpt, a, pd, k, ram.Taken() - taken1, own + (ram.Taken() - old(ram.Taken())));
    }
  }

  lemma MadePd(m: Memory, pdpt: nat, a: nat, pd: nat, k: nat, own: set<nat>, own': set<nat>)
    requires k <= 0x4000_0000 && pdpt < |m| && a < 512 && pd < 0x10_0000_0000
    requires m[pdpt][a] == MakeEntry(7, pd) && PdOk(m, pd, a, k, own) && own <= own' && pd in own'
    ensures m[pdpt][a] != 0 && PdptEntryOk(m, m[pdpt][a], a, k, own')
  {
    MadeEntry(7, pd);
    PdStable(m, m, pd, a, k, own, own');
  }

  /** The map's page-directory-pointer table and everything below it, in frames that were free; 0 on panic. */
  method BuildLowerMap(ram: Ram, k: nat) returns (pdpt: nat, ghost own: set<nat>)
    requires ram.Valid() && k <= 0x4000_0000
    modifies ram`mem, ram.frames.words, ram.frames`used
    ensures ram.Valid()
    ensures pdpt == 0 ==> ram.OutOfFrames()
    ensures pdpt != 0 ==>
              && pdpt < |ram.mem| == |old(ram.mem)| && pdpt !in old(ram.Taken()) && own !! old(ram.Taken())
              && PdptOk(ram.mem, pdpt, k, own)
              && forall x :: x in old(ram.Taken()) && x < |ram.mem| ==> ram.mem[x] == old(ram.mem)[x]
  {
    own := {};
    var pa := ram.AllocPages(1);
    if pa.npages == 0 {
      return 0, {};
    }
    pdpt := FrameOf(pa.page);
    ghost var taken1 := ram.Taken();
    var r := FillPdpt(ram, pdpt, k);
    if r == Panic {
      return 0, {};
    }
    own := ram.Taken() - taken1;
  }

  /** The identity map in addresses: all of the kernel's bytes, to themselves, and no page that starts beyond them. */
  lemma IdentityAddress(address: nat, k: nat)
    requires address < 0x80_0000_0000
    ensures PathOf(address)[0] == 0
    ensures var t := Identity(PageNumber(PathOf(address)), k, [7, 7, 7]);
            && (address <= k ==> t == SmallPage([7, 7, 7, 3], address / 4096))
            && (address - address % 4096 > k ==> t == Unmapped)
  {
    LowPageNumber(address);
  }

  lemma HigherSlot(address: nat)
    requires 0x80_0000_0000 <= address < 0x1_0000_0000_0000
    ensures PathOf(address)[0] != 0
  {
  }

  /** The boot tables outside slot 0 are in frames in use and do not lead back to the top-level table. */
  ghost predicate BootTables(m: Memory, root: nat, taken: set<nat>) {
    && root < |m| && root in taken
    && forall i: Index :: i != 0 && KindOf(4, m[root][i]) == Link ==> SourceTree(m, 3, Pfn(m[root][i]), taken - {root})
  }

  lemma RemapTranslates(m0: Memory, taken: set<nat>, m: Memory, root: nat, pdpt: nat, k: nat, own: set<nat>, q: Path)
    requires BootTables(m0, root, taken) && |m| == |m0| && |q| == 4
    requires forall x :: x in taken && x < |m| && x != root ==> m[x] == m0[x]
    requires 0 < pdpt < 0x10_0000_0000 && m[root] == m0[root][0 := MakeEntry(7, pdpt)]
    requires k <= 0x4000_0000 && PdptOk(m, pdpt, k, own)
    ensures Lookup(m, 4, root, q) ==
            if q[0] == 0 then Identity(PageNumber(q), k, [7, 7, 7]) else Lookup(m0, 4, root, q)
  {
    if q[0] == 0 {
      MadeEntry(7, pdpt);
      PdptTranslates(m, pdpt, k, own, q[1..]);
    } else if KindOf(4, m0[root][q[0]]) == Link {
      SourceStable(m0, m, 3, Pfn(m0[root][q[0]]), taken - {root}, q[1..]);
    }
  }

  /**
   * remap_lower_kernel_range, given the boot page table in cr3. Afterwards slot 0 maps exactly the
   * pages up to the kernel end, each to itself, and every other slot translates as before.
   */
  method RemapLowerKernelRange(ram: Ram, cr3: Word, kernelEnd: nat) returns (r: Progress)
    requires ram.Valid() && BootTables(ram.mem, Pfn(cr3), ram.Taken())
    modifies ram`mem, ram.frames.words, ram.frames`used
    ensures ram.Valid()
    ensures kernelEnd < HIGHER_HALF_OFFSET || kernelEnd - HIGHER_HALF_OFFSET > 0x4000_0000 ==> r == Panic
    ensures r == Panic ==>
              kernelEnd < HIGHER_HALF_OFFSET || kernelEnd - HIGHER_HALF_OFFSET > 0x4000_0000 || ram.OutOfFrames()
    ensures r != Panic ==> forall q: Path :: |q| == 4 ==>
              Lookup(ram.mem, 4, Pfn(cr3), q) ==
              if q[0] == 0 then Identity(PageNumber(q), kernelEnd - HIGHER_HALF_OFFSET, [7, 7, 7])
              else Lookup(old(ram.mem), 4, Pfn(cr3), q)
    // in addresses: the kernel's bytes are mapped to themselves, and no page that starts beyond them is mapped
    ensures r != Panic ==> forall address: nat :: address < 0x80_0000_0000 ==>
              && (address <= kernelEnd - 0xffff_ffff_8000_0000 ==>
                    Lookup(ram.mem, 4, Pfn(cr3), PathOf(address)) == SmallPage([7, 7, 7, 3], address / 4096))
              && (address - address % 4096 > kernelEnd - 0xffff_ffff_8000_0000 ==>
                    Lookup(ram.mem, 4, Pfn(cr3), PathOf(address)) == Unmapped)
    ensures r != Panic ==> forall address: nat :: 0x80_0000_0000 <= address < 0x1_0000_0000_0000 ==>
              Lookup(ram.mem, 4, Pfn(cr3), PathOf(address)) == Lookup(old(ram.mem), 4, Pfn(cr3), PathOf(address))
  {
    if kernelEnd < HIGHER_HALF_OFFSET || kernelEnd - HIGHER_HALF_OFFSET > 1024 * 1024 * 1024 {
      return Panic;
    }
    var root, k := Pfn(cr3), kernelEnd - HIGHER_HALF_OFFSET;
    ghost var m0, taken0 := ram.mem, ram.Taken();
    var pdpt;
    ghost var own;
    pdpt, own := BuildLowerMap(ram, k);
    if pdpt == 0 {
      return Panic;
    }
    ghost var m1 := ram.mem;
    MadeEntry(7, pdpt);
    var entry: Word := KernelAddress(pdpt) - HIGHER_HALF_OFFSET + 0x07;
    assert entry == MakeEntry(7, pdpt);
    assert m1[root] == m0[root];
    ram.mem := ram.mem[root := ram.mem[root][0 := entry]];
    PdptStable(m1, ram.mem, pdpt, k, own);
    forall q: Path | |q| == 4
      ensures Lookup(ram.mem, 4, root, q) ==
              if q[0] == 0 then Identity(PageNumber(q), k, [7, 7, 7]) else Lookup(m0, 4, root, q)
    {
      RemapTranslates(m0, taken0, ram.mem, root, pdpt, k, own, q);
    }
    forall address: nat | address < 0x80_0000_0000
      ensures address <= k ==> Lookup(ram.mem, 4, root, PathOf(address)) == SmallPage([7, 7, 7, 3], address / 4096)
      ensures address - address % 4096 > k ==> Lookup(ram.mem, 4, root, PathOf(address)) == Unmapped
    {
      IdentityAddress(address, k);
    }
    forall address: nat | 0x80_0000_0000 <= address < 0x1_0000_0000_0000
      ensures Lookup(ram.mem, 4, root, PathOf(address)) == Lookup(m0, 4, root, PathOf(address))
    {
      HigherSlot(address);
    }
    r := MappingEnd;
  }
}
