/** Whole runs of page faults: loading pages on demand gives what loading the file eagerly would. */
module LazyLoading {
  import opened Paging
  import opened PageGrowth
  import opened PageIndices
  import opened PageBytes
  import opened DemandPagingSpec
  import opened PageCopySpec

  /** Any sequence of handled faults, in any order. */
  ghost predicate FaultRun(mm: Mm, states: seq<State>, addresses: seq<nat>) {
    && |states| == |addresses| + 1
    && forall k :: 0 <= k < |addresses| ==> FaultStep(mm, states[k], addresses[k], states[k + 1])
  }

  /** Areas as the ELF loader is meant to make them: page-aligned starts, and no page shared by two areas. */
  ghost predicate AreasOk(vmas: seq<Vma>) {
    && (forall k :: 0 <= k < |vmas| ==> vmas[k].start % 4096 == 0 && vmas[k].end <= 0x1_0000_0000_0000)
    && (forall i, j, a: nat, b: nat :: 0 <= i < j < |vmas| && Covers(vmas[i], a) && Covers(vmas[j], b) ==>
          a / 4096 != b / 4096)
  }

  /** The area an address belongs to, -1 if none. */
  function AreaIndex(vmas: seq<Vma>, address: nat): (k: int)
    ensures -1 <= k < |vmas| && (k != -1 ==> Covers(vmas[k], address))
  {
    if vmas == [] then -1
    else if Covers(vmas[|vmas| - 1], address) then |vmas| - 1
    else AreaIndex(vmas[..|vmas| - 1], address)
  }

  lemma {:induction false} AreaIndexUnique(vmas: seq<Vma>, address: nat, k: int)
    ensures IsAreaOf(vmas, address, k) <==> k == AreaIndex(vmas, address) && k != -1
  {
    if vmas != [] && !Covers(vmas[|vmas| - 1], address) {
      var front := vmas[..|vmas| - 1];
      AreaIndexUnique(front, address, k);
      assert forall j :: 0 <= j < |front| ==> front[j] == vmas[j];
    }
  }

  /** The process image: what eager loading of every area would put at an address. */
  function ImageByte(mm: Mm, address: nat): Byte {
    var k := AreaIndex(mm.vmas, address);
    if k == -1 then 0 else mm.elf(mm.vmas[k].pgoff + address - mm.vmas[k].start)
  }

  ghost predicate HoldsImage(mm: Mm, page: nat, f: Frame) {
    forall j: nat :: j < 4096 ==> PageByte(f, j) == ImageByte(mm, page + j)
  }

  lemma {:induction false} NoneCovers(vmas: seq<Vma>, address: nat, k: nat)
    requires AreaIndex(vmas, address) == -1 && k < |vmas|
    ensures !Covers(vmas[k], address)
  {
    if k < |vmas| - 1 {
      NoneCovers(vmas[..|vmas| - 1], address, k);
    }
  }

  /** All addresses of one page belong to the same area, or to none. */
  lemma SamePageSameArea(vmas: seq<Vma>, a: nat, k: int, b: nat)
    requires AreasOk(vmas) && IsAreaOf(vmas, a, k) && a / 4096 == b / 4096
    ensures AreaIndex(vmas, b) == if Covers(vmas[k], b) then k else -1
  {
    var l := AreaIndex(vmas, b);
    if l == -1 {
      NoneCovers(vmas, b, k);
    } else if l != k {
      assert false;
    }
  }

  /** The page that one fault fills is a page of the process image. */
  lemma FaultFillsImage(mm: Mm, address: nat, k: int, f: Frame)
    requires AreasOk(mm.vmas) && IsAreaOf(mm.vmas, address, k)
    requires Filled(mm.elf, mm.vmas[k], PageStart(address), f)
    ensures HoldsImage(mm, PageStart(address), f)
  {
    var v, page := mm.vmas[k], PageStart(address);
    assert v.start <= page;
    forall j: nat | j < 4096
      ensures PageByte(f, j) == ImageByte(mm, page + j)
    {
      FaultLoadsFile(mm.elf, v, page, j);
      assert (page + j) / 4096 == address / 4096;
      SamePageSameArea(mm.vmas, address, k, page + j);
    }
  }

  /** Whether page q is among the faulting addresses. */
  ghost predicate Touched(addresses: seq<nat>, q: Path) {
    exists k :: 0 <= k < |addresses| && PathOf(addresses[k]) == q
  }

  lemma TouchedSnoc(addresses: seq<nat>, n: nat, q: Path)
    requires 0 < n <= |addresses|
    ensures Touched(addresses[..n], q) <==> Touched(addresses[..n - 1], q) || PathOf(addresses[n - 1]) == q
  {
    var before, after := addresses[..n - 1], addresses[..n];
    assert forall k :: 0 <= k < n - 1 ==> before[k] == after[k];
    assert after[n - 1] == addresses[n - 1];
  }

  /** The address of a page, and that it is the start of the page of any address on its path. */
  lemma PageOfAddress(mm: Mm, address: nat, k: int)
    requires AreasOk(mm.vmas) && IsAreaOf(mm.vmas, address, k)
    ensures 4096 * PageNumber(PathOf(address)) == PageStart(address)
  {
    IndicesReconstruct(address);
  }

  /** How page q stands in state s after faults that touched it or not, starting from s0. */
  ghost predicate PageStands(mm: Mm, s0: State, s: State, q: Path, touched: bool)
    requires |q| == 4
  {
    var root := Pfn(mm.pgd);
    var t0, t := Lookup(s0.m, 4, root, q), Lookup(s.m, 4, root, q);
    && FilledFlags(s.m, 4, root, q) == FilledFlags(s0.m, 4, root, q)
    && (t.SmallPage? ==> t.frame < |s.m|)
    && (t0.SmallPage? ==> t0.frame < |s0.m|)
    && (!touched || t0 != Unmapped ==> t == t0)
    && (t0.SmallPage? ==> s.m[t0.frame] == s0.m[t0.frame])
    && (touched && t0 == Unmapped ==>
          && t.SmallPage? && t.flags == FilledFlags(s0.m, 4, root, q)
          && HoldsImage(mm, 4096 * PageNumber(q), s.m[t.frame]))
  }

  /** A mapped page's frame is a leaf of the tree, so a later fault leaves its bytes alone. */
  lemma LeafSurvives(root: nat, s: State, s': State, q: Path)
    requires |q| == 4 && Sound(root, s) && Footprint(s, s') && Lookup(s.m, 4, root, q).SmallPage?
    ensures var x := Lookup(s.m, 4, root, q).frame; x < |s.m| && s'.m[x] == s.m[x]
  {
    MappedFlags(s.m, 4, root, q);
    LabelIsPath(s.m, 4, root, [], s.pos, q);
    assert [] + q == q;
  }

  lemma FaultKeepsPage(mm: Mm, s0: State, s: State, q: Path, touched: bool, address: nat, s': State)
    requires |q| == 4 && AreasOk(mm.vmas)
    requires PageStands(mm, s0, s, q, touched) && FaultStep(mm, s, address, s')
    ensures PageStands(mm, s0, s', q, touched || PathOf(address) == q)
  {
    var root := Pfn(mm.pgd);
    var t, t' := Lookup(s.m, 4, root, q), Lookup(s'.m, 4, root, q);
    if t.SmallPage? {
      LeafSurvives(root, s, s', q);
    }
    if PathOf(address) == q && t == Unmapped {
      var k :| IsAreaOf(mm.vmas, address, k);
      FaultFillsImage(mm, address, k, s'.m[t'.frame]);
      PageOfAddress(mm, address, k);
      MappedFlags(s'.m, 4, root, q);
    } else if PathOf(address) == q && t.SmallPage? {
      assert t' == t;
    }
  }

  /** Every page of every state of a run: untouched pages stay, touched pages hold their part of the image. */
  lemma {:induction false} LazyEqualsEager(mm: Mm, states: seq<State>, addresses: seq<nat>, n: nat, q: Path)
    requires FaultRun(mm, states, addresses) && AreasOk(mm.vmas) && n <= |addresses| && |q| == 4
    requires Sound(Pfn(mm.pgd), states[0])
    ensures PageStands(mm, states[0], states[n], q, Touched(addresses[..n], q))
  {
    if n == 0 {
      if Lookup(states[0].m, 4, Pfn(mm.pgd), q).SmallPage? {
        LeafSurvives(Pfn(mm.pgd), states[0], states[0], q);
      }
    } else {
      LazyEqualsEager(mm, states, addresses, n - 1, q);
      FaultKeepsPage(mm, states[0], states[n - 1], q, Touched(addresses[..n - 1], q), addresses[n - 1], states[n]);
      TouchedSnoc(addresses, n, q);
    }
  }

  lemma {:induction false} BytesDetermineWord(w: nat, v: nat, n: nat)
    requires w < Pow256(n) && v < Pow256(n)
    requires forall k: nat :: k < n ==> GetByte(w, k) == GetByte(v, k)
    ensures w == v
  {
    if n > 0 {
      assert GetByte(w, 0) == GetByte(v, 0);
      forall k: nat | k < n - 1
        ensures GetByte(w / 256, k) == GetByte(v / 256, k)
      {
        assert GetByte(w, k + 1) == GetByte(v, k + 1);
      }
      BytesDetermineWord(w / 256, v / 256, n - 1);
    }
  }

  lemma BytesDeterminePage(f: Frame, g: Frame)
    requires forall j: nat :: j < 4096 ==> PageByte(f, j) == PageByte(g, j)
    ensures f == g
  {
    assert Pow256(8) == 0x1_0000_0000_0000_0000 by {
      assert Pow256(4) == 0x1_0000_0000;
    }
    forall i | 0 <= i < 512
      ensures f[i] == g[i]
    {
      forall k: nat | k < 8
        ensures GetByte(f[i], k) == GetByte(g[i], k)
      {
        assert (8 * i + k) / 8 == i && (8 * i + k) % 8 == k;
        assert PageByte(f, 8 * i + k) == PageByte(g, 8 * i + k);
      }
      BytesDetermineWord(f[i], g[i], 8);
    }
  }

  /** The order of faults does not matter: two runs that touch the same pages end with the same mapping and bytes. */
  lemma FaultOrderIrrelevant(mm: Mm, statesA: seq<State>, addressesA: seq<nat>,
                             statesB: seq<State>, addressesB: seq<nat>, q: Path)
    requires FaultRun(mm, statesA, addressesA) && FaultRun(mm, statesB, addressesB) && AreasOk(mm.vmas)
    requires statesA[0] == statesB[0] && Sound(Pfn(mm.pgd), statesA[0]) && |q| == 4
    requires Touched(addressesA, q) <==> Touched(addressesB, q)
    ensures
      var a, b := statesA[|addressesA|], statesB[|addressesB|];
      SameTranslation(a.m, Lookup(a.m, 4, Pfn(mm.pgd), q), b.m, Lookup(b.m, 4, Pfn(mm.pgd), q))
  {
    LazyEqualsEager(mm, statesA, addressesA, |addressesA|, q);
    LazyEqualsEager(mm, statesB, addressesB, |addressesB|, q);
    assert addressesA[..|addressesA|] == addressesA && addressesB[..|addressesB|] == addressesB;
    var root := Pfn(mm.pgd);
    var a, b := statesA[|addressesA|], statesB[|addressesB|];
    var ta, tb := Lookup(a.m, 4, root, q), Lookup(b.m, 4, root, q);
    if Touched(addressesA, q) && Lookup(statesA[0].m, 4, root, q) == Unmapped {
      forall j: nat | j < 4096
        ensures PageByte(a.m[ta.frame], j) == PageByte(b.m[tb.frame], j)
      {
        assert PageByte(a.m[ta.frame], j) == ImageByte(mm, 4096 * PageNumber(q) + j);
      }
      BytesDeterminePage(a.m[ta.frame], b.m[tb.frame]);
    }
  }
}
