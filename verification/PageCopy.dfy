/** What it means for one page-table tree to be a private copy of another. */
module PageCopySpec {
  import opened Paging

  /**
   * A source tree fit for copying: every frame it reaches lies in `keep`, frames the allocator
   * will not hand out, and no top-level entry has the PS bit (which is reserved there).
   * Source tables and pages may be shared; the copy never is.
   */
  ghost predicate SourceTree(m: Memory, level: nat, f: nat, keep: set<nat>)
    decreases level
  {
    && f < |m| && f in keep
    && (level > 0 ==>
          forall i: Index :: KindOf(level, m[f][i]) == Link ==>
            && (level == 4 ==> !IsHugePage(m[f][i]))
            && SourceTree(m, level - 1, Pfn(m[f][i]), keep))
  }

  /** Of a link's bits a copy keeps the three low flags only; the rest is the new frame's address. */
  ghost predicate CopiedLink(e0: Word, e: Word) {
    LowFlags(e) == LowFlags(e0) && e == MakeEntry(LowFlags(e0), Pfn(e))
  }

  /** The tree at d in m is an entry-for-entry copy of the tree at s in m0, down to the page contents. */
  ghost predicate CopyOf(m0: Memory, level: nat, s: nat, m: Memory, d: nat)
    decreases level
  {
    && s < |m0| && d < |m|
    && if level == 0 then m[d] == m0[s]
       else forall i: Index ::
              && KindOf(level, m[d][i]) == KindOf(level, m0[s][i])
              && (KindOf(level, m0[s][i]) == Huge ==> m[d][i] == m0[s][i])
              && (KindOf(level, m0[s][i]) == Link ==>
                    && CopiedLink(m0[s][i], m[d][i])
                    && CopyOf(m0, level - 1, Pfn(m0[s][i]), m, Pfn(m[d][i])))
  }

  /** Same mapping state, same low flags at every level, same page bytes; huge entries identical. */
  ghost predicate SameTranslation(m0: Memory, t0: Translation, m: Memory, t: Translation) {
    match t0
    case Unmapped => t == Unmapped
    case HugePage(_, _) => t == t0
    case SmallPage(fs, f) => t.SmallPage? && t.flags == fs && f < |m0| && t.frame < |m| && m[t.frame] == m0[f]
  }

  /** A copy translates every page as its source does. */
  lemma {:induction false} CopyTranslates(m0: Memory, level: nat, s: nat, m: Memory, d: nat, path: Path)
    requires CopyOf(m0, level, s, m, d) && |path| == level
    ensures SameTranslation(m0, Lookup(m0, level, s, path), m, Lookup(m, level, d, path))
    decreases level
  {
    if level > 0 {
      var i: Index := path[0];
      assert KindOf(level, m[d][i]) == KindOf(level, m0[s][i]);
      if KindOf(level, m0[s][i]) == Link {
        CopyTranslates(m0, level - 1, Pfn(m0[s][i]), m, Pfn(m[d][i]), path[1..]);
      }
    }
  }

  /** Conversely, the copy maps nothing that the source does not. */
  lemma CopyMapsNothingMore(m0: Memory, s: nat, m: Memory, d: nat, path: Path)
    requires CopyOf(m0, 4, s, m, d) && |path| == 4
    ensures Lookup(m, 4, d, path) == Unmapped <==> Lookup(m0, 4, s, path) == Unmapped
  {
    CopyTranslates(m0, 4, s, m, d, path);
  }

  lemma {:induction false} CopyReach(m0: Memory, level: nat, s: nat, m: Memory, d: nat, p: Path)
    requires CopyOf(m0, level, s, m, d) && |p| <= level && Reach(m0, level, s, p) != -1
    ensures Reach(m, level, d, p) != -1
    ensures CopyOf(m0, level - |p|, Reach(m0, level, s, p), m, Reach(m, level, d, p))
    decreases level
  {
    if p != [] {
      var i: Index := p[0];
      assert KindOf(level, m[d][i]) == KindOf(level, m0[s][i]);
      CopyReach(m0, level - 1, Pfn(m0[s][i]), m, Pfn(m[d][i]), p[1..]);
    }
  }

  /**
   * Entry by entry, in bits: in the copy of any table of the source a zero entry is zero, an entry of
   * the two middle levels with bit 7 set is the same word, and any other holds the three low flags of
   * the source entry and a frame that was free, whatever else is set in the source entry.
   */
  lemma CopiedEntry(m0: Memory, s: nat, m: Memory, d: nat, pos: map<nat, Path>, taken: set<nat>,
                    p: Path, i: Index, f: Fields)
    requires CopyOf(m0, 4, s, m, d) && Labelled(m, 4, d, [], pos) && pos.Keys !! taken
    requires |p| < 4 && Reach(m0, 4, s, p) != -1 && InRange(f)
    ensures Reach(m0, 4, s, p) < |m0| && 0 <= Reach(m, 4, d, p) < |m| && Reach(m, 4, d, p) !in taken
    ensures m0[Reach(m0, 4, s, p)][i] == Assemble(f) ==>
              var e := m[Reach(m, 4, d, p)][i];
              if Assemble(f) == 0 || (f.ps == 1 && (|p| == 1 || |p| == 2)) then e == Assemble(f)
              else e == f.flags + 4096 * Pfn(e) && Pfn(e) < |m| && Pfn(e) !in taken
  {
    CopyReach(m0, 4, s, m, d, p);
    LabelIsPath(m, 4, d, [], pos, p);
    var t, u, level := Reach(m0, 4, s, p), Reach(m, 4, d, p), 4 - |p|;
    var e0, e := m0[t][i], m[u][i];
    assert KindOf(level, e) == KindOf(level, e0);
    if e0 == Assemble(f) && e0 != 0 {
      KindByBits(level, f);
      EntryFields(f);
      if KindOf(level, e) == Link {
        LinkedFrame(m, d, pos, p, i);
      }
    }
  }

  /** A link in a table of a separated tree names a labelled frame. */
  lemma LinkedFrame(m: Memory, d: nat, pos: map<nat, Path>, p: Path, i: Index)
    requires Labelled(m, 4, d, [], pos) && |p| < 4 && 0 <= Reach(m, 4, d, p) < |m|
    requires KindOf(4 - |p|, m[Reach(m, 4, d, p)][i]) == Link
    ensures Pfn(m[Reach(m, 4, d, p)][i]) < |m| && Pfn(m[Reach(m, 4, d, p)][i]) in pos
  {
    ReachTwice(m, 4, d, p, i);
    LabelIsPath(m, 4, d, [], pos, p + [i]);
  }

  /** A source tree is read the same in any memory that agrees on the kept frames. */
  lemma {:induction false} SourceStable(m0: Memory, m: Memory, level: nat, s: nat, keep: set<nat>, path: Path)
    requires SourceTree(m0, level, s, keep) && |path| == level && |m| == |m0|
    requires forall x :: x in keep && x < |m0| ==> m[x] == m0[x]
    ensures Lookup(m, level, s, path) == Lookup(m0, level, s, path)
    decreases level
  {
    if level > 0 && KindOf(level, m0[s][path[0]]) == Link {
      SourceStable(m0, m, level - 1, Pfn(m0[s][path[0]]), keep, path[1..]);
    }
  }

  /** Writes that miss the copy's labelled frames leave it a copy. */
  lemma {:induction false} CopyStable(m0: Memory, level: nat, s: nat, m: Memory, m': Memory, d: nat,
                                      place: Path, pos: map<nat, Path>)
    requires CopyOf(m0, level, s, m, d) && Labelled(m, level, d, place, pos) && AgreeBelow(m, m', place, pos)
    ensures CopyOf(m0, level, s, m', d)
    decreases level
  {
    assert place <= pos[d];
    assert m'[d] == m[d];
    if level > 0 {
      forall i: Index | KindOf(level, m0[s][i]) == Link
        ensures CopyOf(m0, level - 1, Pfn(m0[s][i]), m', Pfn(m[d][i]))
      {
        assert KindOf(level, m[d][i]) == KindOf(level, m0[s][i]);
        AgreeDeeper(m, m', place, i, pos);
        CopyStable(m0, level - 1, Pfn(m0[s][i]), m, m', Pfn(m[d][i]), place + [i], pos);
      }
    }
  }

  /** Entry i of table d has been copied: it matches the source entry and what it links to is a labelled copy. */
  ghost predicate EntryDone(m0: Memory, level: nat, s: nat, m: Memory, d: nat, i: Index,
                            place: Path, pos: map<nat, Path>)
    requires level > 0 && s < |m0| && d < |m|
  {
    && KindOf(level, m[d][i]) == KindOf(level, m0[s][i])
    && (KindOf(level, m0[s][i]) == Huge ==> m[d][i] == m0[s][i])
    && (KindOf(level, m0[s][i]) == Link ==>
          && CopiedLink(m0[s][i], m[d][i])
          && CopyOf(m0, level - 1, Pfn(m0[s][i]), m, Pfn(m[d][i]))
          && Labelled(m, level - 1, Pfn(m[d][i]), place + [i], pos))
  }

  /** A table all of whose entries are done is a labelled copy. */
  lemma TableDone(m0: Memory, level: nat, s: nat, m: Memory, d: nat, place: Path, pos: map<nat, Path>)
    requires level > 0 && s < |m0| && d < |m| && d in pos && pos[d] == place
    requires forall i: Index :: EntryDone(m0, level, s, m, d, i, place, pos)
    ensures CopyOf(m0, level, s, m, d) && Labelled(m, level, d, place, pos)
  {
    forall i: Index | KindOf(level, m0[s][i]) == Link
      ensures CopiedLink(m0[s][i], m[d][i])
      ensures CopyOf(m0, level - 1, Pfn(m0[s][i]), m, Pfn(m[d][i]))
      ensures Labelled(m, level - 1, Pfn(m[d][i]), place + [i], pos)
    {
      assert EntryDone(m0, level, s, m, d, i, place, pos);
    }
    forall i: Index
      ensures KindOf(level, m[d][i]) == KindOf(level, m0[s][i])
      ensures KindOf(level, m0[s][i]) == Huge ==> m[d][i] == m0[s][i]
    {
      assert EntryDone(m0, level, s, m, d, i, place, pos);
    }
  }

  /** Later iterations write only table d itself and frames without a label yet, so finished entries stay done. */
  lemma EntryStaysDone(m0: Memory, level: nat, s: nat, m: Memory, m': Memory, d: nat, i: Index,
                       place: Path, pos: map<nat, Path>, pos': map<nat, Path>)
    requires level > 0 && s < |m0| && d < |m| == |m'|
    requires EntryDone(m0, level, s, m, d, i, place, pos)
    requires m'[d][i] == m[d][i] && d in pos && pos[d] == place
    requires forall x :: x in pos && x < |m| && x != d ==> m'[x] == m[x]
    requires Extends(pos, pos')
    ensures EntryDone(m0, level, s, m', d, i, place, pos')
  {
    if KindOf(level, m0[s][i]) == Link {
      CopyStable(m0, level - 1, Pfn(m0[s][i]), m, m', Pfn(m[d][i]), place + [i], pos);
      SubtreeFrame(m, m', level - 1, Pfn(m[d][i]), place + [i], pos, pos');
    }
  }
}

/** mm_dup_pgd: the deep copy of a process's page tables and pages. */
module PageCopy {
  import opened Paging
  import opened PageCopySpec
  import opened PhysicalMemory

  /** The state a copy in progress keeps: the source as it was, and labels for the frames copied so far. */
  ghost predicate Copying(m0: Memory, keep: set<nat>, m: Memory, taken: set<nat>, pos: map<nat, Path>) {
    && |m| == |m0|
    && keep <= taken && pos.Keys <= taken && pos.Keys !! keep
    && forall x :: x in keep && x < |m0| ==> m[x] == m0[x]
  }

  /** What one copying step may touch: table d, and frames that were free before. */
  ghost predicate OnlyFresh(m: Memory, taken: set<nat>, pos: map<nat, Path>, d: nat,
                            m': Memory, taken': set<nat>, pos': map<nat, Path>) {
    && |m'| == |m| && taken <= taken'
    && Extends(pos, pos')
    && (forall x :: x in pos' && x !in pos ==> x !in taken)
    && (forall x :: x in taken && x < |m| && x != d ==> m'[x] == m[x])
  }

  /** Steps compose when the second writes only the first's table or a frame the first found free. */
  lemma FreshThenFresh(m: Memory, taken: set<nat>, pos: map<nat, Path>, d: nat,
                       m1: Memory, taken1: set<nat>, pos1: map<nat, Path>, c: nat,
                       m2: Memory, taken2: set<nat>, pos2: map<nat, Path>)
    requires OnlyFresh(m, taken, pos, d, m1, taken1, pos1) && OnlyFresh(m1, taken1, pos1, c, m2, taken2, pos2)
    requires c == d || c !in taken
    ensures OnlyFresh(m, taken, pos, d, m2, taken2, pos2)
  {
  }

  /** Memory after a fresh child frame was linked at entry i of table d and filled from the source frame. */
  function Linked(m: Memory, d: nat, i: Index, entry: Word, child: nat, srcChild: nat): (m': Memory)
    requires d < |m| && child < |m| && srcChild < |m|
  {
    var m1 := m[d := m[d][i := entry]];
    m1[child := m1[srcChild]]
  }

  lemma LinkingIsFresh(m0: Memory, keep: set<nat>, m: Memory, taken: set<nat>, pos: map<nat, Path>,
                       d: nat, i: Index, entry: Word, child: nat, srcChild: nat, place: Path)
    requires Copying(m0, keep, m, taken, pos) && d in pos && d < |m| && child < |m| && srcChild < |m|
    requires child !in taken && srcChild in keep
    ensures
      var m1 := Linked(m[child := ZeroFrame()], d, i, entry, child, srcChild);
      var pos1 := pos[child := place];
      && Copying(m0, keep, m1, taken + {child}, pos1)
      && OnlyFresh(m, taken, pos, d, m1, taken + {child}, pos1)
      && m1[child] == m0[srcChild] && m1[d] == m[d][i := entry]
  {
  }

  /** One iteration of the copying loop at any of the four levels. */
  method DupEntry(ram: Ram, level: nat, src: nat, dst: nat, i: Index,
                  ghost m0: Memory, ghost keep: set<nat>, ghost place: Path, ghost pos: map<nat, Path>)
    returns (ok: bool, ghost pos': map<nat, Path>)
    requires ram.Valid() && 1 <= level <= 4
    requires SourceTree(m0, level, src, keep) && Copying(m0, keep, ram.mem, ram.Taken(), pos)
    requires dst < |ram.mem| && dst in pos && pos[dst] == place
    requires m0[src][i] == 0 ==> ram.mem[dst][i] == 0
    modifies ram`mem, ram.frames.words, ram.frames`used
    ensures ram.Valid() && |ram.mem| == |m0|
    ensures !ok ==> ram.OutOfFrames()
    ensures ok ==> Copying(m0, keep, ram.mem, ram.Taken(), pos')
    ensures ok ==> OnlyFresh(old(ram.mem), old(ram.Taken()), pos, dst, ram.mem, ram.Taken(), pos')
    ensures ok ==> forall j: Index :: j != i ==> ram.mem[dst][j] == old(ram.mem)[dst][j]
    ensures ok ==> EntryDone(m0, level, src, ram.mem, dst, i, place, pos')
    decreases level, 1
  {
    ok, pos' := true, pos;
    var entry := ram.mem[src][i];
    if entry == 0 {
      return;
    }
    if (level == 3 || level == 2) && IsHugePage(entry) {
      ram.mem := ram.mem[dst := ram.mem[dst][i := entry]];
      return;
    }
    ok, pos' := DupLink(ram, level, src, dst, i, m0, keep, place, pos);
  }

  /** Link a fresh frame at entry i and fill it with the bytes of the frame the source links to. */
  method LinkCopy(ram: Ram, level: nat, src: nat, dst: nat, i: Index,
                  ghost m0: Memory, ghost keep: set<nat>, ghost place: Path, ghost pos: map<nat, Path>)
    returns (child: nat)
    requires ram.Valid() && 1 <= level <= 4
    requires SourceTree(m0, level, src, keep) && Copying(m0, keep, ram.mem, ram.Taken(), pos)
    requires dst < |ram.mem| && dst in pos && pos[dst] == place
    requires KindOf(level, m0[src][i]) == Link
    modifies ram`mem, ram.frames.words, ram.frames`used
    ensures ram.Valid() && |ram.mem| == |m0|
    ensures child == 0 ==> ram.OutOfFrames()
    ensures child != 0 ==>
              var pos1 := pos[child := place + [i]];
              && child < |m0| && child !in old(ram.Taken())
              && Copying(m0, keep, ram.mem, ram.Taken(), pos1)
              && OnlyFresh(old(ram.mem), old(ram.Taken()), pos, dst, ram.mem, ram.Taken(), pos1)
              && ram.mem[child] == m0[Pfn(m0[src][i])]
              && (forall j: Index :: j != i ==> ram.mem[dst][j] == old(ram.mem)[dst][j])
              && KindOf(level, ram.mem[dst][i]) == Link && Pfn(ram.mem[dst][i]) == child
              && CopiedLink(m0[src][i], ram.mem[dst][i])
  {
    ghost var m, taken := ram.mem, ram.Taken();
    var entry := ram.mem[src][i];
    var pa := ram.AllocPages(1);
    if pa.npages == 0 {
      return 0;
    }
    child := FrameOf(pa.page);
    MadeEntry(LowFlags(entry), child);
    var entry' := LowFlags(entry) + (pa.page - HIGHER_HALF_OFFSET);
    assert entry' == MakeEntry(LowFlags(entry), child);
    LinkingIsFresh(m0, keep, m, taken, pos, dst, i, entry', child, Pfn(entry), place + [i]);
    ram.mem := ram.mem[dst := ram.mem[dst][i := entry']];
    ram.mem := ram.mem[child := ram.mem[Pfn(entry)]];
  }

  /** The part of an iteration that copies what a link points to: its frame, and the table below. */
  method DupLink(ram: Ram, level: nat, src: nat, dst: nat, i: Index,
                 ghost m0: Memory, ghost keep: set<nat>, ghost place: Path, ghost pos: map<nat, Path>)
    returns (ok: bool, ghost pos': map<nat, Path>)
    requires ram.Valid() && 1 <= level <= 4
    requires SourceTree(m0, level, src, keep) && Copying(m0, keep, ram.mem, ram.Taken(), pos)
    requires dst < |ram.mem| && dst in pos && pos[dst] == place
    requires KindOf(level, m0[src][i]) == Link
    modifies ram`mem, ram.frames.words, ram.frames`used
    ensures ram.Valid() && |ram.mem| == |m0|
    ensures !ok ==> ram.OutOfFrames()
    ensures ok ==> Copying(m0, keep, ram.mem, ram.Taken(), pos')
    ensures ok ==> OnlyFresh(old(ram.mem), old(ram.Taken()), pos, dst, ram.mem, ram.Taken(), pos')
    ensures ok ==> forall j: Index :: j != i ==> ram.mem[dst][j] == old(ram.mem)[dst][j]
    ensures ok ==> EntryDone(m0, level, src, ram.mem, dst, i, place, pos')
    decreases level, 0
  {
    ghost var m, taken := ram.mem, ram.Taken();
    var srcChild := Pfn(ram.mem[src][i]);
    var child := LinkCopy(ram, level, src, dst, i, m0, keep, place, pos);
    ok, pos' := child != 0, pos[child := place + [i]];
    if ok && level > 1 {
      ghost var m1, taken1, pos1 := ram.mem, ram.Taken(), pos';
      ok, pos' := DupTable(ram, level - 1, srcChild, child, m0, keep, place + [i], pos1);
      if ok {
        FreshThenFresh(m, taken, pos, dst, m1, taken1, pos1, child, ram.mem, ram.Taken(), pos');
        assert dst in taken1 && ram.mem[dst] == m1[dst];
      }
    }
  }

  /**
   * One of the four nested copying loops; the loop below it is the recursive call. At the top
   * level the test for a huge entry never fires, since the source tree has none there.
   */
  method DupTable(ram: Ram, level: nat, src: nat, dst: nat,
                  ghost m0: Memory, ghost keep: set<nat>, ghost place: Path, ghost pos: map<nat, Path>)
    returns (ok: bool, ghost pos': map<nat, Path>)
    requires ram.Valid() && 1 <= level <= 4
    requires SourceTree(m0, level, src, keep) && Copying(m0, keep, ram.mem, ram.Taken(), pos)
    requires dst < |ram.mem| && dst in pos && pos[dst] == place
    requires forall i: Index :: m0[src][i] == 0 ==> ram.mem[dst][i] == 0
    modifies ram`mem, ram.frames.words, ram.frames`used
    ensures ram.Valid() && |ram.mem| == |m0|
    ensures !ok ==> ram.OutOfFrames()
    ensures ok ==> Copying(m0, keep, ram.mem, ram.Taken(), pos')
    ensures ok ==> OnlyFresh(old(ram.mem), old(ram.Taken()), pos, dst, ram.mem, ram.Taken(), pos')
    ensures ok ==> CopyOf(m0, level, src, ram.mem, dst) && Labelled(ram.mem, level, dst, place, pos')
    decreases level, 2
  {
    ok, pos' := true, pos;
    var i := 0;
    while i < ENTRY_NUM
      invariant 0 <= i <= 512 && ram.Valid()
      invariant Copying(m0, keep, ram.mem, ram.Taken(), pos')
      invariant OnlyFresh(old(ram.mem), old(ram.Taken()), pos, dst, ram.mem, ram.Taken(), pos')
      invariant forall j: Index :: i <= j as nat ==> ram.mem[dst][j] == old(ram.mem)[dst][j]
      invariant forall j: Index :: j as nat < i ==> EntryDone(m0, level, src, ram.mem, dst, j, place, pos')
    {
      ghost var m1, pos1 := ram.mem, pos';
      ok, pos' := DupEntry(ram, level, src, dst, i as Index, m0, keep, place, pos');
      if !ok {
        return;
      }
      forall j: Index | j as nat < i
        ensures EntryDone(m0, level, src, ram.mem, dst, j, place, pos')
      {
        EntryStaysDone(m0, level, src, m1, ram.mem, dst, j, place, pos1, pos');
      }
      i := i + 1;
    }
    TableDone(m0, level, src, ram.mem, dst, place, pos');
  }

  /** mm_dup_pgd; the result is the physical address of the new top-level table, 0 when memory runs out. */
  method MmDupPgd(ram: Ram, srcPgd: Word) returns (dstPgd: Word, ghost pos: map<nat, Path>)
    requires ram.Valid()
    requires SourceTree(ram.mem, 4, Pfn(srcPgd), ram.Taken())
    modifies ram`mem, ram.frames.words, ram.frames`used
    ensures ram.Valid()
    // it fails only when no frame is left
    ensures dstPgd == 0 ==> ram.OutOfFrames()
    // the source is untouched
    ensures dstPgd != 0 ==> forall x :: x in old(ram.Taken()) && x < |ram.mem| ==> ram.mem[x] == old(ram.mem)[x]
    // the copy is a tree of frames that were all free before, each reached by exactly one path
    ensures dstPgd != 0 ==>
              && dstPgd % 4096 == 0 && Labelled(ram.mem, 4, dstPgd / 4096, [], pos)
              && pos.Keys !! old(ram.Taken()) && pos.Keys <= ram.Taken()
    // and translates every page as the source does
    ensures dstPgd != 0 ==> CopyOf(old(ram.mem), 4, Pfn(srcPgd), ram.mem, dstPgd / 4096)
    ensures dstPgd != 0 ==> forall path: Path :: |path| == 4 ==>
              SameTranslation(old(ram.mem), Lookup(old(ram.mem), 4, Pfn(srcPgd), path),
                              ram.mem, Lookup(ram.mem, 4, dstPgd / 4096, path))
    ensures dstPgd != 0 ==> forall path: Path :: |path| == 4 ==>
              Lookup(ram.mem, 4, Pfn(srcPgd), path) == Lookup(old(ram.mem), 4, Pfn(srcPgd), path)
  {
    ghost var m0, keep := ram.mem, ram.Taken();
    pos := map[];
    var pa := ram.AllocPages(1);
    if pa.npages == 0 {
      return 0, pos;
    }
    var root := FrameOf(pa.page);
    var ok;
    ok, pos := DupTable(ram, 4, Pfn(srcPgd), root, m0, keep, [], map[root := []]);
    if !ok {
      return 0, pos;
    }
    dstPgd := pa.page - HIGHER_HALF_OFFSET;
    forall path: Path | |path| == 4
      ensures SameTranslation(m0, Lookup(m0, 4, Pfn(srcPgd), path), ram.mem, Lookup(ram.mem, 4, root, path))
      ensures Lookup(ram.mem, 4, Pfn(srcPgd), path) == Lookup(m0, 4, Pfn(srcPgd), path)
    {
      CopyTranslates(m0, 4, Pfn(srcPgd), ram.mem, root, path);
      SourceStable(m0, ram.mem, 4, Pfn(srcPgd), keep, path);
    }
  }
}
