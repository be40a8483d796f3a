/** Words of memory as bytes, least significant first. */
module PageBytes {
  import opened Paging

  type Byte = b: nat | b < 256

  function Pow256(n: nat): (r: nat)
    ensures r > 0
  {
    if n == 0 then 1 else 256 * Pow256(n - 1)
  }

  function GetByte(w: nat, k: nat): Byte {
    if k == 0 then w % 256 else GetByte(w / 256, k - 1)
  }

  function PutByte(w: nat, k: nat, b: Byte): nat {
    if k == 0 then w / 256 * 256 + b else PutByte(w / 256, k - 1, b) * 256 + w % 256
  }

  lemma {:induction false} PutByteFits(w: nat, k: nat, b: Byte, n: nat)
    requires w < Pow256(n) && k < n
    ensures PutByte(w, k, b) < Pow256(n)
  {
    if k > 0 {
      PutByteFits(w / 256, k - 1, b, n - 1);
    }
  }

  lemma {:induction false} PutByteGets(w: nat, k: nat, b: Byte, j: nat)
    ensures GetByte(PutByte(w, k, b), j) == if j == k then b else GetByte(w, j)
  {
    if k == 0 {
      assert PutByte(w, k, b) / 256 == w / 256;
    } else {
      assert PutByte(w, k, b) / 256 == PutByte(w / 256, k - 1, b);
      if j > 0 {
        PutByteGets(w / 256, k - 1, b, j - 1);
      }
    }
  }

  /** Byte j of a page. */
  function PageByte(f: Frame, j: nat): Byte
    requires j < 4096
  {
    GetByte(f[j / 8], j % 8)
  }

  function PutPageByte(f: Frame, j: nat, b: Byte): (f': Frame)
    requires j < 4096
  {
    PutByteFits(f[j / 8], j % 8, b, 8);
    f[j / 8 := PutByte(f[j / 8], j % 8, b)]
  }

  lemma PutPageByteGets(f: Frame, j: nat, b: Byte, k: nat)
    requires j < 4096 && k < 4096
    ensures PageByte(PutPageByte(f, j, b), k) == if k == j then b else PageByte(f, k)
  {
    PutByteGets(f[j / 8], j % 8, b, k % 8);
    assert k == 8 * (k / 8) + k % 8 && j == 8 * (j / 8) + j % 8;
  }

  /** Bytes are in little-endian order: a word is its lowest byte and 256 times the word of the others. */
  lemma WordOfBytes(w: nat, k: nat)
    ensures w == GetByte(w, 0) + 256 * (w / 256) && GetByte(w, k + 1) == GetByte(w / 256, k)
  {
  }

  /** Byte j of a page lies in word j / 8, its eight bytes lowest first. */
  lemma PageByteOfWord(f: Frame, i: Index, k: nat)
    requires k < 8
    ensures 8 * (i as nat) + k < 4096 && PageByte(f, 8 * (i as nat) + k) == GetByte(f[i], k)
  {
    assert (8 * (i as nat) + k) / 8 == i as nat && (8 * (i as nat) + k) % 8 == k;
  }

  lemma {:induction false} ZeroWordBytes(k: nat)
    ensures GetByte(0, k) == 0
  {
    if k > 0 {
      ZeroWordBytes(k - 1);
    }
  }

  lemma ZeroPageBytes(f: Frame, k: nat)
    requires AllZero(f) && k < 4096
    ensures PageByte(f, k) == 0
  {
    var i: Index := (k / 8) as Index;
    assert f[i] == 0;
    ZeroWordBytes(k % 8);
  }
}

/** What a page fault must do to an address space. */
module DemandPagingSpec {
  import opened Paging
  import opened PageGrowth
  import opened PageIndices
  import opened PageBytes

  /** `struct vm_area_struct`: addresses start .. end-1 are backed by the file from pgoff on. */
  datatype Vma = Vma(start: nat, end: nat, pgoff: nat)

  /** `struct mm_struct`; `elf` is the kernel memory that elf_content points to. */
  datatype Mm = Mm(pgd: Word, elf: nat -> Byte, vmas: seq<Vma>)

  predicate Covers(v: Vma, address: nat) {
    v.start <= address < v.end
  }

  /** The last area on the list that covers the address wins. */
  ghost predicate IsAreaOf(vmas: seq<Vma>, address: nat, k: int) {
    && 0 <= k < |vmas| && Covers(vmas[k], address)
    && forall j :: k < j < |vmas| ==> !Covers(vmas[j], address)
  }

  function PageStart(address: nat): nat {
    address / 4096 * 4096
  }

  /** Where in the file the source copies from, and how much. */
  function CopySource(v: Vma, page: nat): nat {
    if page > v.start then v.pgoff + page - v.start else v.pgoff
  }

  function CopyLength(v: Vma, page: nat): nat
    requires page < v.end
  {
    if page + 4096 > v.end then v.end - page else 4096
  }

  /** Byte j of a page as the fault handler fills it. */
  function FaultByte(elf: nat -> Byte, v: Vma, page: nat, j: nat): Byte
    requires page < v.end
  {
    if j < CopyLength(v, page) then elf(CopySource(v, page) + j) else 0
  }

  /** The byte the file puts at an address: its content inside the area, zero outside. */
  function FileByte(elf: nat -> Byte, v: Vma, address: nat): Byte {
    if Covers(v, address) then elf(v.pgoff + address - v.start) else 0
  }

  /** A page that does not begin before its area is filled exactly as eager loading would fill it. */
  lemma FaultLoadsFile(elf: nat -> Byte, v: Vma, page: nat, j: nat)
    requires v.start <= page < v.end && j < 4096
    ensures FaultByte(elf, v, page, j) == FileByte(elf, v, page + j)
  {
  }

  /**
   * Where each byte of a fill comes from: up to the end of the area from the file, at the page's
   * distance from the area's start; a page that begins before its area gets the area's content at once.
   */
  lemma FaultReadsAt(elf: nat -> Byte, v: Vma, page: nat, j: nat)
    requires page < v.end && j < 4096
    ensures FaultByte(elf, v, page, j) ==
            if page + j >= v.end then 0
            else if page < v.start then elf(v.pgoff + j)
            else elf(v.pgoff + (page - v.start) + j)
  {
  }

  /** An address belongs to the last area on the list with start <= address < end. */
  lemma AreaMeans(vmas: seq<Vma>, address: nat, k: int)
    ensures IsAreaOf(vmas, address, k) <==>
            && 0 <= k < |vmas| && vmas[k].start <= address < vmas[k].end
            && forall j :: k < j < |vmas| ==> address < vmas[j].start || vmas[j].end <= address
  {
  }

  /** Whatever the file holds, the fill is right; for a page reaching before its area it is not. */
  lemma FaithfulIffAligned(v: Vma, page: nat)
    requires page < v.end && v.start < page + 4096
    ensures (forall elf: nat -> Byte, j: nat :: j < 4096 ==> FaultByte(elf, v, page, j) == FileByte(elf, v, page + j))
            <==> v.start <= page
  {
    if v.start > page {
      var ones: nat -> Byte := (_: nat) => 1;
      assert FaultByte(ones, v, page, 0) != FileByte(ones, v, page + 0);
    } else {
      forall elf: nat -> Byte, j: nat | j < 4096
        ensures FaultByte(elf, v, page, j) == FileByte(elf, v, page + j)
      {
        FaultLoadsFile(elf, v, page, j);
      }
    }
  }

  /** A process's memory: RAM contents, frames in use, and the place of each frame of its tree. */
  datatype State = State(m: Memory, taken: set<nat>, pos: map<nat, Path>)

  ghost predicate Sound(root: nat, s: State) {
    Space(s.m, root, s.pos, s.taken)
  }

  /** Growth that touches only tables of the tree and frames that were free. */
  ghost predicate Footprint(s: State, s': State) {
    && |s'.m| == |s.m| && s.taken <= s'.taken && Extends(s.pos, s'.pos)
    && (forall x :: x in s'.pos && x !in s.pos ==> x !in s.taken)
    && (forall x :: x in s.taken && x < |s.m| && (x in s.pos ==> |s.pos[x]| == 4) ==> s'.m[x] == s.m[x])
  }

  lemma FootprintsCompose(s: State, s1: State, s2: State)
    requires Footprint(s, s1) && Footprint(s1, s2)
    ensures Footprint(s, s2)
  {
  }

  /** Page p of the tree at root becomes mapped, and nothing else about translation changes. */
  ghost predicate MapsPage(root: nat, s: State, p: Path, s': State)
    requires |p| == 4
  {
    && Sound(root, s) && Sound(root, s') && Footprint(s, s')
    && !Lookup(s.m, 4, root, p).HugePage?
    // every other page is translated as before, and the flags of missing levels are always 0x07
    && (forall q: Path :: |q| == 4 ==>
          && FilledFlags(s'.m, 4, root, q) == FilledFlags(s.m, 4, root, q)
          && (q != p ==> Lookup(s'.m, 4, root, q) == Lookup(s.m, 4, root, q)))
    // the page is mapped: as it was, or to a frame that was free
    && Lookup(s'.m, 4, root, p).SmallPage?
    && (Lookup(s.m, 4, root, p).SmallPage? ==> Lookup(s'.m, 4, root, p) == Lookup(s.m, 4, root, p))
    && (Lookup(s.m, 4, root, p) == Unmapped ==>
          Lookup(s'.m, 4, root, p).frame !in s.taken && Lookup(s'.m, 4, root, p).frame < |s'.m|)
  }

  /** The effect of one handled page fault on the whole address space. */
  ghost predicate FaultStep(mm: Mm, s: State, address: nat, s': State) {
    var root, p := Pfn(mm.pgd), PathOf(address);
    && MapsPage(root, s, p, s')
    && (exists k :: IsAreaOf(mm.vmas, address, k))
    // a page that was absent is filled from the file
    && (Lookup(s.m, 4, root, p) == Unmapped ==>
          forall k :: IsAreaOf(mm.vmas, address, k) ==>
            Filled(mm.elf, mm.vmas[k], PageStart(address), s'.m[Lookup(s'.m, 4, root, p).frame]))
  }

  /** A frame holds what the fault handler copies for one page of an area. */
  ghost predicate Filled(elf: nat -> Byte, v: Vma, page: nat, f: Frame) {
    page < v.end && forall j: nat :: j < 4096 ==> PageByte(f, j) == FaultByte(elf, v, page, j)
  }
}

/** do_mmap: the demand-paging walk. */
module DemandPaging {
  import opened Paging
  import opened PageGrowth
  import opened PageIndices
  import opened PageBytes
  import opened PhysicalMemory
  import opened DemandPagingSpec

  /** What the walk knows at a table: it is the one that `rest` reaches in a sound address space. */
  ghost predicate AtTable(s: State, root: nat, rest: Path, table: nat) {
    Sound(root, s) && |rest| < 4 && Reach(s.m, 4, root, rest) == table
  }

  /** A table on the walk of a page that is not huge has no huge entry for it. */
  lemma {:induction false} LookupThrough(m: Memory, level: nat, f: nat, rest: Path, tail: Path)
    requires |rest| + |tail| == level && Reach(m, level, f, rest) != -1
    ensures Lookup(m, level, f, rest + tail).HugePage? <==>
            Lookup(m, level - |rest|, Reach(m, level, f, rest), tail).HugePage?
    decreases level
  {
    if rest == [] {
      assert rest + tail == tail;
    } else {
      assert (rest + tail)[1..] == rest[1..] + tail;
      LookupThrough(m, level - 1, Pfn(m[f][rest[0]]), rest[1..], tail);
    }
  }

  lemma EntryAt(m: Memory, level: nat, t: nat, place: Path, pos: map<nat, Path>, tail: Path)
    requires 0 < level == |tail| && Labelled(m, level, t, place, pos) && 0 !in pos
    requires !Lookup(m, level, t, tail).HugePage?
    ensures var e := m[t][tail[0]]; KindOf(level, e) != Huge && (e == 0 <==> Pfn(e) == 0)
  {
    var e := m[t][tail[0]];
    if KindOf(level, e) == Link {
      assert Labelled(m, level - 1, Pfn(e), place + [tail[0]], pos);
    }
  }

  lemma TableOnWalk(s: State, root: nat, rest: Path, table: nat)
    requires AtTable(s, root, rest, table)
    ensures table < |s.m| && table in s.pos && s.pos[table] == rest
    ensures Labelled(s.m, 4 - |rest|, table, rest, s.pos)
  {
    LabelIsPath(s.m, 4, root, [], s.pos, rest);
    assert [] + rest == rest;
  }

  lemma EntryAtTable(s: State, root: nat, rest: Path, table: nat, tail: Path)
    requires AtTable(s, root, rest, table) && |tail| == 4 - |rest|
    requires !Lookup(s.m, 4 - |rest|, table, tail).HugePage?
    ensures table < |s.m| && table in s.pos && s.pos[table] == rest
    ensures var e := s.m[table][tail[0]];
            && KindOf(4 - |rest|, e) != Huge
            && (e == 0 <==> Pfn(e) == 0)
            && (e != 0 ==> Reach(s.m, 4, root, rest + [tail[0]]) == Pfn(e))
  {
    TableOnWalk(s, root, rest, table);
    EntryAt(s.m, 4 - |rest|, table, rest, s.pos, tail);
    ReachTwice(s.m, 4, root, rest, tail[0]);
  }

  /** The entry the walk reads is absent or a link, and a link never names frame 0. */
  lemma EntryOnWalk(s: State, root: nat, rest: Path, table: nat, p: Path)
    requires AtTable(s, root, rest, table) && |p| == 4 && rest == p[..|rest|]
    requires !Lookup(s.m, 4, root, p).HugePage?
    ensures table < |s.m| && table in s.pos && s.pos[table] == rest
    ensures var e := s.m[table][p[|rest|]];
            && KindOf(4 - |rest|, e) != Huge
            && (e == 0 <==> Pfn(e) == 0)
            && (e != 0 ==> Reach(s.m, 4, root, rest + [p[|rest|]]) == Pfn(e))
  {
    var tail := p[|rest|..];
    assert p == rest + tail;
    LookupThrough(s.m, 4, root, rest, tail);
    EntryAtTable(s, root, rest, table, tail);
  }

  /** Clearing a free frame and then linking it grows the tree by exactly that frame. */
  lemma LinkZeroed(s: State, root: nat, rest: Path, table: nat, i: Index, c: nat, entry: Word)
    requires AtTable(s, root, rest, table) && table < |s.m| && c < |s.m| && c !in s.taken
    requires KindOf(4 - |rest|, s.m[table][i]) == Absent
    requires KindOf(4 - |rest|, entry) == Link && Pfn(entry) == c && LowFlags(entry) == 7
    ensures LinkedOnce(s.m, 4, root, [], s.pos, rest, i, c,
                       s.m[c := ZeroFrame()][table := s.m[table][i := entry]])
  {
    var z := s.m[c := ZeroFrame()];
    SubtreeFrame(s.m, z, 4, root, [], s.pos, s.pos);
    LabelIsPath(s.m, 4, root, [], s.pos, rest);
    ReachStable(s.m, z, 4, root, [], s.pos, rest);
    assert z[table] == s.m[table] && AllZero(z[c]);
    LinkFresh(z, 4, root, [], s.pos, rest, table, i, c, entry);
    forall q: Path | |q| == 4
      ensures FilledFlags(z, 4, root, q) == FilledFlags(s.m, 4, root, q)
    {
      FilledFrame(s.m, z, 4, root, [], s.pos, q);
    }
  }

  lemma {:induction false} ReachStable(m: Memory, m': Memory, level: nat, f: nat, place: Path,
                                       pos: map<nat, Path>, p: Path)
    requires Labelled(m, level, f, place, pos) && AgreeBelow(m, m', place, pos) && |p| <= level
    ensures Reach(m', level, f, p) == Reach(m, level, f, p)
    decreases level
  {
    if p != [] {
      assert place <= pos[f];
      assert m'[f] == m[f];
      if KindOf(level, m[f][p[0]]) == Link {
        AgreeDeeper(m, m', place, p[0], pos);
        ReachStable(m, m', level - 1, Pfn(m[f][p[0]]), place + [p[0]], pos, p[1..]);
      }
    }
  }

  /** The state after one link. */
  ghost function Grown(s: State, rest: Path, table: nat, i: Index, c: nat, entry: Word): State
    requires table < |s.m| && c < |s.m|
  {
    State(s.m[c := ZeroFrame()][table := s.m[table][i := entry]], s.taken + {c}, s.pos[c := rest + [i]])
  }

  /** One step of the walk: either the entry was there and nothing changed, or one fresh frame was linked. */
  ghost predicate WalkStep(s: State, root: nat, rest: Path, i: Index, next: nat, s': State) {
    && |rest| < 4 && Sound(root, s) && Reach(s.m, 4, root, rest) != -1
    && Sound(root, s') && Footprint(s, s')
    && Reach(s'.m, 4, root, rest + [i]) == next
    && (forall q: Path :: |q| == 4 ==>
          && FilledFlags(s'.m, 4, root, q) == FilledFlags(s.m, 4, root, q)
          && (q != rest + [i] ==> Lookup(s'.m, 4, root, q) == Lookup(s.m, 4, root, q)))
  }

  lemma GrownFootprint(s: State, rest: Path, table: nat, i: Index, c: nat, entry: Word)
    requires table < |s.m| && c < |s.m| && c !in s.taken && c !in s.pos
    requires table in s.pos && s.pos[table] == rest && |rest| < 4
    ensures Footprint(s, Grown(s, rest, table, i, c, entry))
  {
  }

  lemma GrownIsStep(s: State, root: nat, rest: Path, table: nat, i: Index, c: nat, entry: Word)
    requires AtTable(s, root, rest, table) && table < |s.m| && c < |s.m| && c !in s.taken && c != 0
    requires KindOf(4 - |rest|, s.m[table][i]) == Absent
    requires KindOf(4 - |rest|, entry) == Link && Pfn(entry) == c && LowFlags(entry) == 7
    ensures WalkStep(s, root, rest, i, c, Grown(s, rest, table, i, c, entry))
    ensures Reach(s.m, 4, root, rest + [i]) == -1
  {
    LinkZeroed(s, root, rest, table, i, c, entry);
    LabelIsPath(s.m, 4, root, [], s.pos, rest);
    assert [] + rest == rest && [] + rest + [i] == rest + [i];
    ReachTwice(s.m, 4, root, rest, i);
    GrownFootprint(s, rest, table, i, c, entry);
  }

  /** Link a fresh zeroed frame with flags 0x07 at an absent entry; 0 when memory runs out. */
  method LinkNew(ram: Ram, table: nat, i: Index, ghost root: nat, ghost pos: map<nat, Path>, ghost rest: Path)
    returns (next: nat)
    requires ram.Valid() && table < |ram.mem|
    requires AtTable(State(ram.mem, ram.Taken(), pos), root, rest, table)
    requires ram.mem[table][i] == 0 && table in pos
    modifies ram`mem, ram.frames.words, ram.frames`used
    ensures ram.Valid() && |ram.mem| == |old(ram.mem)|
    ensures next == 0 ==> ram.OutOfFrames()
    ensures next != 0 ==>
              var s, s' := State(old(ram.mem), old(ram.Taken()), pos), State(ram.mem, ram.Taken(), pos[next := rest + [i]]);
              && WalkStep(s, root, rest, i, next, s')
              && Reach(s.m, 4, root, rest + [i]) == -1
              && next !in s.taken && next < |ram.mem| && AllZero(ram.mem[next])
              && next < 0x10_0000_0000 && s' == Grown(s, rest, table, i, next, MakeEntry(7, next))
  {
    ghost var s := State(ram.mem, ram.Taken(), pos);
    var pa := ram.AllocPages(1);
    if pa.npages == 0 {
      return 0;
    }
    next := FrameOf(pa.page);
    var entry := GetPhysAddr(pa.page) + 0x07;
    MadeEntry(7, next);
    assert entry == MakeEntry(7, next);
    GrownIsStep(s, root, rest, table, i, next, entry);
    ram.mem := ram.mem[table := ram.mem[table][i := entry]];
    assert State(ram.mem, ram.Taken(), pos[next := rest + [i]]) == Grown(s, rest, table, i, next, entry);
  }

  /**
   * One level of do_mmap: look at the entry, and if it is absent link a fresh zeroed frame. The
   * page-directory level tests the whole entry, the others only its address part.
   */
  method LinkIfAbsent(ram: Ram, table: nat, i: Index, level: nat,
                      ghost root: nat, ghost pos: map<nat, Path>, ghost rest: Path, ghost p: Path)
    returns (next: nat, isNew: bool, ghost pos': map<nat, Path>)
    requires ram.Valid() && 1 <= level <= 4 && |rest| == 4 - level
    requires |p| == 4 && rest == p[..4 - level] && i == p[4 - level]
    requires AtTable(State(ram.mem, ram.Taken(), pos), root, rest, table)
    requires !Lookup(ram.mem, 4, root, p).HugePage?
    modifies ram`mem, ram.frames.words, ram.frames`used
    ensures ram.Valid() && |ram.mem| == |old(ram.mem)|
    ensures next == 0 ==> ram.OutOfFrames()
    ensures next != 0 ==>
              var s, s' := State(old(ram.mem), old(ram.Taken()), pos), State(ram.mem, ram.Taken(), pos');
              && WalkStep(s, root, rest, i, next, s')
              && (isNew <==> Reach(s.m, 4, root, rest + [i]) == -1)
              && (isNew ==> next !in s.taken && next < |ram.mem| && AllZero(ram.mem[next]))
              && (!isNew ==> s' == s)
  {
    ghost var s := State(ram.mem, ram.Taken(), pos);
    EntryOnWalk(s, root, rest, table, p);
    var entry := ram.mem[table][i];
    isNew, pos' := if level == 2 then entry == 0 else Pfn(entry) == 0, pos;
    if isNew {
      next := LinkNew(ram, table, i, root, pos, rest);
      pos' := pos[next := rest + [i]];
    } else {
      next := Pfn(entry);
    }
  }

  /** Steps that change no translation at all. */
  ghost predicate Kept(root: nat, s: State, s': State) {
    && Sound(root, s) && Sound(root, s') && Footprint(s, s')
    && forall q: Path :: |q| == 4 ==>
         && Lookup(s'.m, 4, root, q) == Lookup(s.m, 4, root, q)
         && FilledFlags(s'.m, 4, root, q) == FilledFlags(s.m, 4, root, q)
  }

  lemma TableStepKeeps(root: nat, s0: State, s: State, rest: Path, i: Index, next: nat, s': State)
    requires Kept(root, s0, s) && WalkStep(s, root, rest, i, next, s') && |rest| < 3
    ensures Kept(root, s0, s')
  {
    FootprintsCompose(s0, s, s');
    forall q: Path | |q| == 4
      ensures Lookup(s'.m, 4, root, q) == Lookup(s0.m, 4, root, q)
    {
      assert |rest + [i]| < 4;
    }
  }

  lemma PrefixGrows(p: Path, k: nat)
    requires k < |p|
    ensures p[..k] + [p[k]] == p[..k + 1]
  {
  }

  lemma LastIndex(p: Path)
    requires |p| == 4
    ensures p[..3] + [p[3]] == p
  {
  }

  /** One table level of the walk, from any state that kept the translations of s0. */
  method WalkLevel(ram: Ram, table: nat, i: Index, level: nat,
                   ghost root: nat, ghost pos: map<nat, Path>, ghost p: Path, ghost s0: State)
    returns (next: nat, ghost pos': map<nat, Path>)
    requires ram.Valid() && 2 <= level <= 4 && |p| == 4 && i == p[4 - level]
    requires Kept(root, s0, State(ram.mem, ram.Taken(), pos)) && !Lookup(s0.m, 4, root, p).HugePage?
    requires AtTable(State(ram.mem, ram.Taken(), pos), root, p[..4 - level], table)
    modifies ram`mem, ram.frames.words, ram.frames`used
    ensures ram.Valid() && |ram.mem| == |old(ram.mem)|
    ensures next == 0 ==> ram.OutOfFrames()
    ensures next != 0 ==>
              var s' := State(ram.mem, ram.Taken(), pos');
              Kept(root, s0, s') && AtTable(s', root, p[..5 - level], next)
  {
    ghost var s := State(ram.mem, ram.Taken(), pos);
    var isNew;
    next, isNew, pos' := LinkIfAbsent(ram, table, i, level, root, pos, p[..4 - level], p);
    if next != 0 {
      LevelWalked(root, s0, s, p, level, next, State(ram.mem, ram.Taken(), pos'));
    }
  }

  lemma LevelWalked(root: nat, s0: State, s: State, p: Path, level: nat, next: nat, s': State)
    requires 2 <= level <= 4 && |p| == 4 && Kept(root, s0, s)
    requires WalkStep(s, root, p[..4 - level], p[4 - level], next, s')
    ensures Kept(root, s0, s') && AtTable(s', root, p[..5 - level], next)
  {
    PrefixGrows(p, 4 - level);
    TableStepKeeps(root, s0, s, p[..4 - level], p[4 - level], next, s');
  }

  /** The walk down to the page table, growing the tree where levels are missing. */
  method WalkTables(ram: Ram, root: nat, p: Path, ghost pos: map<nat, Path>)
    returns (pt: nat, ghost pos': map<nat, Path>)
    requires ram.Valid() && Sound(root, State(ram.mem, ram.Taken(), pos))
    requires |p| == 4 && !Lookup(ram.mem, 4, root, p).HugePage?
    modifies ram`mem, ram.frames.words, ram.frames`used
    ensures ram.Valid() && |ram.mem| == |old(ram.mem)|
    ensures pt == 0 ==> ram.OutOfFrames()
    ensures pt != 0 ==>
              var s, s' := State(old(ram.mem), old(ram.Taken()), pos), State(ram.mem, ram.Taken(), pos');
              Kept(root, s, s') && AtTable(s', root, p[..3], pt)
  {
    ghost var s := State(ram.mem, ram.Taken(), pos);
    assert Reach(s.m, 4, root, p[..0]) == root;
    pt, pos' := WalkLevel(ram, root, p[0], 4, root, pos, p, s);
    if pt != 0 {
      pt, pos' := WalkLevel(ram, pt, p[1], 3, root, pos', p, s);
    }
    if pt != 0 {
      pt, pos' := WalkLevel(ram, pt, p[2], 2, root, pos', p, s);
    }
  }

  /** The search for the area; when several cover the address the last one is kept. */
  method FindVma(vmas: seq<Vma>, address: nat) returns (k: int)
    ensures k == -1 <==> forall j :: 0 <= j < |vmas| ==> !Covers(vmas[j], address)
    ensures k != -1 ==> IsAreaOf(vmas, address, k)
  {
    k := -1;
    for j := 0 to |vmas|
      invariant k == -1 ==> forall l :: 0 <= l < j ==> !Covers(vmas[l], address)
      invariant k != -1 ==> 0 <= k < j && Covers(vmas[k], address) && forall l :: k < l < j ==> !Covers(vmas[l], address)
    {
      if address >= vmas[j].start && address < vmas[j].end {
        k := j;
      }
    }
  }

  /** Fill a freshly zeroed page from the file, byte by byte as memcpy does. */
  method CopyFile(ram: Ram, page: nat, elf: nat -> Byte, v: Vma, start: nat)
    requires page < |ram.mem| && start < v.end && AllZero(ram.mem[page])
    modifies ram`mem
    ensures |ram.mem| == |old(ram.mem)|
    ensures forall x :: 0 <= x < |ram.mem| && x != page ==> ram.mem[x] == old(ram.mem)[x]
    ensures Filled(elf, v, start, ram.mem[page])
  {
    forall j: nat | j < 4096
      ensures PageByte(ram.mem[page], j) == 0
    {
      ZeroPageBytes(ram.mem[page], j);
    }
    var source, len := CopySource(v, start), CopyLength(v, start);
    for n := 0 to len
      invariant |ram.mem| == |old(ram.mem)|
      invariant forall x :: 0 <= x < |ram.mem| && x != page ==> ram.mem[x] == old(ram.mem)[x]
      invariant forall j: nat :: j < 4096 ==> PageByte(ram.mem[page], j) == if j < n then elf(source + j) else 0
    {
      ghost var before := ram.mem[page];
      ram.mem := ram.mem[page := PutPageByte(ram.mem[page], n, elf(source + n))];
      forall j: nat | j < 4096
        ensures PageByte(ram.mem[page], j) == if j < n + 1 then elf(source + j) else 0
      {
        PutPageByteGets(before, n, elf(source + n), j);
      }
    }
  }

  /** Contents of page frames play no part in translation. */
  lemma {:induction false} TablesDecide(m: Memory, m': Memory, level: nat, f: nat, place: Path, pos: map<nat, Path>)
    requires Labelled(m, level, f, place, pos) && |place| + level == 4 && |m'| == |m|
    requires forall x :: x in pos && |pos[x]| < 4 && x < |m| ==> m'[x] == m[x]
    ensures Labelled(m', level, f, place, pos)
    ensures forall q: Path :: |q| == level ==>
              && Lookup(m', level, f, q) == Lookup(m, level, f, q)
              && FilledFlags(m', level, f, q) == FilledFlags(m, level, f, q)
    decreases level
  {
    if level > 0 {
      assert m'[f] == m[f];
      forall i: Index | KindOf(level, m[f][i]) == Link
        ensures Labelled(m', level - 1, Pfn(m[f][i]), place + [i], pos)
        ensures forall q: Path :: |q| == level - 1 ==>
                  && Lookup(m', level - 1, Pfn(m[f][i]), q) == Lookup(m, level - 1, Pfn(m[f][i]), q)
                  && FilledFlags(m', level - 1, Pfn(m[f][i]), q) == FilledFlags(m, level - 1, Pfn(m[f][i]), q)
      {
        TablesDecide(m, m', level - 1, Pfn(m[f][i]), place + [i], pos);
      }
      forall q: Path | |q| == level
        ensures Lookup(m', level, f, q) == Lookup(m, level, f, q)
        ensures FilledFlags(m', level, f, q) == FilledFlags(m, level, f, q)
      {
        var i: Index := q[0];
        assert KindOf(level, m[f][i]) == Link ==>
            && Lookup(m', level - 1, Pfn(m[f][i]), q[1..]) == Lookup(m, level - 1, Pfn(m[f][i]), q[1..])
            && FilledFlags(m', level - 1, Pfn(m[f][i]), q[1..]) == FilledFlags(m, level - 1, Pfn(m[f][i]), q[1..]);
      }
    }
  }

  datatype FaultResult = NoVma | OutOfMemory | Mapped

  /** A page not mapped in s0 has just been linked, in the last of the steps from s0 over s3 to s4. */
  ghost predicate NewPage(root: nat, p: Path, s0: State, s3: State, page: nat, s4: State)
    requires |p| == 4
  {
    && Kept(root, s0, s3) && !Lookup(s0.m, 4, root, p).HugePage?
    && WalkStep(s3, root, p[..3], p[3], page, s4)
    && Reach(s3.m, 4, root, p) == -1
    && page < |s4.m| && page !in s3.taken
  }

  /** Only the contents of one page frame changed. */
  ghost predicate OnlyPage(s4: State, page: nat, s5: State) {
    && |s5.m| == |s4.m| && s5.taken == s4.taken && s5.pos == s4.pos
    && forall x :: 0 <= x < |s4.m| && x != page ==> s5.m[x] == s4.m[x]
  }

  lemma FillFootprint(s3: State, s4: State, s5: State, page: nat)
    requires Footprint(s3, s4) && page !in s3.taken && OnlyPage(s4, page, s5)
    ensures Footprint(s3, s5)
  {
  }

  /** The contents of a page play no part in translation. */
  lemma FillTranslates(root: nat, p: Path, s4: State, page: nat, s5: State)
    requires |p| == 4 && Sound(root, s4) && page in s4.pos && s4.pos[page] == p && OnlyPage(s4, page, s5)
    ensures Sound(root, s5)
    ensures forall q: Path :: |q| == 4 ==>
              && FilledFlags(s5.m, 4, root, q) == FilledFlags(s4.m, 4, root, q)
              && Lookup(s5.m, 4, root, q) == Lookup(s4.m, 4, root, q)
  {
    TablesDecide(s4.m, s5.m, 4, root, [], s4.pos);
  }

  /** Filling a new page's frame: the tree and every translation stay as they were after the link. */
  lemma FillKeeps(root: nat, p: Path, s0: State, s3: State, page: nat, s4: State, s5: State)
    requires |p| == 4 && NewPage(root, p, s0, s3, page, s4) && OnlyPage(s4, page, s5)
    ensures Sound(root, s5) && Footprint(s3, s5)
    ensures forall q: Path :: |q| == 4 ==>
              && FilledFlags(s5.m, 4, root, q) == FilledFlags(s4.m, 4, root, q)
              && Lookup(s5.m, 4, root, q) == Lookup(s4.m, 4, root, q)
    ensures Lookup(s5.m, 4, root, p).SmallPage? && Lookup(s5.m, 4, root, p).frame == page
  {
    NewPagePlace(root, p, s3, page, s4);
    FillTranslates(root, p, s4, page, s5);
    FillFootprint(s3, s4, s5, page);
  }

  lemma NewPagePlace(root: nat, p: Path, s3: State, page: nat, s4: State)
    requires |p| == 4 && WalkStep(s3, root, p[..3], p[3], page, s4)
    ensures page in s4.pos && s4.pos[page] == p
    ensures Lookup(s4.m, 4, root, p).SmallPage? && Lookup(s4.m, 4, root, p).frame == page
  {
    LastIndex(p);
    LabelIsPath(s4.m, 4, root, [], s4.pos, p);
    assert [] + p == p;
    ReachedIsMapped(s4.m, 4, root, p);
  }

  lemma WasUnmapped(root: nat, p: Path, s0: State, s3: State)
    requires |p| == 4 && Kept(root, s0, s3) && !Lookup(s0.m, 4, root, p).HugePage? && Reach(s3.m, 4, root, p) == -1
    ensures Lookup(s0.m, 4, root, p) == Unmapped
  {
    if Lookup(s3.m, 4, root, p).SmallPage? {
      MappedFlags(s3.m, 4, root, p);
    }
  }

  lemma NewPageMaps(root: nat, p: Path, s0: State, s3: State, page: nat, s4: State, s5: State)
    requires |p| == 4 && NewPage(root, p, s0, s3, page, s4) && OnlyPage(s4, page, s5)
    ensures MapsPage(root, s0, p, s5) && Lookup(s0.m, 4, root, p) == Unmapped
    ensures Lookup(s5.m, 4, root, p).frame == page
  {
    LastIndex(p);
    FillKeeps(root, p, s0, s3, page, s4, s5);
    FootprintsCompose(s0, s3, s5);
    WasUnmapped(root, p, s0, s3);
  }

  lemma OldPageMaps(root: nat, p: Path, s0: State, s3: State)
    requires |p| == 4 && Kept(root, s0, s3) && !Lookup(s0.m, 4, root, p).HugePage?
    requires Reach(s3.m, 4, root, p) != -1
    ensures MapsPage(root, s0, p, s3) && Lookup(s0.m, 4, root, p) != Unmapped
  {
    ReachedIsMapped(s3.m, 4, root, p);
  }

  /** Fill a page that was linked just now. */
  method FillLeaf(ram: Ram, page: nat, root: nat, p: Path, elf: nat -> Byte, v: Vma, start: nat,
                  ghost pos: map<nat, Path>, ghost s0: State, ghost s3: State)
    requires ram.Valid() && |p| == 4 && start < v.end
    requires NewPage(root, p, s0, s3, page, State(ram.mem, ram.Taken(), pos))
    requires page < |ram.mem| && AllZero(ram.mem[page])
    modifies ram`mem
    ensures ram.Valid()
    ensures MapsPage(root, s0, p, State(ram.mem, ram.Taken(), pos))
    ensures |ram.mem| == |old(ram.mem)| && Lookup(ram.mem, 4, root, p).frame == page
    ensures Filled(elf, v, start, ram.mem[page])
  {
    ghost var s4 := State(ram.mem, ram.Taken(), pos);
    CopyFile(ram, page, elf, v, start);
    NewPageMaps(root, p, s0, s3, page, s4, State(ram.mem, ram.Taken(), pos));
  }

  /** The last level of do_mmap: link the page if it is absent, and fill a new page from the file. */
  method MapLeaf(ram: Ram, pt: nat, root: nat, p: Path, elf: nat -> Byte, v: Vma, start: nat,
                 ghost pos: map<nat, Path>, ghost s0: State)
    returns (ok: bool, ghost pos': map<nat, Path>)
    requires ram.Valid() && |p| == 4 && start < v.end
    requires Kept(root, s0, State(ram.mem, ram.Taken(), pos)) && !Lookup(s0.m, 4, root, p).HugePage?
    requires AtTable(State(ram.mem, ram.Taken(), pos), root, p[..3], pt)
    modifies ram`mem, ram.frames.words, ram.frames`used
    ensures ram.Valid()
    ensures !ok ==> ram.OutOfFrames()
    ensures ok ==>
              var s' := State(ram.mem, ram.Taken(), pos');
              && MapsPage(root, s0, p, s')
              && (Lookup(s0.m, 4, root, p) == Unmapped ==>
                    Filled(elf, v, start, s'.m[Lookup(s'.m, 4, root, p).frame]))
  {
    ghost var s3 := State(ram.mem, ram.Taken(), pos);
    LastIndex(p);
    var page, isNew;
    page, isNew, pos' := LinkIfAbsent(ram, pt, p[3], 1, root, pos, p[..3], p);
    if page == 0 {
      return false, pos';
    }
    if isNew {
      FillLeaf(ram, page, root, p, elf, v, start, pos', s0, s3);
    } else {
      OldPageMaps(root, p, s0, s3);
    }
    ok := true;
  }

  /** The part of do_mmap after the area is found. */
  method MapPage(ram: Ram, root: nat, p: Path, elf: nat -> Byte, v: Vma, start: nat, ghost pos: map<nat, Path>)
    returns (ok: bool, ghost pos': map<nat, Path>)
    requires ram.Valid() && Sound(root, State(ram.mem, ram.Taken(), pos))
    requires |p| == 4 && !Lookup(ram.mem, 4, root, p).HugePage? && start < v.end
    modifies ram`mem, ram.frames.words, ram.frames`used
    ensures ram.Valid()
    ensures !ok ==> ram.OutOfFrames()
    ensures ok ==>
              var s, s' := State(old(ram.mem), old(ram.Taken()), pos), State(ram.mem, ram.Taken(), pos');
              && MapsPage(root, s, p, s')
              && (Lookup(s.m, 4, root, p) == Unmapped ==>
                    Filled(elf, v, start, s'.m[Lookup(s'.m, 4, root, p).frame]))
  {
    ghost var s0 := State(ram.mem, ram.Taken(), pos);
    var pt;
    pt, pos' := WalkTables(ram, root, p, pos);
    ok := pt != 0;
    if ok {
      ok, pos' := MapLeaf(ram, pt, root, p, elf, v, start, pos', s0);
    }
  }

  /**
   * do_mmap on a page that no huge page covers. An address outside every area is reported (the
   * source panics), and so is running out of frames (the source halts), which happens only when
   * none is free.
   */
  method DoMmap(ram: Ram, address: nat, mm: Mm, ghost pos: map<nat, Path>)
    returns (r: FaultResult, ghost pos': map<nat, Path>)
    requires ram.Valid() && Sound(Pfn(mm.pgd), State(ram.mem, ram.Taken(), pos))
    requires !Lookup(ram.mem, 4, Pfn(mm.pgd), PathOf(address)).HugePage?
    modifies ram`mem, ram.frames.words, ram.frames`used
    ensures ram.Valid()
    ensures r == NoVma <==> forall j :: 0 <= j < |mm.vmas| ==> !Covers(mm.vmas[j], address)
    ensures r == NoVma ==> ram.mem == old(ram.mem) && ram.Taken() == old(ram.Taken())
    ensures r == OutOfMemory ==> ram.OutOfFrames()
    ensures r == Mapped ==>
              FaultStep(mm, State(old(ram.mem), old(ram.Taken()), pos), address, State(ram.mem, ram.Taken(), pos'))
  {
    pos' := pos;
    var k := FindVma(mm.vmas, address);
    if k == -1 {
      return NoVma, pos;
    }
    var ok;
    ok, pos' := MapPage(ram, Pfn(mm.pgd), PathOf(address), mm.elf, mm.vmas[k], PageStart(address), pos);
    r := if ok then Mapped else OutOfMemory;
    forall l | ok && IsAreaOf(mm.vmas, address, l)
      ensures l == k
    {
    }
  }
}
