/**
 * Four-level paging: entries, indices, and what a table in physical memory translates
 * (Intel SDM Vol. 3A, section 4.5). Physical memory is a sequence of 512-word frames.
 */
module Paging {
  import opened Words

  type Word = w: nat | w < 0x1_0000_0000_0000_0000

  type Frame = f: seq<Word> | |f| == 512 witness seq(512, _ => 0)

  type Memory = seq<Frame>

  newtype Index = i: int | 0 <= i < 512

  /** Indices from the top-level table downwards; a page's path has four. */
  type Path = seq<Index>

  const ENTRY_NUM: nat := 512

  function ZeroFrame(): (f: Frame)
    ensures AllZero(f)
  {
    seq(512, _ => 0)
  }

  predicate AllZero(f: Frame) {
    forall i: Index :: f[i] == 0
  }

  /** `entry & ~PAGE_ADDR_MASK`, as a frame number: bits 12 to 47. */
  function Pfn(entry: Word): nat {
    entry / 4096 % 0x10_0000_0000
  }

  /** `entry & 0b111`: present, writable, user. */
  function LowFlags(entry: Word): nat {
    entry % 8
  }

  /** is_huge_page: the PS bit. */
  predicate IsHugePage(entry: Word) {
    entry / 128 % 2 == 1
  }

  /** An entry assembled from flags and a page-aligned physical address. */
  function MakeEntry(flags: nat, pfn: nat): (e: Word)
    requires flags < 8 && pfn < 0x10_0000_0000
  {
    flags + 4096 * pfn
  }

  lemma MadeEntry(flags: nat, pfn: nat)
    requires flags < 8 && pfn < 0x10_0000_0000
    ensures var e := MakeEntry(flags, pfn);
            Pfn(e) == pfn && LowFlags(e) == flags && !IsHugePage(e)
  {
    ShiftedOut(flags, pfn, 4096);
    ShiftedOut(flags, 32 * pfn, 128);
    ShiftedOut(flags, 512 * pfn, 8);
  }

  lemma ShiftedOut(low: nat, high: nat, unit: nat)
    requires low < unit
    ensures (low + unit * high) / unit == high && (low + unit * high) % unit == low
  {
    var e := low + unit * high;
    assert (high - e / unit) * unit == e % unit - low;
    MultipleBeyond(high - e / unit, unit);
  }

  /**
   * The fields of an entry, by their bit positions: present, writable and user (0 to 2), the bits the
   * CPU sets and caching (3 to 6), PS (7), 8 to 11, the frame number (12 to 47), and the rest up to NX.
   */
  datatype Fields = Fields(flags: nat, status: nat, ps: nat, avail: nat, pfn: nat, top: nat)

  predicate InRange(f: Fields) {
    f.flags < 8 && f.status < 16 && f.ps < 2 && f.avail < 16 && f.pfn < 0x10_0000_0000 && f.top < 0x1_0000
  }

  function Assemble(f: Fields): nat {
    f.flags + 8 * f.status + 128 * f.ps + 256 * f.avail + 4096 * f.pfn + 0x1_0000_0000_0000 * f.top
  }

  /** Every word has these fields. */
  lemma EveryEntryHasFields(w: Word)
    ensures exists f :: InRange(f) && Assemble(f) == w
  {
    var a := w / 8;
    var b := a / 16;
    var c := b / 2;
    var d := c / 16;
    var e := d / 0x10_0000_0000;
    var f := Fields(w % 8, a % 16, b % 2, c % 16, d % 0x10_0000_0000, e);
    assert InRange(f) && Assemble(f) == w;
  }

  /** What the kernel reads of an entry: bit 7, the three low bits and bits 12 to 47, whatever the others are. */
  lemma EntryFields(f: Fields)
    requires InRange(f)
    ensures Assemble(f) < 0x1_0000_0000_0000_0000
    ensures IsHugePage(Assemble(f)) <==> f.ps == 1
    ensures LowFlags(Assemble(f)) == f.flags
    ensures Pfn(Assemble(f)) == f.pfn
  {
    var high := f.pfn + 0x10_0000_0000 * f.top;
    var from7 := f.ps + 2 * (f.avail + 16 * high);
    ShiftedOut(f.flags + 8 * f.status, from7, 128);
    ShiftedOut(f.ps, f.avail + 16 * high, 2);
    ShiftedOut(f.flags, f.status + 16 * from7, 8);
    ShiftedOut(f.flags + 8 * f.status + 128 * f.ps + 256 * f.avail, high, 4096);
    ShiftedOut(f.pfn, f.top, 0x10_0000_0000);
  }

  datatype Kind = Absent | Huge | Link

  /** How the kernel reads an entry of a level-4, 3, 2 or 1 table: zero, a huge page, or a frame below. */
  function KindOf(level: nat, entry: Word): Kind {
    if entry == 0 then Absent
    else if (level == 3 || level == 2) && IsHugePage(entry) then Huge
    else Link
  }

  /** Only in the two middle levels, and only by bit 7, is a nonzero entry anything but a link. */
  lemma KindByBits(level: nat, f: Fields)
    requires InRange(f) && Assemble(f) != 0
    ensures Assemble(f) < 0x1_0000_0000_0000_0000
    ensures KindOf(level, Assemble(f)) == if f.ps == 1 && (level == 3 || level == 2) then Huge else Link
  {
    EntryFields(f);
  }

  datatype Translation =
    | Unmapped
    | HugePage(flags: seq<nat>, entry: Word)
    | SmallPage(flags: seq<nat>, frame: nat)
  {
    function Under(flag: nat): Translation {
      match this
      case Unmapped => Unmapped
      case HugePage(fs, e) => HugePage([flag] + fs, e)
      case SmallPage(fs, f) => SmallPage([flag] + fs, f)
    }
  }

  /** The translation of a page by the level-`level` table in frame f, with the low flags met on the way down. */
  function Lookup(m: Memory, level: nat, f: nat, path: Path): Translation
    requires |path| == level
    decreases level
  {
    if level == 0 then SmallPage([], f)
    else if f >= |m| then Unmapped
    else
      var e := m[f][path[0]];
      match KindOf(level, e)
      case Absent => Unmapped
      case Huge => HugePage([LowFlags(e)], e)
      case Link => Lookup(m, level - 1, Pfn(e), path[1..]).Under(LowFlags(e))
  }

  /**
   * Tree shape with separation. `pos` names the one place each frame of the tree has: the path
   * from the root that reaches it. Since pos is a function, no frame is reached by two paths.
   */
  ghost predicate Labelled(m: Memory, level: nat, f: nat, place: Path, pos: map<nat, Path>)
    decreases level
  {
    && f < |m| && f in pos && pos[f] == place
    && (level > 0 ==>
          forall i: Index :: KindOf(level, m[f][i]) == Link ==>
            Labelled(m, level - 1, Pfn(m[f][i]), place + [i], pos))
  }

  /** The frame at the end of a chain of links, if there is one. */
  function Reach(m: Memory, level: nat, f: nat, path: Path): (r: int)
    requires |path| <= level
    decreases level
    ensures r >= -1
  {
    if path == [] then f
    else if f >= |m| || KindOf(level, m[f][path[0]]) != Link then -1
    else Reach(m, level - 1, Pfn(m[f][path[0]]), path[1..])
  }

  /** Links walked in two stages. */
  lemma {:induction false} ReachTwice(m: Memory, level: nat, f: nat, p: Path, i: Index)
    requires |p| < level && Reach(m, level, f, p) != -1
    ensures Reach(m, level, f, p + [i]) ==
            var t := Reach(m, level, f, p);
            if t < |m| && KindOf(level - |p|, m[t][i]) == Link then Pfn(m[t][i]) else -1
    decreases level
  {
    if p == [] {
      assert p + [i] == [i];
    } else {
      assert (p + [i])[1..] == p[1..] + [i];
      ReachTwice(m, level - 1, Pfn(m[f][p[0]]), p[1..], i);
    }
  }

  /** Labels tell the truth: a frame reached by a path carries that path as its place. */
  lemma {:induction false} LabelIsPath(m: Memory, level: nat, f: nat, place: Path, pos: map<nat, Path>, path: Path)
    requires Labelled(m, level, f, place, pos) && |path| <= level
    requires Reach(m, level, f, path) != -1
    ensures
      var r := Reach(m, level, f, path);
      r < |m| && r in pos && pos[r] == place + path && Labelled(m, level - |path|, r, place + path, pos)
    decreases level
  {
    if path == [] {
      assert place + path == place;
    } else {
      LabelIsPath(m, level - 1, Pfn(m[f][path[0]]), place + [path[0]], pos, path[1..]);
      assert place + [path[0]] + path[1..] == place + path;
    }
  }

  /** Separation: two different paths never reach the same frame. */
  lemma ReachInjective(m: Memory, level: nat, f: nat, pos: map<nat, Path>, p: Path, q: Path)
    requires Labelled(m, level, f, [], pos) && |p| <= level && |q| <= level
    requires Reach(m, level, f, p) != -1 && Reach(m, level, f, p) == Reach(m, level, f, q)
    ensures p == q
  {
    LabelIsPath(m, level, f, [], pos, p);
    LabelIsPath(m, level, f, [], pos, q);
    assert [] + p == p && [] + q == q;
  }

  /** Two memories agree on every labelled frame at or below a place. */
  ghost predicate AgreeBelow(m: Memory, m': Memory, place: Path, pos: map<nat, Path>) {
    && |m'| == |m|
    && forall x :: x in pos && place <= pos[x] && x < |m| ==> m'[x] == m[x]
  }

  ghost predicate Extends(pos: map<nat, Path>, pos': map<nat, Path>) {
    forall x :: x in pos ==> x in pos' && pos'[x] == pos[x]
  }

  lemma AgreeDeeper(m: Memory, m': Memory, place: Path, i: Index, pos: map<nat, Path>)
    requires AgreeBelow(m, m', place, pos)
    ensures AgreeBelow(m, m', place + [i], pos)
  {
    forall x | x in pos && place + [i] <= pos[x] && x < |m|
      ensures m'[x] == m[x]
    {
      assert place <= place + [i] <= pos[x];
    }
  }

  /** Writes outside a subtree leave it a labelled tree with the same translations. */
  lemma {:induction false} SubtreeFrame(m: Memory, m': Memory, level: nat, f: nat, place: Path,
                                        pos: map<nat, Path>, pos': map<nat, Path>)
    requires Labelled(m, level, f, place, pos) && AgreeBelow(m, m', place, pos) && Extends(pos, pos')
    ensures Labelled(m', level, f, place, pos')
    ensures forall q: Path :: |q| == level ==> Lookup(m', level, f, q) == Lookup(m, level, f, q)
    decreases level
  {
    if level > 0 {
      assert place <= pos[f];
      assert m'[f] == m[f];
      forall i: Index | KindOf(level, m[f][i]) == Link
        ensures Labelled(m', level - 1, Pfn(m[f][i]), place + [i], pos')
        ensures forall q: Path :: |q| == level - 1 ==>
                  Lookup(m', level - 1, Pfn(m[f][i]), q) == Lookup(m, level - 1, Pfn(m[f][i]), q)
      {
        AgreeDeeper(m, m', place, i, pos);
        SubtreeFrame(m, m', level - 1, Pfn(m[f][i]), place + [i], pos, pos');
      }
      forall q: Path | |q| == level
        ensures Lookup(m', level, f, q) == Lookup(m, level, f, q)
      {
        var i: Index := q[0];
        assert KindOf(level, m[f][i]) == Link ==>
            Lookup(m', level - 1, Pfn(m[f][i]), q[1..]) == Lookup(m, level - 1, Pfn(m[f][i]), q[1..]);
      }
    }
  }
}
