/** Virtual addresses as paths, and what linking one fresh frame does to a page-table tree. */
module PageIndices {
  import opened Paging
  import opened Words

  function Pml4Index(address: nat): (i: Index) {
    (address / 0x80_0000_0000 % 512) as Index
  }

  function PdptrIndex(address: nat): (i: Index) {
    (address / 0x4000_0000 % 512) as Index
  }

  function PdIndex(address: nat): (i: Index) {
    (address / 0x20_0000 % 512) as Index
  }

  function PtIndex(address: nat): (i: Index) {
    (address / 0x1000 % 512) as Index
  }

  /** virtaddr2page: the four table indices, in the order the walk uses them. */
  function PathOf(address: nat): (p: Path)
    ensures |p| == 4
  {
    [Pml4Index(address), PdptrIndex(address), PdIndex(address), PtIndex(address)]
  }

  /** The page number a path of four indices stands for. */
  function PageNumber(p: Path): nat
    requires |p| == 4
  {
    var a: nat, b: nat, c: nat, d: nat := p[0] as nat, p[1] as nat, p[2] as nat, p[3] as nat;
    ((a * 512 + b) * 512 + c) * 512 + d
  }

  /** The indices and the page offset reconstruct the low 48 bits of an address. */
  lemma IndicesReconstruct(address: nat)
    ensures PageNumber(PathOf(address)) == address / 4096 % 0x10_0000_0000
    ensures 4096 * PageNumber(PathOf(address)) + address % 4096 == address % 0x1_0000_0000_0000
  {
    var n := address / 4096;
    IndicesAreDigits(address);
    SplitIndices(n);
    RemainderIs(address, n / 0x10_0000_0000, 0x1_0000_0000_0000, 4096 * (n % 0x10_0000_0000) + address % 4096);
  }

  lemma IndicesAreDigits(address: nat)
    ensures var n, p := address / 4096, PathOf(address);
            && p[3] as int == n % 512 && p[2] as int == n / 512 % 512
            && p[1] as int == n / 512 / 512 % 512 && p[0] as int == n / 512 / 512 / 512 % 512
  {
    var n := address / 4096;
    assert address / 0x20_0000 == n / 512;
    assert address / 0x4000_0000 == n / 512 / 512;
    assert address / 0x80_0000_0000 == n / 512 / 512 / 512;
  }

  lemma RemainderIs(n: int, q: int, m: int, x: int)
    requires m > 0 && n == q * m + x && 0 <= x < m
    ensures n % m == x
  {
    var p := q * m;
    assert (x + p) % m == x % m by {
      RemainderKept(x, q, m);
    }
    SmallRemainder(x, m);
  }

  lemma SmallRemainder(x: int, m: int)
    requires 0 <= x < m
    ensures x % m == x
  {
  }

  lemma SplitIndices(n: nat)
    ensures ((n / 512 / 512 / 512 % 512 * 512 + n / 512 / 512 % 512) * 512 + n / 512 % 512) * 512 + n % 512
            == n % 0x10_0000_0000
  {
    var q1 := n / 512;
    var q2 := q1 / 512;
    var q3 := q2 / 512;
    var q4 := q3 / 512;
    assert n == 512 * q1 + n % 512 && q1 == 512 * q2 + q1 % 512;
    assert q2 == 512 * q3 + q2 % 512 && q3 == 512 * q4 + q3 % 512;
    RemainderIs(n, q4, 0x10_0000_0000, ((q3 % 512 * 512 + q2 % 512) * 512 + q1 % 512) * 512 + n % 512);
  }

  /** Conversely every path is the path of its page's address. */
  lemma PathReconstructs(p: Path)
    requires |p| == 4
    ensures PathOf(4096 * PageNumber(p)) == p
    ensures PageNumber(p) < 0x10_0000_0000
  {
    var a: nat, b: nat, c: nat, d: nat := p[0] as nat, p[1] as nat, p[2] as nat, p[3] as nat;
    var n := PageNumber(p);
    assert n / 512 == (a * 512 + b) * 512 + c;
    assert n / 512 / 512 == a * 512 + b;
    assert n / 512 / 512 / 512 == a;
    assert 4096 * n / 0x20_0000 == n / 512;
    assert 4096 * n / 0x4000_0000 == n / 512 / 512;
    assert 4096 * n / 0x80_0000_0000 == n / 512 / 512 / 512;
  }

  lemma SameNumber(p: Path, q: Path)
    requires |p| == 4 && |q| == 4 && PageNumber(p) == PageNumber(q)
    ensures p == q
  {
    PathReconstructs(p);
    PathReconstructs(q);
  }

  /** Two low-half addresses have the same path exactly when they lie in the same page. */
  lemma SamePathSamePage(a: nat, b: nat)
    requires a < 0x1_0000_0000_0000 && b < 0x1_0000_0000_0000
    ensures PathOf(a) == PathOf(b) <==> a / 4096 == b / 4096
  {
    LowPageNumber(a);
    LowPageNumber(b);
    SameNumberIff(PathOf(a), PathOf(b), a / 4096, b / 4096);
  }

  lemma LowPageNumber(a: nat)
    requires a < 0x1_0000_0000_0000
    ensures PageNumber(PathOf(a)) == a / 4096
  {
    IndicesReconstruct(a);
  }

  lemma SameNumberIff(p: Path, q: Path, m: nat, n: nat)
    requires |p| == 4 && |q| == 4 && PageNumber(p) == m && PageNumber(q) == n
    ensures p == q <==> m == n
  {
    if m == n {
      SameNumber(p, q);
    }
  }
}

module PageGrowth {
  import opened Paging

  /** A process's address space: a separated tree of frames that are in use, frame 0 not among them. */
  ghost predicate Space(m: Memory, root: nat, pos: map<nat, Path>, taken: set<nat>) {
    Labelled(m, 4, root, [], pos) && 0 !in pos && pos.Keys <= taken
  }

  function Sevens(n: nat): seq<nat> {
    if n == 0 then [] else [7] + Sevens(n - 1)
  }

  /**
   * The low flags a small page at this path has, or would have if the missing levels were
   * filled with 0x07 links (present, writable, user).
   */
  function FilledFlags(m: Memory, level: nat, f: nat, path: Path): (flags: seq<nat>)
    requires |path| == level
    decreases level
  {
    if level == 0 then []
    else if f < |m| && KindOf(level, m[f][path[0]]) == Link then
      [LowFlags(m[f][path[0]])] + FilledFlags(m, level - 1, Pfn(m[f][path[0]]), path[1..])
    else Sevens(level)
  }

  lemma {:induction false} MappedFlags(m: Memory, level: nat, f: nat, path: Path)
    requires |path| == level && Lookup(m, level, f, path).SmallPage?
    ensures Lookup(m, level, f, path).flags == FilledFlags(m, level, f, path)
    ensures Lookup(m, level, f, path).frame == Reach(m, level, f, path)
    decreases level
  {
    if level > 0 {
      MappedFlags(m, level - 1, Pfn(m[f][path[0]]), path[1..]);
    }
  }

  lemma {:induction false} ReachedIsMapped(m: Memory, level: nat, f: nat, path: Path)
    requires |path| == level && Reach(m, level, f, path) != -1
    ensures Lookup(m, level, f, path).SmallPage? && Lookup(m, level, f, path).frame == Reach(m, level, f, path)
    decreases level
  {
    if level > 0 {
      ReachedIsMapped(m, level - 1, Pfn(m[f][path[0]]), path[1..]);
    }
  }

  /** A table of zeros maps nothing, and its missing levels would be filled with 0x07. */
  lemma ZeroTable(m: Memory, level: nat, c: nat, q: Path)
    requires level > 0 && |q| == level && c < |m| && AllZero(m[c])
    ensures Lookup(m, level, c, q) == Unmapped
    ensures FilledFlags(m, level, c, q) == Sevens(level)
  {
  }

  /** Writes outside a subtree leave its filled flags alone. */
  lemma {:induction false} FilledFrame(m: Memory, m': Memory, level: nat, f: nat, place: Path,
                                       pos: map<nat, Path>, q: Path)
    requires Labelled(m, level, f, place, pos) && AgreeBelow(m, m', place, pos) && |q| == level
    ensures FilledFlags(m', level, f, q) == FilledFlags(m, level, f, q)
    decreases level
  {
    if level > 0 {
      assert place <= pos[f];
      assert m'[f] == m[f];
      if KindOf(level, m[f][q[0]]) == Link {
        AgreeDeeper(m, m', place, q[0], pos);
        FilledFrame(m, m', level - 1, Pfn(m[f][q[0]]), place + [q[0]], pos, q[1..]);
      }
    }
  }

  /** The situation in which a fresh frame c is linked at entry i of table t, which `rest` reaches. */
  ghost predicate CanLink(m: Memory, level: nat, f: nat, place: Path, pos: map<nat, Path>,
                          rest: Path, t: nat, i: Index, c: nat, entry: Word) {
    && |rest| < level
    && Labelled(m, level, f, place, pos)
    && Reach(m, level, f, rest) == t && t < |m| && c < |m| && c !in pos
    && KindOf(level - |rest|, m[t][i]) == Absent
    && KindOf(level - |rest|, entry) == Link && Pfn(entry) == c && LowFlags(entry) == 7
    && (level - |rest| > 1 ==> AllZero(m[c]))
  }

  /** Everything one such link changes: the tree gains c, and only the page completed by it gets a translation. */
  ghost predicate LinkedOnce(m: Memory, level: nat, f: nat, place: Path, pos: map<nat, Path>,
                             rest: Path, i: Index, c: nat, m': Memory) {
    && |rest| < level
    && Labelled(m', level, f, place, pos[c := place + rest + [i]])
    && Reach(m', level, f, rest + [i]) == c
    && (forall q: Path :: |q| == level ==>
          && FilledFlags(m', level, f, q) == FilledFlags(m, level, f, q)
          && (q != rest + [i] ==> Lookup(m', level, f, q) == Lookup(m, level, f, q)))
  }

  /** A write to table t is invisible below any place that is not on t's own path. */
  lemma WriteElsewhere(m: Memory, t: nat, w: Frame, place: Path, pos: map<nat, Path>)
    requires t < |m| && t in pos && !(place <= pos[t])
    ensures AgreeBelow(m, m[t := w], place, pos)
  {
  }

  lemma ExtendsFresh(pos: map<nat, Path>, c: nat, p: Path)
    requires c !in pos
    ensures Extends(pos, pos[c := p])
  {
  }

  /** Two places that part ways at their first index below a common place. */
  lemma PlacesPart(place: Path, rest: Path, j: Index)
    requires |rest| > 0 && rest[0] != j
    ensures !(place + [j] <= place + rest)
  {
    assert (place + [j])[|place|] == j;
    assert (place + rest)[|place|] == rest[0];
  }

  /** The link is made in the root of the subtree itself. */
  lemma LinkHere(m: Memory, level: nat, f: nat, place: Path, pos: map<nat, Path>, i: Index, c: nat, entry: Word)
    requires CanLink(m, level, f, place, pos, [], f, i, c, entry)
    ensures LinkedOnce(m, level, f, place, pos, [], i, c, m[f := m[f][i := entry]])
  {
    var w: Frame := m[f][i := entry];
    var m', pos' := m[f := w], pos[c := place + [] + [i]];
    var here: Path := [i];
    assert place + [] + [i] == place + here && [] + [i] == here;
    ExtendsFresh(pos, c, place + [] + [i]);
    forall j: Index | KindOf(level, w[j]) == Link
      ensures Labelled(m', level - 1, Pfn(w[j]), place + [j], pos')
    {
      if j != i {
        WriteElsewhere(m, f, w, place + [j], pos);
        SubtreeFrame(m, m', level - 1, Pfn(w[j]), place + [j], pos, pos');
      }
    }
    assert m'[f] == w;
    assert Labelled(m', level, f, place, pos');
    assert here[1..] == [] && Reach(m', level, f, here) == c;
    forall q: Path | |q| == level
      ensures FilledFlags(m', level, f, q) == FilledFlags(m, level, f, q)
      ensures q != here ==> Lookup(m', level, f, q) == Lookup(m, level, f, q)
    {
      LinkHereAt(m, level, f, place, pos, i, c, entry, q);
    }
  }

  lemma LinkHereAt(m: Memory, level: nat, f: nat, place: Path, pos: map<nat, Path>, i: Index, c: nat, entry: Word, q: Path)
    requires CanLink(m, level, f, place, pos, [], f, i, c, entry) && |q| == level
    ensures
      var m' := m[f := m[f][i := entry]];
      && FilledFlags(m', level, f, q) == FilledFlags(m, level, f, q)
      && (q != [i] ==> Lookup(m', level, f, q) == Lookup(m, level, f, q))
  {
    var w: Frame := m[f][i := entry];
    var m' := m[f := w];
    if q[0] != i {
      assert m'[f][q[0]] == m[f][q[0]];
      if KindOf(level, m[f][q[0]]) == Link {
        WriteElsewhere(m, f, w, place + [q[0]], pos);
        FilledFrame(m, m', level - 1, Pfn(m[f][q[0]]), place + [q[0]], pos, q[1..]);
        SubtreeFrame(m, m', level - 1, Pfn(m[f][q[0]]), place + [q[0]], pos, pos);
        assert Lookup(m', level - 1, Pfn(m[f][q[0]]), q[1..]) == Lookup(m, level - 1, Pfn(m[f][q[0]]), q[1..]);
        assert Lookup(m', level, f, q) == Lookup(m, level, f, q);
      } else {
        assert Lookup(m', level, f, q) == Lookup(m, level, f, q);
      }
    } else if level > 1 {
      ZeroTable(m', level - 1, c, q[1..]);
      assert KindOf(level, m'[f][q[0]]) == Link && Pfn(m'[f][q[0]]) == c;
      assert Lookup(m', level, f, q) == Unmapped;
      assert Lookup(m, level, f, q) == Unmapped;
      assert FilledFlags(m', level, f, q) == FilledFlags(m, level, f, q);
    } else {
      assert q[1..] == [] && q == [i];
    }
  }

  /** The link is made further down, below entry rest[0]. */
  lemma LinkBelow(m: Memory, level: nat, f: nat, place: Path, pos: map<nat, Path>,
                  rest: Path, t: nat, i: Index, c: nat, w: Frame)
    requires 0 < |rest| < level && Labelled(m, level, f, place, pos)
    requires KindOf(level, m[f][rest[0]]) == Link && c !in pos
    requires t in pos && pos[t] == place + rest && t < |m|
    requires LinkedOnce(m, level - 1, Pfn(m[f][rest[0]]), place + [rest[0]], pos, rest[1..], i, c, m[t := w])
    ensures LinkedOnce(m, level, f, place, pos, rest, i, c, m[t := w])
  {
    LinkBelowTree(m, level, f, place, pos, rest, t, i, c, w);
    assert (rest + [i])[1..] == rest[1..] + [i];
    assert m[t := w][f] == m[f];
    forall q: Path | |q| == level
      ensures FilledFlags(m[t := w], level, f, q) == FilledFlags(m, level, f, q)
      ensures q != rest + [i] ==> Lookup(m[t := w], level, f, q) == Lookup(m, level, f, q)
    {
      LinkBelowAt(m, level, f, place, pos, rest, t, i, c, w, q);
    }
  }

  lemma LinkBelowTree(m: Memory, level: nat, f: nat, place: Path, pos: map<nat, Path>,
                      rest: Path, t: nat, i: Index, c: nat, w: Frame)
    requires 0 < |rest| < level && Labelled(m, level, f, place, pos)
    requires KindOf(level, m[f][rest[0]]) == Link && c !in pos
    requires t in pos && pos[t] == place + rest && t < |m|
    requires Labelled(m[t := w], level - 1, Pfn(m[f][rest[0]]), place + [rest[0]],
                      pos[c := place + [rest[0]] + rest[1..] + [i]])
    ensures f != t && Labelled(m[t := w], level, f, place, pos[c := place + rest + [i]])
  {
    var m', k := m[t := w], rest[0];
    var pos' := pos[c := place + rest + [i]];
    assert place + [k] + rest[1..] + [i] == place + rest + [i];
    assert |place + rest| > |place|;
    assert m'[f] == m[f];
    ExtendsFresh(pos, c, place + rest + [i]);
    forall j: Index | KindOf(level, m[f][j]) == Link
      ensures Labelled(m', level - 1, Pfn(m[f][j]), place + [j], pos')
    {
      if j != k {
        PlacesPart(place, rest, j);
        WriteElsewhere(m, t, w, place + [j], pos);
        SubtreeFrame(m, m', level - 1, Pfn(m[f][j]), place + [j], pos, pos');
      }
    }
  }

  lemma LinkBelowAt(m: Memory, level: nat, f: nat, place: Path, pos: map<nat, Path>,
                    rest: Path, t: nat, i: Index, c: nat, w: Frame, q: Path)
    requires 0 < |rest| < level && Labelled(m, level, f, place, pos)
    requires KindOf(level, m[f][rest[0]]) == Link
    requires t in pos && pos[t] == place + rest && t < |m|
    requires LinkedOnce(m, level - 1, Pfn(m[f][rest[0]]), place + [rest[0]], pos, rest[1..], i, c, m[t := w])
    requires |q| == level
    ensures FilledFlags(m[t := w], level, f, q) == FilledFlags(m, level, f, q)
    ensures q != rest + [i] ==> Lookup(m[t := w], level, f, q) == Lookup(m, level, f, q)
  {
    assert |place + rest| > |place|;
    assert m[t := w][f] == m[f];
    if q[0] == rest[0] {
      LinkThrough(m, m[t := w], level, f, rest, i, q);
    } else {
      LinkPast(m, level, f, place, pos, rest, t, w, q);
    }
  }

  /** Pages whose path takes the same entry as the link. */
  lemma LinkThrough(m: Memory, m': Memory, level: nat, f: nat, rest: Path, i: Index, q: Path)
    requires 0 < |rest| < level && |q| == level && q[0] == rest[0]
    requires f < |m| && f < |m'| && m'[f] == m[f] && KindOf(level, m[f][q[0]]) == Link
    requires var g := Pfn(m[f][q[0]]);
             && FilledFlags(m', level - 1, g, q[1..]) == FilledFlags(m, level - 1, g, q[1..])
             && (q[1..] != rest[1..] + [i] ==> Lookup(m', level - 1, g, q[1..]) == Lookup(m, level - 1, g, q[1..]))
    ensures FilledFlags(m', level, f, q) == FilledFlags(m, level, f, q)
    ensures q != rest + [i] ==> Lookup(m', level, f, q) == Lookup(m, level, f, q)
  {
    SameBelow(m, m', level, f, q);
    if q != rest + [i] {
      SplitPath(q, rest, i);
    }
  }

  /** Pages whose path takes another entry. */
  lemma LinkPast(m: Memory, level: nat, f: nat, place: Path, pos: map<nat, Path>, rest: Path, t: nat, w: Frame, q: Path)
    requires 0 < |rest| < level && Labelled(m, level, f, place, pos) && |q| == level && q[0] != rest[0]
    requires t in pos && pos[t] == place + rest && t < |m| && m[t := w][f] == m[f]
    ensures FilledFlags(m[t := w], level, f, q) == FilledFlags(m, level, f, q)
    ensures Lookup(m[t := w], level, f, q) == Lookup(m, level, f, q)
  {
    if KindOf(level, m[f][q[0]]) == Link {
      PlacesPart(place, rest, q[0]);
      LinkAside(m, level - 1, Pfn(m[f][q[0]]), place + [q[0]], pos, t, w, q[1..]);
      SameBelow(m, m[t := w], level, f, q);
    } else {
      SameAside(m, m[t := w], level, f, q);
    }
  }

  /** A page whose path starts in the same entry is translated the same if the levels below agree. */
  lemma SameBelow(m: Memory, m': Memory, level: nat, f: nat, q: Path)
    requires 0 < level == |q| && f < |m| && f < |m'| && m'[f] == m[f] && KindOf(level, m[f][q[0]]) == Link
    ensures var g := Pfn(m[f][q[0]]);
            && (FilledFlags(m', level - 1, g, q[1..]) == FilledFlags(m, level - 1, g, q[1..]) ==>
                  FilledFlags(m', level, f, q) == FilledFlags(m, level, f, q))
            && (Lookup(m', level - 1, g, q[1..]) == Lookup(m, level - 1, g, q[1..]) ==>
                  Lookup(m', level, f, q) == Lookup(m, level, f, q))
  {
  }

  lemma SameAside(m: Memory, m': Memory, level: nat, f: nat, q: Path)
    requires 0 < level == |q| && f < |m| && f < |m'| && m'[f] == m[f] && KindOf(level, m[f][q[0]]) != Link
    ensures FilledFlags(m', level, f, q) == FilledFlags(m, level, f, q)
    ensures Lookup(m', level, f, q) == Lookup(m, level, f, q)
  {
  }

  lemma SplitPath(q: Path, rest: Path, i: Index)
    requires q != [] && rest != [] && q[0] == rest[0] && q != rest + [i]
    ensures q[1..] != rest[1..] + [i]
  {
    assert q == [rest[0]] + q[1..] && rest + [i] == [rest[0]] + (rest[1..] + [i]);
  }

  /** A subtree that does not hold the written table translates as before. */
  lemma LinkAside(m: Memory, level: nat, g: nat, place: Path, pos: map<nat, Path>, t: nat, w: Frame, q: Path)
    requires Labelled(m, level, g, place, pos) && |q| == level
    requires t in pos && !(place <= pos[t]) && t < |m|
    ensures FilledFlags(m[t := w], level, g, q) == FilledFlags(m, level, g, q)
    ensures Lookup(m[t := w], level, g, q) == Lookup(m, level, g, q)
  {
    WriteElsewhere(m, t, w, place, pos);
    FilledFrame(m, m[t := w], level, g, place, pos, q);
    SubtreeFrame(m, m[t := w], level, g, place, pos, pos);
  }

  lemma {:induction false} LinkFresh(m: Memory, level: nat, f: nat, place: Path, pos: map<nat, Path>,
                                     rest: Path, t: nat, i: Index, c: nat, entry: Word)
    requires CanLink(m, level, f, place, pos, rest, t, i, c, entry)
    ensures LinkedOnce(m, level, f, place, pos, rest, i, c, m[t := m[t][i := entry]])
    decreases level
  {
    if rest == [] {
      LinkHere(m, level, f, place, pos, i, c, entry);
    } else {
      var g := Pfn(m[f][rest[0]]);
      LabelIsPath(m, level, f, place, pos, rest);
      assert place + rest == place + [rest[0]] + rest[1..];
      LinkFresh(m, level - 1, g, place + [rest[0]], pos, rest[1..], t, i, c, entry);
      LinkBelow(m, level, f, place, pos, rest, t, i, c, m[t][i := entry]);
    }
  }
}
