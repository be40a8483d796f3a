/** fat.c: following a FAT12 cluster chain. Sector reads are a partial map from block address to bytes. */
module Fat12Spec {
  import opened Options
  import opened Words

  newtype Byte = b: int | 0 <= b < 256

  type Sector = s: seq<Byte> | |s| == 512 witness seq(512, _ => 0)

  /** A readable block's bytes; reads of any other block fail. */
  type Disk = map<nat, Sector>

  /** The fields of fat12_t that reading uses. */
  datatype Volume = Volume(fatStart: nat, dataStart: nat, sectorsPerCluster: nat)

  /** cluster_to_lba. */
  function ClusterToLba(fs: Volume, cluster: nat): nat {
    Wrap32(fs.dataStart + Wrap32(cluster - 2) * fs.sectorsPerCluster)
  }

  lemma PlainLba(fs: Volume, c: nat)
    requires 2 <= c < 0xFF8 && fs.dataStart + 0xFF8 * fs.sectorsPerCluster < 0x1_0000_0000
    ensures ClusterToLba(fs, c) == fs.dataStart + (c - 2) * fs.sectorsPerCluster
  {
    ProductsOrder(0, c - 2, fs.sectorsPerCluster);
    ProductsOrder(c - 2, 0xFF8, fs.sectorsPerCluster);
    Wrap32Exact(c - 2);
    Wrap32Exact(fs.dataStart + (c - 2) * fs.sectorsPerCluster);
  }

  /** On a volume below the 32-bit limit, data clusters tile the data area from its start, one after the other. */
  lemma ClustersTile(fs: Volume, c: nat, d: nat)
    requires 2 <= c <= d < 0xFF8 && fs.dataStart + 0xFF8 * fs.sectorsPerCluster < 0x1_0000_0000
    ensures ClusterToLba(fs, 2) == fs.dataStart
    ensures ClusterToLba(fs, d) == ClusterToLba(fs, c) + (d - c) * fs.sectorsPerCluster
  {
    PlainLba(fs, 2);
    PlainLba(fs, c);
    PlainLba(fs, d);
    Distribute(c - 2, d - c, fs.sectorsPerCluster);
  }

  lemma Distribute(x: int, y: int, n: int)
    ensures (x + y) * n == x * n + y * n
  {
  }

  // ---------- the file allocation table ----------

  function FatOffset(cluster: nat): nat {
    cluster + cluster / 2
  }

  function FatSector(fs: Volume, cluster: nat): nat {
    Wrap32(fs.fatStart + FatOffset(cluster) / 512)
  }

  /** The entry's second byte lies in the next sector. */
  predicate Straddles(cluster: nat) {
    FatOffset(cluster) % 512 == 511
  }

  /** Two entries packed in three bytes, as the FAT12 format lays them out. */
  function EvenEntry(b0: Byte, b1: Byte): nat {
    b0 as int + 256 * (b1 as int % 16)
  }

  function OddEntry(b1: Byte, b2: Byte): nat {
    b1 as int / 16 + 16 * b2 as int
  }

  /** Byte i of the table. */
  function FatByte(fs: Volume, disk: Disk, i: nat): Option<Byte> {
    var lba := Wrap32(fs.fatStart + i / 512);
    if lba in disk then Some(disk[lba][i % 512]) else None
  }

  /** The entry of a cluster: its half of the three bytes that hold it and its pair. */
  function Entry(fs: Volume, disk: Disk, cluster: nat): Option<nat> {
    var first := cluster / 2 * 3 + cluster % 2;
    match (FatByte(fs, disk, first), FatByte(fs, disk, first + 1))
    case (Some(x), Some(y)) => Some(if cluster % 2 == 0 then EvenEntry(x, y) else OddEntry(x, y))
    case _ => None
  }

  /** The three bytes that hold a pair of entries. */
  function PackPair(even: nat, odd: nat): (Byte, Byte, Byte)
    requires even < 4096 && odd < 4096
  {
    ((even % 256) as Byte, (even / 256 + 16 * (odd % 16)) as Byte, (odd / 16) as Byte)
  }

  /** The three bytes are one little-endian 24-bit number whose low 12 bits are the even entry. */
  lemma PairIsLittleEndian(even: nat, odd: nat)
    requires even < 4096 && odd < 4096
    ensures var (b0, b1, b2) := PackPair(even, odd);
            b0 as int + 256 * b1 as int + 65536 * b2 as int == even + 4096 * odd
  {
    assert even == 256 * (even / 256) + even % 256 && odd == 16 * (odd / 16) + odd % 16;
  }

  /** Unpacking is the inverse of packing, both ways. */
  lemma UnpackPacked(even: nat, odd: nat)
    requires even < 4096 && odd < 4096
    ensures var (b0, b1, b2) := PackPair(even, odd);
            EvenEntry(b0, b1) == even && OddEntry(b1, b2) == odd
  {
    var b1 := even / 256 + 16 * (odd % 16);
    assert b1 % 16 == even / 256 && b1 / 16 == odd % 16;
  }

  lemma PackUnpacked(b0: Byte, b1: Byte, b2: Byte)
    ensures EvenEntry(b0, b1) < 4096 && OddEntry(b1, b2) < 4096
    ensures PackPair(EvenEntry(b0, b1), OddEntry(b1, b2)) == (b0, b1, b2)
  {
    var q, r := b1 as int / 16, b1 as int % 16;
    var even, odd := EvenEntry(b0, b1), OddEntry(b1, b2);
    assert even == b0 as int + 256 * r && odd == q + 16 * b2 as int;
    Digits(b0 as int, r, 256);
    Digits(q, b2 as int, 16);
  }

  lemma Digits(low: int, high: int, m: int)
    requires 0 <= low < m && 0 <= high
    ensures (low + m * high) % m == low && (low + m * high) / m == high
  {
    var n := low + m * high;
    assert m * (n / m - high) == low - n % m;
    MultipleBeyond(n / m - high, m);
  }

  /** read_fat_entry: only the sector of the first byte is read; `beyond` is what follows the sector buffer. */
  function ReadEntry(fs: Volume, disk: Disk, cluster: nat, beyond: Byte): Option<nat> {
    var lba := FatSector(fs, cluster);
    if lba !in disk then None
    else
      var o := FatOffset(cluster) % 512;
      var high := if o < 511 then disk[lba][o + 1] else beyond;
      var val := disk[lba][o] as int + 256 * high as int;
      Some(if cluster % 2 == 1 then val / 16 else val % 4096)
  }

  lemma OffsetIsPacked(cluster: nat)
    ensures FatOffset(cluster) == cluster / 2 * 3 + cluster % 2
  {
  }

  lemma ValueIsEntry(low: Byte, high: Byte)
    ensures (low as int + 256 * high as int) / 16 == OddEntry(low, high)
    ensures (low as int + 256 * high as int) % 4096 == EvenEntry(low, high)
  {
    assert low as int == low as int / 16 * 16 + low as int % 16;
    assert high as int == high as int / 16 * 16 + high as int % 16;
  }

  /** An entry within one sector is decoded as the format says, and its read fails only with that sector. */
  lemma ReadEntryDecodes(fs: Volume, disk: Disk, cluster: nat, beyond: Byte)
    requires !Straddles(cluster)
    ensures ReadEntry(fs, disk, cluster, beyond) == Entry(fs, disk, cluster)
  {
    var i := FatOffset(cluster);
    OffsetIsPacked(cluster);
    assert (i + 1) / 512 == i / 512 && (i + 1) % 512 == i % 512 + 1;
    var lba := FatSector(fs, cluster);
    if lba in disk {
      ValueIsEntry(disk[lba][i % 512], disk[lba][i % 512 + 1]);
    }
  }

  /**
   * On a readable table, the decoded entry is right whatever follows the buffer exactly when the
   * entry does not straddle two sectors.
   */
  lemma DecodesIff(fs: Volume, disk: Disk, cluster: nat)
    requires Entry(fs, disk, cluster).Some?
    ensures (forall beyond :: ReadEntry(fs, disk, cluster, beyond) == Entry(fs, disk, cluster)) <==> !Straddles(cluster)
  {
    if Straddles(cluster) {
      StraddlingReadsBeyond(fs, disk, cluster);
    } else {
      forall beyond
        ensures ReadEntry(fs, disk, cluster, beyond) == Entry(fs, disk, cluster)
      {
        ReadEntryDecodes(fs, disk, cluster, beyond);
      }
    }
  }

  lemma StraddlingReadsBeyond(fs: Volume, disk: Disk, cluster: nat)
    requires Straddles(cluster) && Entry(fs, disk, cluster).Some?
    ensures ReadEntry(fs, disk, cluster, 0) != ReadEntry(fs, disk, cluster, 1)
  {
    OffsetIsPacked(cluster);
    var low := disk[FatSector(fs, cluster)][511];
    ValueIsEntry(low, 0);
    ValueIsEntry(low, 1);
  }

  /** The first cluster whose entry straddles two sectors. */
  lemma FirstStraddler(cluster: nat)
    ensures Straddles(341)
    ensures cluster < 341 ==> !Straddles(cluster)
  {
  }

  // ---------- the chain ----------

  /** A cluster number that the reading loop goes on with. */
  predicate IsData(cluster: nat) {
    2 <= cluster < 0xFF8
  }

  /** The k-th cluster of the chain that starts at `first`; a chain may be cyclic. */
  function Nth(fs: Volume, disk: Disk, beyond: Byte, first: nat, k: nat): Option<nat> {
    if k == 0 then Some(first)
    else
      match Nth(fs, disk, beyond, first, k - 1)
      case None => None
      case Some(c) => if IsData(c) then ReadEntry(fs, disk, c, beyond) else None
  }

  /** The chain has a k-th data cluster. */
  predicate Reaches(fs: Volume, disk: Disk, beyond: Byte, first: nat, k: nat) {
    var c := Nth(fs, disk, beyond, first, k);
    c.Some? && IsData(c.value)
  }

  /** Its sector and its table entry can be read. */
  predicate Readable(fs: Volume, disk: Disk, beyond: Byte, first: nat, k: nat)
    requires Reaches(fs, disk, beyond, first, k)
  {
    var c := Nth(fs, disk, beyond, first, k).value;
    ClusterToLba(fs, c) in disk && ReadEntry(fs, disk, c, beyond).Some?
  }

  /** The first sector of the k-th cluster. */
  function SectorOf(fs: Volume, disk: Disk, beyond: Byte, first: nat, k: nat): Sector
    requires Reaches(fs, disk, beyond, first, k) && Readable(fs, disk, beyond, first, k)
  {
    disk[ClusterToLba(fs, Nth(fs, disk, beyond, first, k).value)]
  }

  lemma {:induction false} ReachesBefore(fs: Volume, disk: Disk, beyond: Byte, first: nat, k: nat, j: nat)
    requires Reaches(fs, disk, beyond, first, k) && j <= k
    ensures Reaches(fs, disk, beyond, first, j)
    ensures j < k ==> ReadEntry(fs, disk, Nth(fs, disk, beyond, first, j).value, beyond).Some?
    decreases k - j
  {
    if j < k {
      ReachesBefore(fs, disk, beyond, first, k, j + 1);
    }
  }

  /** A chain that comes back to a data cluster goes round for ever. */
  lemma {:induction false} CycleRepeats(fs: Volume, disk: Disk, beyond: Byte, first: nat, i: nat, period: nat, k: nat)
    requires period > 0 && Reaches(fs, disk, beyond, first, i)
    requires Nth(fs, disk, beyond, first, i + period) == Nth(fs, disk, beyond, first, i)
    ensures Reaches(fs, disk, beyond, first, k)
    ensures k >= i ==> Nth(fs, disk, beyond, first, k + period) == Nth(fs, disk, beyond, first, k)
  {
    if k >= i {
      CyclePeriod(fs, disk, beyond, first, i, period, k);
    }
    if k <= i {
      ReachesBefore(fs, disk, beyond, first, i, k);
    } else if k <= i + period {
      SameReach(fs, disk, beyond, first, i, i + period);
      ReachesBefore(fs, disk, beyond, first, i + period, k);
    } else {
      CycleRepeats(fs, disk, beyond, first, i, period, k - period);
      SameReach(fs, disk, beyond, first, k - period, k);
    }
  }

  lemma {:induction false} CyclePeriod(fs: Volume, disk: Disk, beyond: Byte, first: nat, i: nat, period: nat, k: nat)
    requires Nth(fs, disk, beyond, first, i + period) == Nth(fs, disk, beyond, first, i) && i <= k
    ensures Nth(fs, disk, beyond, first, k + period) == Nth(fs, disk, beyond, first, k)
    decreases k
  {
    if i < k {
      CyclePeriod(fs, disk, beyond, first, i, period, k - 1);
      SameNext(fs, disk, beyond, first, k - 1, k - 1 + period);
    }
  }

  lemma SameReach(fs: Volume, disk: Disk, beyond: Byte, first: nat, j: nat, k: nat)
    requires Nth(fs, disk, beyond, first, k) == Nth(fs, disk, beyond, first, j)
    ensures Reaches(fs, disk, beyond, first, j) <==> Reaches(fs, disk, beyond, first, k)
  {
  }

  lemma SameNext(fs: Volume, disk: Disk, beyond: Byte, first: nat, j: nat, k: nat)
    requires Nth(fs, disk, beyond, first, j) == Nth(fs, disk, beyond, first, k)
    ensures Nth(fs, disk, beyond, first, j + 1) == Nth(fs, disk, beyond, first, k + 1)
  {
  }

  /** The first n clusters can all be read. */
  ghost predicate Loaded(fs: Volume, disk: Disk, beyond: Byte, first: nat, n: nat) {
    forall k :: 0 <= k < n ==> Reaches(fs, disk, beyond, first, k) && Readable(fs, disk, beyond, first, k)
  }

  /** The bytes of the first n sectors of the chain. */
  ghost function Contents(fs: Volume, disk: Disk, beyond: Byte, first: nat, n: nat): (s: seq<Byte>)
    requires Loaded(fs, disk, beyond, first, n)
    ensures |s| == 512 * n
  {
    if n == 0 then []
    else Contents(fs, disk, beyond, first, n - 1) + SectorOf(fs, disk, beyond, first, n - 1)
  }

  function Min(a: nat, b: nat): nat {
    if a <= b then a else b
  }

  // ---------- a file laid out on the disk ----------

  /** Where a table holds the packed entries of a pair of clusters, they are the entries of these clusters. */
  lemma TableHoldsPair(fs: Volume, disk: Disk, pair: nat, even: nat, odd: nat)
    requires even < 4096 && odd < 4096
    requires var (b0, b1, b2) := PackPair(even, odd);
             && FatByte(fs, disk, 3 * pair) == Some(b0)
             && FatByte(fs, disk, 3 * pair + 1) == Some(b1)
             && FatByte(fs, disk, 3 * pair + 2) == Some(b2)
    ensures Entry(fs, disk, 2 * pair) == Some(even) && Entry(fs, disk, 2 * pair + 1) == Some(odd)
  {
    UnpackPacked(even, odd);
  }

  /** The sector of a data cluster, from the volume's layout alone. */
  function SectorAt(fs: Volume, cluster: nat): int {
    fs.dataStart + (cluster - 2) * fs.sectorsPerCluster
  }

  /**
   * The clusters of a file: data clusters from 2 to 0xFF7 on readable sectors, whose table entries do
   * not straddle two sectors, each entry naming the next cluster, the last one naming none.
   */
  ghost predicate IsFile(fs: Volume, disk: Disk, chain: seq<nat>) {
    && chain != [] && fs.dataStart + 0xFF8 * fs.sectorsPerCluster < 0x1_0000_0000
    && (forall i :: 0 <= i < |chain| ==>
          && 2 <= chain[i] <= 0xFF7 && (chain[i] * 3 / 2) % 512 != 511
          && SectorAt(fs, chain[i]) in disk && Entry(fs, disk, chain[i]).Some?)
    && (forall i :: 0 <= i < |chain| - 1 ==> Entry(fs, disk, chain[i]).value == chain[i + 1])
    && !(2 <= Entry(fs, disk, chain[|chain| - 1]).value <= 0xFF7)
  }

  /** The bytes of these clusters' sectors, one after the other. */
  ghost function FileBytes(fs: Volume, disk: Disk, chain: seq<nat>): (s: seq<Byte>)
    requires forall i :: 0 <= i < |chain| ==> SectorAt(fs, chain[i]) in disk
    ensures |s| == 512 * |chain|
  {
    if chain == [] then [] else FileBytes(fs, disk, chain[..|chain| - 1]) + disk[SectorAt(fs, chain[|chain| - 1])]
  }

  lemma FileCluster(fs: Volume, disk: Disk, beyond: Byte, chain: seq<nat>, i: nat)
    requires IsFile(fs, disk, chain) && i < |chain|
    ensures IsData(chain[i]) && ClusterToLba(fs, chain[i]) == SectorAt(fs, chain[i])
    ensures ReadEntry(fs, disk, chain[i], beyond) == Entry(fs, disk, chain[i])
  {
    PlainLba(fs, chain[i]);
    assert chain[i] * 3 / 2 == FatOffset(chain[i]);
    ReadEntryDecodes(fs, disk, chain[i], beyond);
  }

  /** The reading loop walks exactly the file's clusters. */
  lemma {:induction false} FileIsWalked(fs: Volume, disk: Disk, beyond: Byte, chain: seq<nat>, k: nat)
    requires IsFile(fs, disk, chain)
    ensures Reaches(fs, disk, beyond, chain[0], k) <==> k < |chain|
    ensures k < |chain| ==> Nth(fs, disk, beyond, chain[0], k) == Some(chain[k])
    ensures k < |chain| ==> Readable(fs, disk, beyond, chain[0], k)
  {
    if k > 0 {
      FileIsWalked(fs, disk, beyond, chain, k - 1);
    }
    if 0 < k <= |chain| {
      FileCluster(fs, disk, beyond, chain, k - 1);
    }
    if k < |chain| {
      FileCluster(fs, disk, beyond, chain, k);
    }
  }

  lemma FileReadable(fs: Volume, disk: Disk, beyond: Byte, chain: seq<nat>)
    requires IsFile(fs, disk, chain)
    ensures forall k: nat :: Reaches(fs, disk, beyond, chain[0], k) ==> Readable(fs, disk, beyond, chain[0], k)
  {
    forall k: nat | Reaches(fs, disk, beyond, chain[0], k)
      ensures Readable(fs, disk, beyond, chain[0], k)
    {
      FileIsWalked(fs, disk, beyond, chain, k);
    }
  }

  lemma {:induction false} FileContents(fs: Volume, disk: Disk, beyond: Byte, chain: seq<nat>, n: nat)
    requires IsFile(fs, disk, chain) && n <= |chain|
    ensures Loaded(fs, disk, beyond, chain[0], n)
    ensures Contents(fs, disk, beyond, chain[0], n) == FileBytes(fs, disk, chain[..n])
  {
    forall k | 0 <= k < n
      ensures Reaches(fs, disk, beyond, chain[0], k) && Readable(fs, disk, beyond, chain[0], k)
    {
      FileIsWalked(fs, disk, beyond, chain, k);
    }
    if n > 0 {
      FileContents(fs, disk, beyond, chain, n - 1);
      FileIsWalked(fs, disk, beyond, chain, n - 1);
      FileCluster(fs, disk, beyond, chain, n - 1);
      assert chain[..n][..n - 1] == chain[..n - 1];
    }
  }

  lemma {:induction false} FilePrefix(fs: Volume, disk: Disk, chain: seq<nat>, n: nat)
    requires (forall i :: 0 <= i < |chain| ==> SectorAt(fs, chain[i]) in disk) && n <= |chain|
    ensures FileBytes(fs, disk, chain[..n]) <= FileBytes(fs, disk, chain)
    decreases |chain|
  {
    if n == |chain| {
      assert chain[..n] == chain;
    } else {
      var front := chain[..|chain| - 1];
      FilePrefix(fs, disk, front, n);
      assert front[..n] == chain[..n];
    }
  }

  /** What the reading loop has copied of a file, however many of its clusters that took. */
  lemma FileRead(fs: Volume, disk: Disk, beyond: Byte, chain: seq<nat>, limit: nat, clusters: nat, len: nat)
    requires IsFile(fs, disk, chain) && Loaded(fs, disk, beyond, chain[0], clusters)
    requires len == Min(limit, 512 * clusters) && (len == limit || !Reaches(fs, disk, beyond, chain[0], clusters))
    ensures len == Min(limit, 512 * |chain|)
    ensures Contents(fs, disk, beyond, chain[0], clusters)[..len] == FileBytes(fs, disk, chain)[..len]
  {
    FileIsWalked(fs, disk, beyond, chain, clusters);
    if clusters > 0 {
      FileIsWalked(fs, disk, beyond, chain, clusters - 1);
    }
    FileContents(fs, disk, beyond, chain, clusters);
    FilePrefix(fs, disk, chain, clusters);
  }
}

/** fat12_read_file from the directory entry on. */
module Fat12 {
  import opened Options
  import opened Fat12Spec
  import opened Words

  /** read_fat_entry. */
  method ReadFatEntry(fs: Volume, disk: Disk, cluster: nat, beyond: Byte) returns (ok: bool, value: nat)
    ensures var r := ReadEntry(fs, disk, cluster, beyond);
            ok == r.Some? && (ok ==> value == r.value)
  {
    var fatOffset := cluster + cluster / 2;
    var fatSector := Wrap32(fs.fatStart + fatOffset / 512);
    var entOffset := fatOffset % 512;
    if fatSector !in disk {
      return false, 0;
    }
    var sec := disk[fatSector] + [beyond];
    value := sec[entOffset] as int + 256 * sec[entOffset + 1] as int;
    if cluster % 2 == 1 {
      value := value / 16;
    } else {
      value := value % 4096;
    }
    ok := true;
  }

  /** memcpy. */
  method Copy(out: array<Byte>, pos: nat, sec: Sector, n: nat)
    requires n <= 512 && pos + n <= out.Length
    modifies out
    ensures out[..] == old(out[..])[..pos] + sec[..n] + old(out[..])[pos + n..]
  {
    forall j | 0 <= j < n {
      out[pos + j] := sec[j];
    }
  }

  /** One round of the loop: copy what is wanted of a cluster's sector, then look up the next cluster. */
  method ReadCluster(fs: Volume, disk: Disk, beyond: Byte, cl: nat, out: array<Byte>, pos: nat, remaining: nat, maxLen: nat)
    returns (ok: bool, next: nat, tocpy: nat)
    requires pos < maxLen <= out.Length && pos + remaining < 0x1_0000_0000
    modifies out
    ensures ok <==> ClusterToLba(fs, cl) in disk && ReadEntry(fs, disk, cl, beyond).Some?
    ensures ok ==> next == ReadEntry(fs, disk, cl, beyond).value
    ensures ok ==> tocpy == Min(Min(remaining, 512), maxLen - pos)
    ensures ok ==> out[..] == old(out[..])[..pos] + disk[ClusterToLba(fs, cl)][..tocpy] + old(out[..])[pos + tocpy..]
  {
    var lba := ClusterToLba(fs, cl);
    if lba !in disk {
      return false, 0, 0;
    }
    var sec := disk[lba];
    tocpy := if remaining > 512 then 512 else remaining;
    if Wrap32(pos + tocpy) > maxLen {
      tocpy := maxLen - pos;
    }
    Copy(out, pos, sec, tocpy);
    ok, next := ReadFatEntry(fs, disk, cl, beyond);
  }

  lemma NotAllRead(fs: Volume, disk: Disk, beyond: Byte, first: nat, limit: nat, k: nat)
    requires Reaches(fs, disk, beyond, first, k) && 512 * k < limit && !Readable(fs, disk, beyond, first, k)
    ensures !forall k: nat :: Reaches(fs, disk, beyond, first, k) && 512 * k < limit ==>
              Readable(fs, disk, beyond, first, k)
  {
  }

  /** The next sector's bytes follow those read so far. */
  lemma ContentsGrow(fs: Volume, disk: Disk, beyond: Byte, first: nat, k: nat, pos: nat, n: nat)
    requires Loaded(fs, disk, beyond, first, k + 1) && pos == 512 * k && n <= 512
    ensures Contents(fs, disk, beyond, first, k + 1)[..pos + n] ==
            Contents(fs, disk, beyond, first, k)[..pos] + SectorOf(fs, disk, beyond, first, k)[..n]
  {
  }

  /**
   * fat12_read_file for a file of `size` bytes whose chain starts at `first`. It ends
   * even on a cyclic chain. It succeeds unless a sector or a table entry that it comes to cannot
   * be read, and then has copied the concatenated chain sectors, `clusters` of them, cut to the
   * size, to the room and to the end of the chain.
   */
  method ReadFile(fs: Volume, disk: Disk, beyond: Byte, first: nat, size: nat, out: array<Byte>, maxLen: nat)
    returns (ok: bool, outLen: nat, ghost clusters: nat)
    requires size < 0x1_0000_0000 && maxLen < 0x1_0000_0000 && maxLen <= out.Length
    modifies out
    ensures ok <==> forall k: nat :: Reaches(fs, disk, beyond, first, k) && 512 * k < Min(size, maxLen) ==>
                      Readable(fs, disk, beyond, first, k)
    ensures ok ==> Loaded(fs, disk, beyond, first, clusters)
    ensures ok ==> outLen == Min(Min(size, maxLen), 512 * clusters)
    ensures ok ==> outLen == Min(size, maxLen) || !Reaches(fs, disk, beyond, first, clusters)
    ensures ok ==> out[..outLen] == Contents(fs, disk, beyond, first, clusters)[..outLen]
    ensures ok ==> out[outLen..] == old(out[..])[outLen..]
    // a file laid out on the disk is read as it lies there
    ensures forall chain :: IsFile(fs, disk, chain) && chain[0] == first ==>
              && ok && outLen == Min(Min(size, maxLen), 512 * |chain|)
              && out[..outLen] == FileBytes(fs, disk, chain)[..outLen]
    // and an empty one without touching the disk
    ensures first < 2 || first > 0xFF7 ==> ok && outLen == 0
  {
    ok, outLen, clusters := ReadClusters(fs, disk, beyond, first, size, out, maxLen);
    forall chain | IsFile(fs, disk, chain) && chain[0] == first
      ensures ok && outLen == Min(Min(size, maxLen), 512 * |chain|)
      ensures out[..outLen] == FileBytes(fs, disk, chain)[..outLen]
    {
      FileReadable(fs, disk, beyond, chain);
      FileRead(fs, disk, beyond, chain, Min(size, maxLen), clusters, outLen);
    }
    NoChain(fs, disk, beyond, first);
    if ok && (first < 2 || first > 0xFF7) {
      NoneLoaded(fs, disk, beyond, first, clusters);
    }
  }

  lemma NoneLoaded(fs: Volume, disk: Disk, beyond: Byte, first: nat, n: nat)
    requires Loaded(fs, disk, beyond, first, n) && (first < 2 || first > 0xFF7)
    ensures n == 0
  {
    var reached := Reaches(fs, disk, beyond, first, 0);
    NoChain(fs, disk, beyond, first);
  }

  /** A first cluster that is no data cluster starts no chain. */
  lemma NoChain(fs: Volume, disk: Disk, beyond: Byte, first: nat)
    ensures first < 2 || first > 0xFF7 ==> forall k: nat :: !Reaches(fs, disk, beyond, first, k)
  {
    forall k: nat | first < 2 || first > 0xFF7
      ensures !Reaches(fs, disk, beyond, first, k)
    {
      if Reaches(fs, disk, beyond, first, k) {
        ReachesBefore(fs, disk, beyond, first, k, 0);
      }
    }
  }

  /** The loop of fat12_read_file. */
  method ReadClusters(fs: Volume, disk: Disk, beyond: Byte, first: nat, size: nat, out: array<Byte>, maxLen: nat)
    returns (ok: bool, outLen: nat, ghost clusters: nat)
    requires size < 0x1_0000_0000 && maxLen < 0x1_0000_0000 && maxLen <= out.Length
    modifies out
    ensures ok <==> forall k: nat :: Reaches(fs, disk, beyond, first, k) && 512 * k < Min(size, maxLen) ==>
                      Readable(fs, disk, beyond, first, k)
    ensures ok ==> Loaded(fs, disk, beyond, first, clusters)
    ensures ok ==> outLen == Min(Min(size, maxLen), 512 * clusters)
    ensures ok ==> outLen == Min(size, maxLen) || !Reaches(fs, disk, beyond, first, clusters)
    ensures ok ==> out[..outLen] == Contents(fs, disk, beyond, first, clusters)[..outLen]
    ensures ok ==> out[outLen..] == old(out[..])[outLen..]
  {
    ghost var limit := Min(size, maxLen);
    var remaining, cl, pos := size, first, 0;
    clusters := 0;
    while 2 <= cl < 0xFF8 && remaining > 0
      invariant Nth(fs, disk, beyond, first, clusters) == Some(cl)
      invariant pos == Min(limit, 512 * clusters) && remaining == size - pos
      invariant Loaded(fs, disk, beyond, first, clusters)
      invariant out[..pos] == Contents(fs, disk, beyond, first, clusters)[..pos]
      invariant out[pos..] == old(out[..])[pos..]
      decreases remaining
    {
      if pos >= maxLen {
        break;
      }
      var read, next, tocpy := ReadCluster(fs, disk, beyond, cl, out, pos, remaining, maxLen);
      if !read {
        NotAllRead(fs, disk, beyond, first, limit, clusters);
        return false, 0, clusters;
      }
      ContentsGrow(fs, disk, beyond, first, clusters, pos, tocpy);
      pos := pos + tocpy;
      remaining := remaining - tocpy;
      cl := next;
      clusters := clusters + 1;
    }
    ok, outLen := true, pos;
    AllRead(fs, disk, beyond, first, limit, clusters);
  }

  /** Once the limit or the end of the chain is reached, everything needed has been read. */
  lemma AllRead(fs: Volume, disk: Disk, beyond: Byte, first: nat, limit: nat, n: nat)
    requires Loaded(fs, disk, beyond, first, n)
    requires limit <= 512 * n || !Reaches(fs, disk, beyond, first, n)
    ensures forall k: nat :: Reaches(fs, disk, beyond, first, k) && 512 * k < limit ==>
              Readable(fs, disk, beyond, first, k)
  {
    forall k: nat | Reaches(fs, disk, beyond, first, k) && 512 * k < limit
      ensures Readable(fs, disk, beyond, first, k)
    {
      if n <= k {
        ReachesBefore(fs, disk, beyond, first, k, n);
      }
    }
  }
}
