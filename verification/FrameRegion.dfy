/** Where the frame bitmap and the frames themselves are placed in physical memory. */
module FrameRegion {
  import opened FrameMaps
  import opened Words

  // ---------- the source's arithmetic ----------

  /** The first guess at the number of frames: each needs a page and, roughly, one byte. */
  function Estimate(mapAddr: nat, ramEnd: nat): nat {
    Wrap64(Wrap64(ramEnd + 0xffff_ffff_8000_0000) - mapAddr) / 4097
  }

  /** The end of the bitmap before alignment; `frame_map + npages / 64` counts 8-byte words. */
  function BitmapEnd(mapAddr: nat, estimate: nat): nat {
    Wrap64(mapAddr + 8 * (estimate / 64))
  }

  function AlignUp(addr: nat): nat {
    if addr % 4096 != 0 then Wrap64((addr / 4096 + 1) * 4096) else addr
  }

  function StartFrame(kernelEnd: nat, ramEnd: nat): nat {
    AlignUp(BitmapEnd(kernelEnd + 8, Estimate(kernelEnd + 8, ramEnd)))
  }

  /** The left side of the shrinking loop's test: `startframe` points to 8-byte words, so the offset is scaled by 8. */
  function ScaledEnd(startframe: nat, npages: nat): nat {
    Wrap64(startframe + 8 * (4096 * npages))
  }

  /** The address the region must stay below. */
  function Limit(ramEnd: nat): nat {
    Wrap64(Wrap64(ramEnd + 0xffff_ffff_8000_0000) - 4096)
  }

  /** The number of bitmap words the zeroing loop writes: every word from frame_map that starts below startframe. */
  function BitmapWords(mapAddr: nat, startframe: nat): nat {
    if startframe <= mapAddr then 0 else (startframe - mapAddr + 7) / 8
  }

  // ---------- the layout in physical addresses ----------

  /** Where the bitmap starts: 8 bytes behind the kernel's end, seen from physical address 0. */
  function MapStart(kernelEnd: nat): int {
    kernelEnd + 8 - 0xffff_ffff_8000_0000
  }

  function Frames(kernelEnd: nat, ramEnd: nat): int {
    (ramEnd - MapStart(kernelEnd)) / 4097
  }

  function MapEnd(kernelEnd: nat, ramEnd: nat): int {
    MapStart(kernelEnd) + 8 * (Frames(kernelEnd, ramEnd) / 64)
  }

  /** Where the first frame starts. */
  function RegionStart(kernelEnd: nat, ramEnd: nat): int {
    (MapEnd(kernelEnd, ramEnd) + 4095) / 4096 * 4096
  }

  /**
   * What is asked of the machine: a kernel of at most 1 GiB, physical addresses of at most 52 bits,
   * at least 64 frames estimated, and a region that starts at least a page below the RAM end.
   */
  predicate Bootable(kernelEnd: nat, ramEnd: nat) {
    && 0xffff_ffff_8000_0000 <= kernelEnd <= 0xffff_ffff_8000_0000 + 0x4000_0000
    && ramEnd <= 0x10_0000_0000_0000
    && MapStart(kernelEnd) <= ramEnd
    && 64 <= Frames(kernelEnd, ramEnd)
    && RegionStart(kernelEnd, ramEnd) + 4096 <= ramEnd
  }

  /** The end of n frames as the scaled test sees it, before the higher-half offset is added. */
  function EndOf(kernelEnd: nat, ramEnd: nat, n: int): int {
    RegionStart(kernelEnd, ramEnd) + 32768 * n
  }

  /** How many frames have their scaled end a page below the RAM end. */
  function Room(kernelEnd: nat, ramEnd: nat): int {
    (ramEnd - 4096 - RegionStart(kernelEnd, ramEnd)) / 32768
  }

  /** The page below the RAM end lies beyond the 2 GiB of the higher half, so the limit wraps. */
  predicate LimitWraps(ramEnd: nat) {
    ramEnd - 4096 >= 0x8000_0000
  }

  /** The scaled end of the estimate wraps although the limit does not, and the test passes at once. */
  predicate TestWraps(kernelEnd: nat, ramEnd: nat) {
    !LimitWraps(ramEnd) && EndOf(kernelEnd, ramEnd, Frames(kernelEnd, ramEnd)) >= 0x8000_0000
  }

  /** The limit wraps, but no scaled end lies between 2 GiB and the page below the RAM end. */
  predicate Starved(kernelEnd: nat, ramEnd: nat) {
    LimitWraps(ramEnd) && EndOf(kernelEnd, ramEnd, Room(kernelEnd, ramEnd)) < 0x8000_0000
  }

  /** The bitmap itself runs over the top of the address space. */
  predicate MapWraps(kernelEnd: nat, ramEnd: nat) {
    RegionStart(kernelEnd, ramEnd) >= 0x8000_0000
  }

  /** A partial last bitmap word with no alignment padding to hold it. */
  predicate LastWordSpills(kernelEnd: nat, ramEnd: nat) {
    Frames(kernelEnd, ramEnd) % 64 != 0 && MapEnd(kernelEnd, ramEnd) % 4096 == 0
  }

  /** The frame count the shrinking loop arrives at. */
  function FinalPages(kernelEnd: nat, ramEnd: nat): int {
    if TestWraps(kernelEnd, ramEnd) then Frames(kernelEnd, ramEnd) else Room(kernelEnd, ramEnd)
  }

  // ---------- the one computes the other ----------

  /** A physical address seen through the higher half. */
  lemma SeenHigh(x: int)
    requires 0 <= x < 0x1_0000_0000_0000_0000
    ensures Wrap64(x + 0xffff_ffff_8000_0000) ==
            if x < 0x8000_0000 then x + 0xffff_ffff_8000_0000 else x - 0x8000_0000
  {
    if x < 0x8000_0000 {
      WrapExact(x + 0xffff_ffff_8000_0000);
    } else {
      WrapOnce(x + 0xffff_ffff_8000_0000);
    }
  }

  /** The estimate in plain arithmetic: the wrap-around at the top of the address space cancels out. */
  lemma PlainEstimate(kernelEnd: nat, ramEnd: nat)
    requires Bootable(kernelEnd, ramEnd)
    ensures Estimate(kernelEnd + 8, ramEnd) == Frames(kernelEnd, ramEnd)
  {
    WrapTwice(ramEnd + 0xffff_ffff_8000_0000, -(kernelEnd + 8));
    WrapExact(ramEnd - MapStart(kernelEnd));
  }

  lemma PlainAlignUp(addr: nat)
    requires addr < 0x1_0000_0000_0000_0000
    ensures AlignUp(addr) == Wrap64((addr + 4095) / 4096 * 4096)
  {
    if addr % 4096 == 0 {
      assert (addr + 4095) / 4096 == addr / 4096;
      WrapExact(addr);
    } else {
      assert (addr + 4095) / 4096 == addr / 4096 + 1;
    }
  }

  /** Alignment commutes with the higher-half offset. */
  lemma AlignedHigh(x: int)
    requires 0 <= x < 0x1000_0000_0000_0000
    ensures AlignUp(Wrap64(x + 0xffff_ffff_8000_0000)) == Wrap64((x + 4095) / 4096 * 4096 + 0xffff_ffff_8000_0000)
  {
    SeenHigh(x);
    var y := Wrap64(x + 0xffff_ffff_8000_0000);
    PlainAlignUp(y);
    if x < 0x8000_0000 {
      assert (y + 4095) / 4096 == (x + 4095) / 4096 + 0xf_ffff_fff8_0000;
    } else {
      assert (y + 4095) / 4096 == (x + 4095) / 4096 - 0x8_0000;
      SeenHigh((x + 4095) / 4096 * 4096);
      WrapExact((y + 4095) / 4096 * 4096);
    }
  }

  /** The first frame's physical address, and where the source puts it. */
  lemma PlainLayout(kernelEnd: nat, ramEnd: nat)
    requires Bootable(kernelEnd, ramEnd)
    ensures StartFrame(kernelEnd, ramEnd) == Wrap64(RegionStart(kernelEnd, ramEnd) + 0xffff_ffff_8000_0000)
    ensures 8 <= MapEnd(kernelEnd, ramEnd) <= RegionStart(kernelEnd, ramEnd) < MapEnd(kernelEnd, ramEnd) + 4096
    ensures RegionStart(kernelEnd, ramEnd) % 4096 == 0
    ensures RegionStart(kernelEnd, ramEnd) == MapEnd(kernelEnd, ramEnd) <==> MapEnd(kernelEnd, ramEnd) % 4096 == 0
  {
    var est := Frames(kernelEnd, ramEnd);
    PlainEstimate(kernelEnd, ramEnd);
    assert kernelEnd + 8 + 8 * (est / 64) == MapEnd(kernelEnd, ramEnd) + 0xffff_ffff_8000_0000;
    AlignedHigh(MapEnd(kernelEnd, ramEnd));
  }

  lemma PlainScaledEnd(kernelEnd: nat, ramEnd: nat, n: int)
    requires Bootable(kernelEnd, ramEnd) && 0 <= n <= Frames(kernelEnd, ramEnd)
    ensures ScaledEnd(StartFrame(kernelEnd, ramEnd), n) ==
            var x := EndOf(kernelEnd, ramEnd, n);
            if x < 0x8000_0000 then x + 0xffff_ffff_8000_0000 else x - 0x8000_0000
  {
    PlainLayout(kernelEnd, ramEnd);
    WrapTwice(RegionStart(kernelEnd, ramEnd) + 0xffff_ffff_8000_0000, 8 * (4096 * n));
    assert 8 * (4096 * n) == 32768 * n;
    SeenHigh(EndOf(kernelEnd, ramEnd, n));
  }

  lemma PlainLimit(kernelEnd: nat, ramEnd: nat)
    requires Bootable(kernelEnd, ramEnd)
    ensures Limit(ramEnd) ==
            if LimitWraps(ramEnd) then ramEnd - 4096 - 0x8000_0000 else ramEnd - 4096 + 0xffff_ffff_8000_0000
  {
    WrapTwice(ramEnd + 0xffff_ffff_8000_0000, -4096);
    PlainLayout(kernelEnd, ramEnd);
    SeenHigh(ramEnd - 4096);
  }

  /** The three regimes of the shrinking test. */
  lemma ScaledEndCases(kernelEnd: nat, ramEnd: nat, n: int)
    requires Bootable(kernelEnd, ramEnd) && 0 <= n <= Frames(kernelEnd, ramEnd)
    ensures var x := EndOf(kernelEnd, ramEnd, n);
            ScaledEnd(StartFrame(kernelEnd, ramEnd), n) > Limit(ramEnd) <==>
              if LimitWraps(ramEnd) then x < 0x8000_0000 || x > ramEnd - 4096
              else x < 0x8000_0000 && x > ramEnd - 4096
  {
    PlainScaledEnd(kernelEnd, ramEnd, n);
    PlainLimit(kernelEnd, ramEnd);
  }

  lemma RoomBounds(kernelEnd: nat, ramEnd: nat)
    requires Bootable(kernelEnd, ramEnd)
    ensures 0 <= Room(kernelEnd, ramEnd) <= Frames(kernelEnd, ramEnd)
    ensures EndOf(kernelEnd, ramEnd, Room(kernelEnd, ramEnd)) <= ramEnd - 4096
    ensures ramEnd - 4096 < EndOf(kernelEnd, ramEnd, Room(kernelEnd, ramEnd) + 1)
  {
    PlainLayout(kernelEnd, ramEnd);
  }

  // ---------- the shrinking loop ----------

  /** The shrinking loop, where it ends: it does not pass below zero. */
  method ShrinkPages(kernelEnd: nat, ramEnd: nat, startframe: nat, estimate: nat) returns (npages: nat)
    requires Bootable(kernelEnd, ramEnd) && !Starved(kernelEnd, ramEnd)
    requires estimate == Estimate(kernelEnd + 8, ramEnd) && startframe == StartFrame(kernelEnd, ramEnd)
    ensures npages == FinalPages(kernelEnd, ramEnd)
  {
    npages := estimate;
    PlainEstimate(kernelEnd, ramEnd);
    RoomBounds(kernelEnd, ramEnd);
    ScaledEndCases(kernelEnd, ramEnd, npages);
    while ScaledEnd(startframe, npages) > Limit(ramEnd)
      invariant Room(kernelEnd, ramEnd) <= npages <= Frames(kernelEnd, ramEnd)
      invariant TestWraps(kernelEnd, ramEnd) ==> npages == estimate && ScaledEnd(startframe, npages) <= Limit(ramEnd)
      decreases npages
    {
      ScaledEndCases(kernelEnd, ramEnd, npages);
      ShrinkStep(kernelEnd, ramEnd, npages);
      WrapExact(npages - 1);
      npages := Wrap64(npages - 1);
    }
    if !TestWraps(kernelEnd, ramEnd) {
      ShrinkExit(kernelEnd, ramEnd, npages);
    }
  }

  lemma ShrinkStep(kernelEnd: nat, ramEnd: nat, n: int)
    requires Bootable(kernelEnd, ramEnd) && !Starved(kernelEnd, ramEnd)
    requires Room(kernelEnd, ramEnd) <= n <= Frames(kernelEnd, ramEnd)
    requires ScaledEnd(StartFrame(kernelEnd, ramEnd), n) > Limit(ramEnd)
    ensures Room(kernelEnd, ramEnd) < n
  {
    ScaledEndCases(kernelEnd, ramEnd, n);
    RoomBounds(kernelEnd, ramEnd);
  }

  lemma ShrinkExit(kernelEnd: nat, ramEnd: nat, n: int)
    requires Bootable(kernelEnd, ramEnd) && !Starved(kernelEnd, ramEnd) && !TestWraps(kernelEnd, ramEnd)
    requires Room(kernelEnd, ramEnd) <= n <= Frames(kernelEnd, ramEnd)
    requires ScaledEnd(StartFrame(kernelEnd, ramEnd), n) <= Limit(ramEnd)
    ensures n == Room(kernelEnd, ramEnd)
  {
    ScaledEndCases(kernelEnd, ramEnd, n);
    RoomBounds(kernelEnd, ramEnd);
  }

  /** In a starved layout the test holds of every 64-bit count, so the loop goes round for ever. */
  lemma StarvedNeverEnds(kernelEnd: nat, ramEnd: nat, n: nat)
    requires Bootable(kernelEnd, ramEnd) && Starved(kernelEnd, ramEnd)
    ensures ScaledEnd(StartFrame(kernelEnd, ramEnd), n) > Limit(ramEnd)
  {
    var s := RegionStart(kernelEnd, ramEnd);
    PlainLayout(kernelEnd, ramEnd);
    PlainLimit(kernelEnd, ramEnd);
    WrapTwice(s + 0xffff_ffff_8000_0000, 8 * (4096 * n));
    WrapRemainder(s + 0xffff_ffff_8000_0000 + 8 * (4096 * n));
    SameRemainder(s, n);
    RoomRemainder(s, ramEnd - 4096 - 0x8000_0000);
  }

  lemma SameRemainder(s: int, n: nat)
    ensures (s + 0xffff_ffff_8000_0000 + 8 * (4096 * n)) % 32768 == s % 32768
  {
    assert s + 0xffff_ffff_8000_0000 + 8 * (4096 * n) == s + 32768 * (0x1_ffff_ffff_0000 + n);
  }

  /** If s leaves at most d over, a multiple of 32768 above s lies in the d bytes from 2 GiB on. */
  lemma RoomRemainder(s: int, d: int)
    requires 0 <= d
    ensures s % 32768 <= d ==> s + (0x8000_0000 + d - s) / 32768 * 32768 >= 0x8000_0000
  {
    var q := (0x8000_0000 + d - s) / 32768;
    assert s == s / 32768 * 32768 + s % 32768;
    if s % 32768 <= d {
      assert 0x8000_0000 + d - s >= 32768 * (65536 - s / 32768);
      assert q >= 65536 - s / 32768;
    }
  }

  /** The shrinking loop ends exactly when the layout is not starved. */
  lemma LoopEndsIff(kernelEnd: nat, ramEnd: nat)
    requires Bootable(kernelEnd, ramEnd)
    ensures (exists n: nat :: ScaledEnd(StartFrame(kernelEnd, ramEnd), n) <= Limit(ramEnd)) <==>
            !Starved(kernelEnd, ramEnd)
  {
    if Starved(kernelEnd, ramEnd) {
      forall n: nat
        ensures ScaledEnd(StartFrame(kernelEnd, ramEnd), n) > Limit(ramEnd)
      {
        StarvedNeverEnds(kernelEnd, ramEnd, n);
      }
    } else {
      RoomBounds(kernelEnd, ramEnd);
      ScaledEndCases(kernelEnd, ramEnd, FinalPages(kernelEnd, ramEnd));
    }
  }

  // ---------- the region ----------

  /** When only the test wraps, RAM is so large that the unshrunk estimate leaves the last page free anyway. */
  lemma WrappedEstimateFits(kernelEnd: nat, ramEnd: nat)
    requires Bootable(kernelEnd, ramEnd) && TestWraps(kernelEnd, ramEnd)
    ensures RegionStart(kernelEnd, ramEnd) + 4096 * Frames(kernelEnd, ramEnd) <= ramEnd - 4096
  {
    PlainLayout(kernelEnd, ramEnd);
  }

  /** The bitmap words before the first frame: those of whole words of the estimate, one more with padding, none on a wrap. */
  lemma WordCount(kernelEnd: nat, ramEnd: nat)
    requires Bootable(kernelEnd, ramEnd)
    ensures var words := BitmapWords(kernelEnd + 8, StartFrame(kernelEnd, ramEnd));
            if MapWraps(kernelEnd, ramEnd) then words == 0
            else if MapEnd(kernelEnd, ramEnd) % 4096 == 0 then words == Frames(kernelEnd, ramEnd) / 64
            else words > Frames(kernelEnd, ramEnd) / 64
  {
    var s := RegionStart(kernelEnd, ramEnd);
    PlainLayout(kernelEnd, ramEnd);
    SeenHigh(s);
  }

  /** A bitmap that runs over the top belongs to so much RAM that frames are left. */
  lemma MapWrapsLeavesRoom(kernelEnd: nat, ramEnd: nat)
    requires Bootable(kernelEnd, ramEnd) && MapWraps(kernelEnd, ramEnd)
    ensures LimitWraps(ramEnd) && Room(kernelEnd, ramEnd) > 0
  {
    PlainLayout(kernelEnd, ramEnd);
  }

  /** The kept frames all have their bit in a cleared word before the first frame. */
  predicate BitmapCovers(kernelEnd: nat, ramEnd: nat) {
    FinalPages(kernelEnd, ramEnd) <= 64 * BitmapWords(kernelEnd + 8, StartFrame(kernelEnd, ramEnd))
  }

  lemma WrappedTestCovers(kernelEnd: nat, ramEnd: nat)
    requires Bootable(kernelEnd, ramEnd) && TestWraps(kernelEnd, ramEnd)
    ensures !MapWraps(kernelEnd, ramEnd)
    ensures BitmapCovers(kernelEnd, ramEnd) <==> !LastWordSpills(kernelEnd, ramEnd)
  {
    var est := Frames(kernelEnd, ramEnd);
    if MapWraps(kernelEnd, ramEnd) {
      MapWrapsLeavesRoom(kernelEnd, ramEnd);
    }
    WordCount(kernelEnd, ramEnd);
    assert est == 64 * (est / 64) + est % 64;
  }

  lemma PlainTestCovers(kernelEnd: nat, ramEnd: nat)
    requires Bootable(kernelEnd, ramEnd) && !TestWraps(kernelEnd, ramEnd)
    ensures BitmapCovers(kernelEnd, ramEnd) <==> !MapWraps(kernelEnd, ramEnd)
  {
    WordCount(kernelEnd, ramEnd);
    RoomIsCovered(kernelEnd, ramEnd);
    if MapWraps(kernelEnd, ramEnd) {
      MapWrapsLeavesRoom(kernelEnd, ramEnd);
    }
  }

  lemma StartIsAligned(kernelEnd: nat, ramEnd: nat)
    requires Bootable(kernelEnd, ramEnd)
    ensures StartFrame(kernelEnd, ramEnd) % 4096 == 0
  {
    PlainLayout(kernelEnd, ramEnd);
    SeenHigh(RegionStart(kernelEnd, ramEnd));
  }

  /**
   * Every frame ends a page below the RAM end, and every frame's bitmap word is in place, unless the
   * bitmap runs over the top of the address space, or the test wraps and the last word spills.
   */
  lemma RegionFits(kernelEnd: nat, ramEnd: nat)
    requires Bootable(kernelEnd, ramEnd)
    ensures 0 <= FinalPages(kernelEnd, ramEnd) <= Frames(kernelEnd, ramEnd)
    ensures RegionStart(kernelEnd, ramEnd) + 4096 * FinalPages(kernelEnd, ramEnd) <= ramEnd - 4096
    ensures BitmapCovers(kernelEnd, ramEnd) <==>
            !MapWraps(kernelEnd, ramEnd) && !(TestWraps(kernelEnd, ramEnd) && LastWordSpills(kernelEnd, ramEnd))
  {
    RoomBounds(kernelEnd, ramEnd);
    if TestWraps(kernelEnd, ramEnd) {
      WrappedEstimateFits(kernelEnd, ramEnd);
      WrappedTestCovers(kernelEnd, ramEnd);
    } else {
      PlainTestCovers(kernelEnd, ramEnd);
    }
  }

  lemma RoomIsCovered(kernelEnd: nat, ramEnd: nat)
    requires Bootable(kernelEnd, ramEnd)
    ensures Room(kernelEnd, ramEnd) <= 64 * (Frames(kernelEnd, ramEnd) / 64)
  {
    var est := Frames(kernelEnd, ramEnd);
    PlainLayout(kernelEnd, ramEnd);
    RoomBounds(kernelEnd, ramEnd);
    assert 32768 * Room(kernelEnd, ramEnd) <= 4097 * est + 4096;
  }

  // ---------- examples ----------

  /**
   * With 406953984 bytes of RAM and a kernel ending 8 bytes short of 4 MiB, 98305 frames are kept but
   * the bitmap has room for 98304, so the last frame's bit lies inside the first frame.
   */
  lemma BitmapSpillExample()
    ensures Bootable(0xffff_ffff_803f_fff8, 406953984) && !Starved(0xffff_ffff_803f_fff8, 406953984)
    ensures FinalPages(0xffff_ffff_803f_fff8, 406953984) == 98305
    ensures 64 * BitmapWords(0xffff_ffff_803f_fff8 + 8, StartFrame(0xffff_ffff_803f_fff8, 406953984)) == 98304
  {
    var k, r := 0xffff_ffff_803f_fff8, 406953984;
    assert MapStart(k) == 0x40_0000 && Frames(k, r) == 98305;
    assert MapEnd(k, r) == 0x40_3000 && RegionStart(k, r) == 0x40_3000;
    WordCount(k, r);
  }

  /** On a 3 GiB machine the limit wraps, the loop keeps 98168 frames, and the region ends at 0x18390000. */
  lemma ThreeGiBExample()
    ensures Bootable(0xffff_ffff_803f_fff8, 0xbffe_0000) && LimitWraps(0xbffe_0000)
    ensures !Starved(0xffff_ffff_803f_fff8, 0xbffe_0000)
    ensures FinalPages(0xffff_ffff_803f_fff8, 0xbffe_0000) == 98168
    ensures RegionStart(0xffff_ffff_803f_fff8, 0xbffe_0000) + 4096 * 98168 == 0x1839_0000
    ensures BitmapCovers(0xffff_ffff_803f_fff8, 0xbffe_0000)
  {
    var k, r := 0xffff_ffff_803f_fff8, 0xbffe_0000;
    assert MapStart(k) == 0x40_0000 && Frames(k, r) == 785184;
    assert RegionStart(k, r) == 0x41_8000 && Room(k, r) == 98168;
    PlainTestCovers(k, r);
  }

  /** With RAM ending a page above 2 GiB and a kernel ending 8 bytes short of 4 MiB and a page, the loop never ends. */
  lemma StarvedExample()
    ensures Bootable(0xffff_ffff_8040_0ff8, 0x8000_1000) && Starved(0xffff_ffff_8040_0ff8, 0x8000_1000)
  {
    var k, r := 0xffff_ffff_8040_0ff8, 0x8000_1000;
    assert MapStart(k) == 0x40_1000 && Frames(k, r) == 523136;
    assert RegionStart(k, r) == 0x41_1000 && Room(k, r) == 65405;
  }

  /**
   * The sizing half of kalloc_frame_init, where its loop ends. The bitmap array has exactly the words
   * the source clears, so FrameMap.Valid says that no frame's bit lies in a frame.
   */
  method KallocFrameInit(kernelEnd: nat, ramEnd: nat) returns (startframe: nat, frames: FrameMap)
    requires Bootable(kernelEnd, ramEnd) && !Starved(kernelEnd, ramEnd)
    ensures fresh(frames) && fresh(frames.words)
    ensures startframe == StartFrame(kernelEnd, ramEnd) && startframe % 4096 == 0
    ensures frames.words.Length == BitmapWords(kernelEnd + 8, startframe)
    ensures frames.used == {} && frames.npages == FinalPages(kernelEnd, ramEnd)
    ensures RegionStart(kernelEnd, ramEnd) + 4096 * frames.npages <= ramEnd - 4096
    ensures frames.Valid() <==>
            && frames.npages < 0x1_0000_0000 && !MapWraps(kernelEnd, ramEnd)
            && !(TestWraps(kernelEnd, ramEnd) && LastWordSpills(kernelEnd, ramEnd))
  {
    WrapExact(kernelEnd + 8);
    var frameMap := Wrap64(kernelEnd + 8);
    var npages := Estimate(frameMap, ramEnd);
    startframe := AlignUp(BitmapEnd(frameMap, npages));
    npages := ShrinkPages(kernelEnd, ramEnd, startframe, npages);
    RegionFits(kernelEnd, ramEnd);
    StartIsAligned(kernelEnd, ramEnd);
    var count := BitmapWords(frameMap, startframe);
    var words := new bv64[count];
    for p := 0 to count
      invariant fresh(words)
      invariant forall k :: 0 <= k < p ==> words[k] == 0
    {
      words[p] := 0;
    }
    frames := new FrameMap(npages, words);
  }
}
