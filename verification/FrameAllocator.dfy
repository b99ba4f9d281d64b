// The page-frame allocator: a bitmap of 32-bit words over the memory map.
module FrameAllocator {
  import opened Machine
  import opened MemoryMap
  import opened FrameScan

  class Pfa {
    const start: array<bv32>
    const len: u32
    const mmap: seq<Region>

    // The bitmap as booleans, and the set of frames that can be handed out.
    ghost var free: seq<bool>
    ghost var avail: set<nat>

    ghost predicate Sized()
    {
      && Regular(mmap) && 0 < len == Total(mmap)
      && start.Length == (len + 31) / 32 && 32 * start.Length <= 0xF_FFFF
    }

    ghost predicate Valid()
      reads this, start
    {
      && Sized()
      && free == View(start[..])
      && avail == FreeFrames(mmap, free)
    }

    // Takes over a bitmap with arbitrary contents, including set bits at or beyond the frame count.
    constructor (mmap: seq<Region>, start: array<bv32>)
      requires Regular(mmap) && 0 < Total(mmap)
      requires start.Length == (Total(mmap) + 31) / 32
      ensures Valid()
      ensures this.mmap == mmap && this.start == start
      ensures free == View(start[..]) && avail == FreeFrames(mmap, free)
    {
      TotalBound(mmap, 0);
      this.mmap, this.start, this.len := mmap, start, Total(mmap);
      this.free := View(start[..]);
      this.avail := FreeFrames(mmap, View(start[..]));
    }

    method IdxForPaddr(paddr: u32) returns (idx: u32)
      requires Sized()
      requires Held(mmap, paddr / 0x1000) || AboveAll(mmap, paddr)
      ensures Held(mmap, paddr / 0x1000) ==> idx == IndexOf(mmap, paddr / 0x1000) < len
      ensures !Held(mmap, paddr / 0x1000) ==> idx == len
    {
      hide Regular, FrameAt, FrameFrom, View, FreeFrames, IndexFrom;
      ghost var f := paddr / 0x1000;
      ghost var known := Held(mmap, f);
      if known {
        IndexThenFrame(mmap, 0, f);
      }
      var i := 0;
      var byteOffset: u32 := 0;
      ghost var skipped := 0;
      while i < |mmap|
        invariant 0 <= i <= |mmap|
        invariant byteOffset == skipped * 0x1000 && skipped + TotalFrom(mmap, i) == Total(mmap)
        invariant known ==> HeldFrom(mmap, i, f) && IndexOf(mmap, f) == skipped + IndexFrom(mmap, i, f)
      {
        TotalBound(mmap, 0);
        WholeFrames(mmap, i);
        if paddr < mmap[i].addr + mmap[i].len {
          RegionOfFrame(mmap, i, paddr);
          byteOffset := byteOffset + (paddr - mmap[i].addr);
          return byteOffset / 0x1000;
        } else {
          if known {
            SkipRegion(mmap, i, f);
          }
          byteOffset := byteOffset + mmap[i].len;
          skipped := skipped + mmap[i].Count();
        }
        i := i + 1;
      }
      return len;
    }

    method FitsInOneMmapEntry(bitIdx: u32, pfs: u32) returns (fits: bool)
      requires Sized() && bitIdx + pfs <= 0xF_FFFF
      ensures fits == Fits(mmap, bitIdx, pfs)
    {
      var i := 0;
      var currentOffset: u32, offset: u32 := 0, bitIdx * 0x1000;
      while i < |mmap|
        invariant 0 <= i <= |mmap|
        invariant currentOffset % 0x1000 == 0 && currentOffset <= offset == bitIdx * 0x1000
        invariant Fits(mmap, bitIdx, pfs) == FitsFrom(mmap, i, bitIdx - currentOffset / 0x1000, pfs)
        invariant currentOffset / 0x1000 + TotalFrom(mmap, i) == Total(mmap)
      {
        TotalBound(mmap, 0);
        if currentOffset + mmap[i].len <= offset {
          currentOffset := currentOffset + mmap[i].len;
        } else {
          offset := offset - currentOffset;
          return offset + pfs * 0x1000 <= mmap[i].len;
        }
        i := i + 1;
      }
      return false;
    }

    method PaddrForIdx(bitIdx: u32) returns (paddr: u32)
      requires Sized() && bitIdx <= 0xF_FFFF
      ensures bitIdx < len ==> paddr == FrameAt(mmap, bitIdx) * 0x1000
      ensures bitIdx >= len ==> paddr == 0
    {
      var i := 0;
      var currentOffset: u32, offset: u32 := 0, bitIdx * 0x1000;
      while i < |mmap|
        invariant 0 <= i <= |mmap|
        invariant currentOffset % 0x1000 == 0 && currentOffset <= offset == bitIdx * 0x1000
        invariant currentOffset / 0x1000 + TotalFrom(mmap, i) == Total(mmap)
        invariant bitIdx < len ==>
          FrameAt(mmap, bitIdx) == FrameFrom(mmap, i, bitIdx - currentOffset / 0x1000)
      {
        TotalBound(mmap, 0);
        if currentOffset + mmap[i].len <= offset {
          currentOffset := currentOffset + mmap[i].len;
        } else {
          offset := offset - currentOffset;
          return mmap[i].addr + offset;
        }
        i := i + 1;
      }
      return 0;
    }

    method ToggleBit(bitIdx: u32)
      requires bitIdx < 32 * start.Length
      modifies start
      ensures View(start[..]) == Flip(old(View(start[..])), bitIdx, 1)
    {
      ghost var words := start[..];
      start[bitIdx / 32] := start[bitIdx / 32] ^ BitMask(bitIdx % 32);
      ViewToggle(words, start[..], bitIdx);
    }

    method ToggleBits(bitIdx: u32, numBits: u32)
      requires bitIdx + numBits <= 32 * start.Length && 32 * start.Length < 0x1_0000_0000
      modifies start
      ensures View(start[..]) == Flip(old(View(start[..])), bitIdx, numBits)
    {
      var i: u32 := bitIdx;
      FlipExtend(View(start[..]), bitIdx, 0);
      while i < bitIdx + numBits
        invariant bitIdx <= i <= bitIdx + numBits
        invariant View(start[..]) == Flip(old(View(start[..])), bitIdx, i - bitIdx)
      {
        FlipExtend(old(View(start[..])), bitIdx, i - bitIdx);
        ToggleBit(i);
        i := i + 1;
      }
    }

    // The inner loop of the scan, over the bits of word i.
    method ScanCell(num: u32, i: nat, framesFound0: nat, bitIdx0: nat)
      returns (found: bool, framesFound: nat, bitIdx: nat)
      requires Sized() && i < start.Length && |free| == 32 * start.Length
      requires forall j :: 0 <= j < 32 ==> free[32 * i + j] == BitSet(start[i], j)
      requires Scanned(mmap, free, num, Progress(32 * i, framesFound0, bitIdx0))
      ensures found ==> FirstChoice(mmap, free, num, bitIdx)
      ensures !found ==> Scanned(mmap, free, num, Progress(32 * i + 32, framesFound, bitIdx))
    {
      hide View, FreeFrames, FirstChoice, Scanned, Regular, Fits;
      ghost var bits := free;
      framesFound, bitIdx := framesFound0, bitIdx0;
      var cell := start[i];
      var j := 0;
      ghost var q: nat := 32 * i;
      while j < 32
        invariant 0 <= j <= 32 && q == 32 * i + j
        invariant Scanned(mmap, bits, num, Progress(q, framesFound, bitIdx))
      {
        assert bits[q] == BitSet(cell, j);
        if BitSet(cell, j) {
          ghost var found0, first0 := framesFound, bitIdx;
          if framesFound == 0 {
            bitIdx := i * 32 + j;
          }
          framesFound := framesFound + 1;
          if framesFound == num {
            ScanFullWindow(mmap, bits, num, q, found0, first0, bitIdx);
            var fits := FitsInOneMmapEntry(bitIdx, num);
            if fits {
              return true, framesFound, bitIdx;
            } else {
              framesFound := 0;
            }
          } else {
            ScanSetBit(mmap, bits, num, q, found0, first0, bitIdx);
          }
        } else {
          ScanClearBits(mmap, bits, num, q, framesFound, bitIdx, 1);
          framesFound := 0;
        }
        j, q := j + 1, q + 1;
      }
      return false, framesFound, bitIdx;
    }

    // The scan of the bitmap. It finds a window exactly when there is one that lies in one region,
    // and then the first such window.
    method Scan(numPageFrames: u32) returns (found: bool, first: nat)
      requires Valid()
      ensures found ==> FirstChoice(mmap, free, numPageFrames, first)
      ensures !found ==> NoChoice(mmap, free, numPageFrames)
    {
      hide View, FreeFrames, FirstChoice, NoChoice, Scanned, Regular;
      ghost var bits := free;
      var n := DivCeil(len, 32);
      DivCeilExact(len);
      var i, framesFound: nat, bitIdx: nat := 0, 0, 0;
      ScanStarts(mmap, bits, numPageFrames);
      ghost var q: nat := 0;
      while i < n
        invariant 0 <= i <= n == start.Length && q == 32 * i
        invariant Scanned(mmap, bits, numPageFrames, Progress(q, framesFound, bitIdx))
      {
        var cell := start[i];
        if cell != 0 {
          BitsOfWord(i);
          found, framesFound, bitIdx := ScanCell(numPageFrames, i, framesFound, bitIdx);
          if found {
            return true, bitIdx;
          }
        } else {
          ClearWord(i);
          ScanClearBits(mmap, bits, numPageFrames, q, framesFound, bitIdx, 32);
          framesFound := 0;
        }
        i, q := i + 1, q + 32;
      }
      ScanFinished(mmap, bits, numPageFrames, framesFound, bitIdx);
      return false, 0;
    }

    // Takes the first window of free frames that lies in one region. The result is 0 exactly when
    // there is no such window; then nothing changes.
    method Allocate(numPageFrames: u32) returns (paddr: u32)
      requires Valid()
      modifies this, start
      ensures Valid()
      ensures paddr == 0 <==> NoChoice(mmap, old(free), numPageFrames)
      ensures paddr % 0x1000 == 0 && Allocates(mmap, old(free), numPageFrames, free, paddr / 0x1000)
      ensures paddr == 0 ==> avail == old(avail)
      ensures paddr != 0 ==>
        && OneRegion(mmap, 0, paddr / 0x1000, numPageFrames)
        && FrameRun(paddr / 0x1000, numPageFrames) <= old(avail)
        && avail == old(avail) - FrameRun(paddr / 0x1000, numPageFrames)
    {
      var found, bitIdx := Scan(numPageFrames);
      if !found {
        return 0;
      }
      TotalBound(mmap, 0);
      TakeWindow(mmap, free, numPageFrames, bitIdx);
      FrameThenIndex(mmap, 0, bitIdx);
      assert FrameAt(mmap, bitIdx) > 0;
      ToggleBits(bitIdx, numPageFrames);
      free := Flip(free, bitIdx, numPageFrames);
      avail := FreeFrames(mmap, free);
      paddr := PaddrForIdx(bitIdx);
      assert paddr / 0x1000 == FrameAt(mmap, bitIdx);
    }

    // A single frame: fails only when none is free, and otherwise takes the lowest free frame.
    method AllocateFrame() returns (paddr: u32)
      requires Valid()
      modifies this, start
      ensures Valid()
      ensures paddr == 0 <==> old(avail) == {}
      ensures paddr == 0 ==> free == old(free) && avail == old(avail)
      ensures paddr != 0 ==>
        && paddr % 0x1000 == 0 && paddr / 0x1000 in old(avail) && 0 < paddr / 0x1000
        && Held(mmap, paddr / 0x1000)
        && (forall f :: f in old(avail) ==> paddr / 0x1000 <= f)
        && avail == old(avail) - {paddr / 0x1000}
    {
      ghost var before := free;
      SingleFrames(mmap, free);
      paddr := Allocate(1);
      if paddr != 0 {
        ghost var b: nat :| FirstChoice(mmap, before, 1, b) && b < Total(mmap) && paddr / 0x1000 == FrameAt(mmap, b);
        FirstChoiceIsLowestFrame(mmap, before, b);
        FrameThenIndex(mmap, 0, b);
        SingleRun(paddr / 0x1000);
      }
    }

    lemma BitsOfWord(i: nat)
      requires Valid() && i < start.Length
      ensures forall j :: 0 <= j < 32 ==> free[32 * i + j] == BitSet(start[i], j)
    {
      forall j | 0 <= j < 32
        ensures free[32 * i + j] == BitSet(start[i], j)
      {
        assert (32 * i + j) / 32 == i && (32 * i + j) % 32 == j;
      }
    }

    lemma ClearWord(i: nat)
      requires Valid() && i < start.Length && start[i] == 0
      ensures forall k :: 32 * i <= k < 32 * i + 32 ==> !free[k]
    {
      forall k | 32 * i <= k < 32 * i + 32
        ensures !free[k]
      {
        ZeroHasNoBits(k % 32);
        assert k / 32 == i;
      }
    }

    // Toggles the bit of one frame: a frame in use is free again, and one that was free is not. An address
    // above every region is reported and ignored.
    method Free(paddr: u32)
      requires Valid()
      requires Held(mmap, paddr / 0x1000) || AboveAll(mmap, paddr)
      modifies this, start
      ensures Valid()
      ensures Held(mmap, paddr / 0x1000) ==>
        && free == Flip(old(free), IndexOf(mmap, paddr / 0x1000), 1)
        && avail == if paddr / 0x1000 in old(avail) then old(avail) - {paddr / 0x1000}
           else old(avail) + {paddr / 0x1000}
      ensures !Held(mmap, paddr / 0x1000) ==> free == old(free) && avail == old(avail)
    {
      var bitIdx := IdxForPaddr(paddr);
      if bitIdx == len {
        return;
      } else {
        IndexThenFrame(mmap, 0, paddr / 0x1000);
        assert FrameAt(mmap, bitIdx) == paddr / 0x1000;
        if free[bitIdx] {
          TakeOne(mmap, free, bitIdx);
        } else {
          GiveBack(mmap, free, bitIdx);
        }
        ToggleBit(bitIdx);
        free := Flip(free, bitIdx, 1);
        avail := FreeFrames(mmap, free);
      }
    }
  }

  lemma FreeFramesHeld(rs: seq<Region>, free: seq<bool>)
    requires Regular(rs)
    ensures forall f :: f in FreeFrames(rs, free) ==> Held(rs, f) && 0 < f < PAGES
  {
    forall f | f in FreeFrames(rs, free)
      ensures Held(rs, f) && 0 < f < PAGES
    {
      var idx: nat :| idx < Total(rs) && idx < |free| && free[idx] && FrameAt(rs, idx) == f;
      FrameThenIndex(rs, 0, idx);
    }
  }

  ghost predicate AboveAll(rs: seq<Region>, paddr: u32)
  {
    forall k :: 0 <= k < |rs| ==> rs[k].addr + rs[k].len <= paddr
  }

  lemma WholeFrames(rs: seq<Region>, i: nat)
    requires Regular(rs) && i < |rs|
    ensures rs[i].addr == rs[i].First() * 0x1000 && rs[i].len == rs[i].Count() * 0x1000
  {
  }

  // An address below the end of region i, and either held from i on or above no region, lies in region i.
  lemma RegionOfFrame(rs: seq<Region>, i: nat, paddr: u32)
    requires Regular(rs) && i < |rs| && paddr < rs[i].addr + rs[i].len
    requires HeldFrom(rs, i, paddr / 0x1000) || AboveAll(rs, paddr)
    ensures HeldFrom(rs, i, paddr / 0x1000) && rs[i].addr <= paddr
    ensures IndexFrom(rs, i, paddr / 0x1000) == paddr / 0x1000 - rs[i].First()
  {
    forall k | i < k < |rs|
      ensures rs[i].First() + rs[i].Count() <= rs[k].First()
    {
      RegionsOrdered(rs, i, k);
    }
    var k :| i <= k < |rs| && rs[k].Has(paddr / 0x1000);
    assert k == i;
  }

  lemma SkipRegion(rs: seq<Region>, i: nat, f: nat)
    requires Regular(rs) && i < |rs| && HeldFrom(rs, i, f) && rs[i].First() + rs[i].Count() <= f
    ensures HeldFrom(rs, i + 1, f)
    ensures IndexFrom(rs, i, f) == rs[i].Count() + IndexFrom(rs, i + 1, f)
  {
    var k :| i <= k < |rs| && rs[k].Has(f);
    assert k != i;
  }
}
