// frames_init: the memory map, the bitmap, and the state the paging code starts from.
module Boot {
  import opened Machine
  import opened MemoryMap
  import opened FrameScan
  import opened FrameAllocator
  import opened PageTables
  import opened AddressSpace
  import opened MapSteps
  import opened Effects
  import opened Placement
  import opened Paging
  import opened BootRegions
  import opened BootBitmap

  // The frames the bitmap of a memory map takes, and the pages mapped for it.
  function FramesFor(rs: seq<Region>): u32
  {
    BitmapFrames(Wrap(Total(rs)))
  }

  function BitmapPagesFor(rs: seq<Region>): nat
  {
    PageCount(DivCeil(Wrap(Total(rs) - FramesFor(rs)), 8))
  }

  // What boot.s has set up: one directory, the kernel's, and one table, linked at index 768, in frames
  // that are not part of the memory map. Where the search finds room for the bitmap, it is in a present
  // entry: a new table would be allocated from the bitmap that is not there yet.
  ghost predicate KernelTables(mem: Memory, L: Layout, rs: seq<Region>)
  {
    var n := BitmapPagesFor(rs);
    && WellFormed(mem, L) && L.dirs == {L.kernelPdt} && L.tables.Keys == {L.kernelPt}
    && !Held(rs, L.kernelPdt) && !Held(rs, L.kernelPt)
    && forall i: nat, o: nat :: FoundAt(mem, L.kernelPdt, i, o, n) ==> Present(mem[L.kernelPdt][i])
  }

  ghost predicate NoRoom(mem: Memory, k: nat, N: nat)
    requires k < PAGES
  {
    forall x :: 768 <= x < 1024 ==> !EntryFits(mem, k, x, N)
  }

  // The pages of the bitmap, at the first free place, mapped to its frames: read-only and open to user mode,
  // because the two flags are passed in the wrong order. Nothing else is mapped.
  ghost predicate BitmapPages(mem0: Memory, mem: Memory, k: nat, vaddr: u32, size: u32, p: PageNo)
    requires k < PAGES
  {
    var v, P := vaddr / 0x1000, PageCount(size);
    && vaddr % 0x1000 == 0 && FoundAt(mem0, k, v / 1024, v % 1024, P) && v + P <= PAGES && P <= PAGES
    && (forall vp :: v <= vp < v + P ==>
          Walk(mem0, k, vp) == Unmapped && Walk(mem, k, vp) == Mapped(PageAt(p, vp - v), false, true))
    && forall vp :: 0 <= vp < PAGES && !(v <= vp < v + P) ==> Walk(mem, k, vp) == Walk(mem0, k, vp)
  }

  lemma BitmapRefused(mem0: Memory, g0: Ledger, mem: Memory, g: Ledger, mapped: u32, i: nat, o: nat, size: u32,
                      p: PageNo)
    requires WellFormed(mem0, g0.layout) && Placed(mem0, g0, mem, g, 0, mapped, i, o, size, p, 0, 1)
    ensures NoRoom(mem0, g0.layout.kernelPdt, PageCount(size))
  {
  }

  lemma PagesOfPlace(mem0: Memory, g0: Ledger, mem: Memory, g: Ledger, vaddr: u32, mapped: u32, i: nat, o: nat,
                     size: u32,
                     p: PageNo)
    requires Sane(mem0, g0) && 0 < PageCount(size) <= 1024 && mapped > 0
    requires Placed(mem0, g0, mem, g, vaddr, mapped, i, o, size, p, 0, 1)
    ensures BitmapPages(mem0, mem, g0.layout.kernelPdt, vaddr, size, p)
    ensures !NoRoom(mem0, g0.layout.kernelPdt, PageCount(size))
  {
    hide Placed, FoundAt, MappedTo, Walk, Clear, EntryFits, SameSharing, TablesOk, SharingOk, WindowOk, DirsOk;
    var k, N: Count, v: PageNo := g0.layout.kernelPdt, PageCount(size), vaddr / 0x1000;
    PlacedParts(mem0, g0, mem, g, vaddr, mapped, i, o, size, p, 0, 1);
    FoundFits(mem0, k, v / 1024, v % 1024, N);
    RangeTranslated(mem0, mem, g0.layout.dirs, k, v, p, N, 0, 1);
    RestTranslated(mem0, mem, g0.layout.dirs, k, v, p, N, 0, 1);
  }

  lemma RestTranslated(mem0: Memory, mem: Memory, dirs: set<nat>, k: nat, v: PageNo, p: PageNo, N: Count, rw: bv8,
                       pl: bv8)
    requires InRange(dirs) && k in dirs && v + N <= PAGES && MappedTo(mem0, mem, dirs, k, v, p, N, rw, pl)
    ensures forall vp :: 0 <= vp < PAGES && !(v <= vp < v + N) ==> Walk(mem, k, vp) == Walk(mem0, k, vp)
  {
    forall vp | 0 <= vp < PAGES && !(v <= vp < v + N)
      ensures Walk(mem, k, vp) == Walk(mem0, k, vp)
    {
      assert Walk(mem, k, vp) == AfterMap(mem0, k, k, v, p, N, rw, pl, vp);
      assert Offset(vp, v) >= N;
    }
  }

  // A place found is in a present entry, so the mapping succeeds and no frame is used.
  lemma BitmapPlaced(mem0: Memory, g0: Ledger, rs: seq<Region>, mem: Memory, g: Ledger, vaddr: u32, mapped: u32, i: nat,
                     o: nat, size: u32, p: PageNo)
    requires Sane(mem0, g0) && KernelTables(mem0, g0.layout, rs) && 0 < PageCount(size) == BitmapPagesFor(rs) <= 0x20
    requires Placed(mem0, g0, mem, g, vaddr, mapped, i, o, size, p, 0, 1) && vaddr != 0
    ensures mapped == AlignUp(size, 0x1000) == PageCount(size) * 0x1000 && WellFormed(mem, g.layout)
    ensures g.avail == g0.avail && g.data == g0.data && g.layout.dirs == g0.layout.dirs
    ensures g.layout.tables.Keys == g0.layout.tables.Keys
    ensures g.layout.kernelPdt == g0.layout.kernelPdt && g.layout.kernelPt == g0.layout.kernelPt
    ensures BitmapPages(mem0, mem, g0.layout.kernelPdt, vaddr, size, p)
    ensures !NoRoom(mem0, g0.layout.kernelPdt, PageCount(size))
  {
    hide Leads, MappedTo, SameSharing, TablesOk, SharingOk, WindowOk, DirsOk, Walk, Clear, EntryFits, FramesFor,
         BitmapPagesFor, BitmapPages, NoRoom;
    var k, N: Count := g0.layout.kernelPdt, PageCount(size);
    AlignUpPage(size);
    SameSet(g.avail, g0.avail);
    assert g.layout.tables.Keys == g.Owned() - g.avail - g.layout.dirs - g.data;
    assert g0.layout.tables.Keys == g0.Owned() - g0.avail - g0.layout.dirs - g0.data;
    PagesOfPlace(mem0, g0, mem, g, vaddr, mapped, i, o, size, p);
  }

  lemma SameSet(a: set<nat>, b: set<nat>)
    requires a <= b && |a| == |b|
    ensures a == b
  {
    assert b == a + (b - a);
  }

  // The number of frames in a memory map, as construct_bitmap adds it up.
  method TotalFrames(mmap: array<Region>, n: u32) returns (total: u32)
    requires n <= mmap.Length && Regular(mmap[..n])
    ensures total == Total(mmap[..n])
  {
    var i := 0;
    total := 0;
    while i < n
      invariant 0 <= i <= n && total + TotalFrom(mmap[..n], i) == Total(mmap[..n])
    {
      TotalBound(mmap[..n], 0);
      total := Wrap(total as int + mmap[i].len / 0x1000);
      i := i + 1;
    }
  }

  // Takes b frames from the first region that has as many, for the bitmap.
  method ReserveFrames(mmap: array<Region>, n: u32, b: u32) returns (found: bool, paddr: u32)
    requires n <= mmap.Length && Regular(mmap[..n]) && b <= 0x2_0000
    modifies mmap
    ensures found <==> PlaceFrom(old(mmap[..n]), 0, b) < n
    ensures !found ==> mmap[..n] == old(mmap[..n])
    ensures found ==>
      var rs, k := old(mmap[..n]), PlaceFrom(old(mmap[..n]), 0, b);
      mmap[..n] == Shrunk(rs, k, b) && paddr == rs[k].addr
  {
    ghost var rs := mmap[..n];
    var i := 0;
    while i < n
      invariant 0 <= i <= n && mmap[..n] == rs && PlaceFrom(rs, 0, b) == PlaceFrom(rs, i, b)
    {
      assert rs[i] == mmap[i];
      if mmap[i].len >= b * 0x1000 {
        paddr := mmap[i].addr;
        mmap[i] := Region(mmap[i].addr + b * 0x1000, mmap[i].len - b * 0x1000);
        assert mmap[..n] == Shrunk(rs, i, b);
        return true, paddr;
      }
      i := i + 1;
    }
    return false, 0;
  }

  // The bits construct_bitmap has written, over some contents of the memory.
  ghost predicate FreshBits(free: seq<bool>, len: nat, size: nat)
  {
    0 < size && exists held: seq<bool> ::
      |held| == |free| && forall q: nat :: q < |free| ==> free[q] == StartsFree(len, size, held, q)
  }

  // What construct_bitmap leaves: the regions without the bitmap's frames, those frames mapped for the
  // kernel, and a bitmap with the bits just written.
  ghost predicate BitmapMade(rs: seq<Region>, mem0: Memory, mmu: Mmu, vaddr: u32)
    requires Regular(rs) && mmu.kernelPdt < PAGES
    reads mmu, mmu.pfa
  {
    var b: nat := FramesFor(rs);
    var k := PlaceFrom(rs, 0, b);
    && b < Total(rs) && k < |rs| && mmu.pfa.mmap == Shrunk(rs, k, b) && mmu.pfa.len == Total(rs) - b
    && FreshBits(mmu.pfa.free, mmu.pfa.len, DivCeil(mmu.pfa.len, 8))
    && BitmapPages(mem0, mmu.mem, mmu.kernelPdt, vaddr, DivCeil(mmu.pfa.len, 8), rs[k].First())
  }

  lemma BitmapSmall(total: u32)
    ensures BitmapFrames(total) <= 0x2_0000
  {
    DivCeilExact(total);
    DivCeilExact(DivCeil(total, 8));
  }

  // A region with room for the bitmap of all frames leaves frames over, if there is more than one frame.
  lemma BitmapLeaves(rs: seq<Region>, k: nat)
    requires Regular(rs) && k < |rs| && Total(rs) != 1 && Total(rs) < 0x10_0000
    requires BitmapFrames(Total(rs)) * 0x1000 <= rs[k].len
    ensures 0 < BitmapFrames(Total(rs)) < Total(rs)
  {
    var total := Total(rs);
    var b := BitmapFrames(total);
    CountBound(rs, 0, k);
    DivCeilExact(total);
    DivCeilExact(DivCeil(total, 8));
    if total > 0 {
      assert b == ((total + 7) / 8 + 0xFFF) / 0x1000;
    }
  }

  lemma {:induction false} CountBound(rs: seq<Region>, i: nat, k: nat)
    requires i <= k < |rs|
    ensures rs[k].Count() <= TotalFrom(rs, i)
    decreases k - i
  {
    if i < k {
      CountBound(rs, i + 1, k);
    }
  }

  // The frames of the kernel's directory and table are none of the allocator's.
  lemma KernelSeparate(mem: Memory, L: Layout, rs: seq<Region>, map1: seq<Region>, free: seq<bool>)
    requires KernelTables(mem, L, rs) && Regular(map1) && forall f: nat :: Held(map1, f) ==> Held(rs, f)
    ensures Ledger(L, FreeFrames(map1, free), {}).Separate()
    ensures WellFormed(mem, L) && L.dirs == {L.kernelPdt} && L.tables.Keys == {L.kernelPt}
  {
    FreeFramesHeld(map1, free);
  }

  // Maps the bitmap for the kernel. Meanwhile the bitmap is still at address 0, where anything may be.
  method MapBitmap(map1: seq<Region>, paddr: u32, len: u32, size: u32, mem: Memory, ghost layout: Layout,
                   kernelPdt: nat, kernelPt: nat,
                   ghost rs: seq<Region>)
    returns (boot: Mmu?, vaddr: u32)
    requires Regular(map1) && 0 < len == Total(map1) && forall f: nat :: Held(map1, f) ==> Held(rs, f)
    requires layout.kernelPdt == kernelPdt && layout.kernelPt == kernelPt && KernelTables(mem, layout, rs)
    requires 0 < PageCount(size) == BitmapPagesFor(rs) <= 0x20
    ensures boot == null <==> NoRoom(mem, kernelPdt, PageCount(size))
    ensures boot != null ==>
      && fresh(boot) && WellFormed(boot.mem, boot.layout)
      && BitmapPages(mem, boot.mem, kernelPdt, vaddr, size, paddr / 0x1000)
      && boot.layout.dirs == layout.dirs && boot.layout.tables.Keys == layout.tables.Keys
      && boot.layout.kernelPdt == boot.kernelPdt == kernelPdt && boot.layout.kernelPt == boot.kernelPt == kernelPt
  {
    hide View, FreeFrames, FoundAt, WellFormed, KernelTables, EntryFits, Regular, PageAt, Placed, BitmapPages, NoRoom,
         BitmapPagesFor;
    var low := new bv32[(len + 31) / 32];
    var early := new Pfa(map1, low);
    KernelSeparate(mem, layout, rs, map1, early.free);
    boot := new Mmu(mem, early, layout, kernelPdt, kernelPt);
    ghost var g0 := boot.Books();
    var mapped;
    ghost var i, o;
    vaddr, mapped, i, o := boot.FindAndMap(paddr, size, 0, 1);
    ghost var mem1, g1 := boot.mem, boot.Books();
    if vaddr != 0 {
      BitmapPlaced(mem, g0, rs, mem1, g1, vaddr, mapped, i, o, size, paddr / 0x1000);
    } else {
      BitmapRefused(mem, g0, mem1, g1, mapped, i, o, size, paddr / 0x1000);
    }
    if vaddr == 0 || mapped < size {
      return null, 0;
    }
  }

  // From here on the bitmap is in place, over frames whose contents are unknown until it is filled.
  method FillMapped(map1: seq<Region>, len: u32, size: u32, boot: Mmu, mem: Memory, ghost layout: Layout,
                    ghost rs: seq<Region>)
    returns (mmu: Mmu)
    requires Regular(map1) && 0 < len == Total(map1) && forall f: nat :: Held(map1, f) ==> Held(rs, f)
    requires KernelTables(mem, layout, rs) && 0 < size <= 4 * ((len + 31) / 32)
    requires WellFormed(boot.mem, boot.layout) && boot.layout.kernelPdt == layout.kernelPdt
      && boot.layout.kernelPt == layout.kernelPt
    requires boot.layout.dirs == layout.dirs && boot.layout.tables.Keys == layout.tables.Keys
    requires boot.kernelPdt == layout.kernelPdt && boot.kernelPt == layout.kernelPt
    ensures fresh(mmu) && mmu.Valid() && mmu.kernelPdt == layout.kernelPdt && mmu.kernelPt == layout.kernelPt
    ensures mmu.data == {} && mmu.layout == boot.layout && mmu.mem == boot.mem && mmu.pfa.mmap == map1
      && mmu.pfa.len == len
    ensures FreshBits(mmu.pfa.free, len, size)
  {
    hide FreeFrames, WellFormed, KernelTables, Regular, StartsFree, View;
    var start := new bv32[(len + 31) / 32];
    ghost var held := View(start[..]);
    FillBitmap(start, len, size);
    assert FreshBits(View(start[..]), len, size) by {
      assert |held| == |View(start[..])|;
    }
    var pfa := new Pfa(map1, start);
    KernelSeparate(mem, layout, rs, map1, pfa.free);
    mmu := new Mmu(boot.mem, pfa, boot.layout, boot.kernelPdt, boot.kernelPt);
  }

  // No region has room for the bitmap, or no kernel addresses are free for it.
  ghost predicate NoBitmap(rs: seq<Region>, mem: Memory, k: nat)
    requires k < PAGES
  {
    (forall j :: 0 <= j < |rs| ==> rs[j].len < FramesFor(rs) * 0x1000) || NoRoom(mem, k, BitmapPagesFor(rs))
  }

  // The regions after construct_bitmap: the first with room for the bitmap has given up its frames, whether the
  // bitmap could be mapped or not.
  function WithoutBitmap(rs: seq<Region>): seq<Region>
    requires Regular(rs)
  {
    var k := PlaceFrom(rs, 0, FramesFor(rs));
    if k == |rs| then rs else Shrunk(rs, k, FramesFor(rs))
  }

  // construct_bitmap. There is no bitmap exactly if no region has room for it or no kernel addresses are free.
  method ConstructBitmap(mmap: array<Region>, n: u32, mem: Memory, ghost layout: Layout, kernelPdt: nat, kernelPt: nat)
    returns (mmu: Mmu?, vaddr: u32)
    requires n <= mmap.Length && Regular(mmap[..n]) && Total(mmap[..n]) != 1
    requires layout.kernelPdt == kernelPdt && layout.kernelPt == kernelPt && KernelTables(mem, layout, mmap[..n])
    modifies mmap
    ensures mmu == null <==> NoBitmap(old(mmap[..n]), mem, kernelPdt)
    ensures mmap[..n] == WithoutBitmap(old(mmap[..n]))
    ensures mmu != null ==>
      && fresh(mmu) && mmu.Valid() && mmu.kernelPdt == kernelPdt && mmu.kernelPt == kernelPt
      && mmu.data == {} && mmu.layout.dirs == {kernelPdt}
      && BitmapMade(old(mmap[..n]), mem, mmu, vaddr) && mmap[..n] == mmu.pfa.mmap
  {
    hide View, FreeFrames, FoundAt, WellFormed, EntryFits, DivCeil, AlignUp;
    ghost var rs := mmap[..n];
    TotalBound(rs, 0);
    var total := TotalFrames(mmap, n);
    var bitmapPfs := DivCeil(DivCeil(total, 8), 0x1000);
    assert bitmapPfs == FramesFor(rs);
    BitmapSmall(total);
    var found, paddr := ReserveFrames(mmap, n, bitmapPfs);
    var len: u32 := Wrap(total as int - bitmapPfs);
    var bitmapSize := DivCeil(len, 8);
    if !found {
      return null, 0;
    }
    ghost var k := PlaceFrom(rs, 0, bitmapPfs);
    BitmapLeaves(rs, k);
    ReservedOut(rs, k, bitmapPfs);
    WordsInside(total, len);
    var boot;
    boot, vaddr := MapBitmap(mmap[..n], paddr, len, bitmapSize, mem, layout, kernelPdt, kernelPt, rs);
    if boot == null {
      return null, 0;
    }
    mmu := FillMapped(mmap[..n], len, bitmapSize, boot, mem, layout, rs);
  }

  // The memory map that frames_init works with.
  function BootMap(hasMap: bool, es: seq<MapEntry>, start: u32, end: u32): seq<Region>
  {
    if hasMap then AlignedAll(KeptRegions(es, start, end)) else []
  }

  // frames_init. Every frame the allocator can ever hand out is available memory, outside the kernel image
  // and outside the frames of the bitmap, and the frame count is the number of frames in the regions.
  method FramesInit(start: u32, end: u32, hasMap: bool, es: seq<MapEntry>, mmap: array<Region>, mem: Memory,
                    ghost layout: Layout, kernelPdt: nat, kernelPt: nat)
    returns (mmu: Mmu?, vaddr: u32)
    requires (hasMap ==> |KeptRegions(es, start, end)| <= mmap.Length) && mmap.Length <= MAX_NUM_MEMORY_MAP
    requires Bootable(es, start, end)
    requires layout.kernelPdt == kernelPdt && layout.kernelPt == kernelPt
    requires KernelTables(mem, layout, BootMap(hasMap, es, start, end)) && Total(BootMap(hasMap, es, start, end)) != 1
    modifies mmap
    ensures Regular(BootMap(hasMap, es, start, end)) && |BootMap(hasMap, es, start, end)| <= mmap.Length
    ensures mmu == null <==> NoBitmap(BootMap(hasMap, es, start, end), mem, kernelPdt)
    ensures mmap[..|BootMap(hasMap, es, start, end)|] == WithoutBitmap(BootMap(hasMap, es, start, end))
    ensures mmu != null ==>
      && fresh(mmu) && mmu.Valid() && mmu.kernelPdt == kernelPdt && mmu.kernelPt == kernelPt && mmu.data == {}
      && mmu.layout.dirs == {kernelPdt}
      && BitmapMade(BootMap(hasMap, es, start, end), mem, mmu, vaddr)
    ensures mmu != null ==> mmu.pfa.len == Total(mmu.pfa.mmap)
    ensures mmu != null ==>
      var rs := BootMap(hasMap, es, start, end);
      var k := PlaceFrom(rs, 0, FramesFor(rs));
      forall f: nat :: Held(mmu.pfa.mmap, f) ==>
        Available(es, start, end, f) && f !in FrameRun(rs[k].First(), FramesFor(rs))
  {
    hide Aligned, Bootable, View, FreeFrames, WellFormed, KernelTables;
    var n := FillMemoryMap(hasMap, es, start, end, mmap);
    AlignRegions(mmap, n);
    ghost var rs := BootMap(hasMap, es, start, end);
    assert mmap[..n] == rs;
    RegionsSafe(es, start, end, 0);
    mmu, vaddr := ConstructBitmap(mmap, n, mem, layout, kernelPdt, kernelPt);
    if mmu != null {
      ghost var k := PlaceFrom(rs, 0, FramesFor(rs));
      ReservedOut(rs, k, FramesFor(rs));
      forall f: nat | Held(mmu.pfa.mmap, f)
        ensures Available(es, start, end, f) && f !in FrameRun(rs[k].First(), FramesFor(rs))
      {
        RegionsSafe(es, start, end, f);
      }
    }
  }
}
