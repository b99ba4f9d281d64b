// process_create: a page directory, a code page, a user stack and a kernel stack, taken from the page
// frames, the kernel's address space and the heap in turn.
module ProcessCreation {
  import opened Machine
  import opened FrameScan
  import opened PageTables
  import opened AddressSpace
  import opened MapSteps
  import opened Directories
  import opened Effects
  import opened Ledgers
  import opened UnmapLoops
  import opened Placement
  import opened Paging
  import opened FreeList
  import opened HeapState
  import opened Heap
  import RunQueue
  import opened Processes
  import opened Scheduling
  import opened Spaces
  import opened Stocks

  const SIZEOF_PROCESS: u32 := 148
  const SIZEOF_PADDR_ELE: u32 := 12
  const FILE_SIZE: u32 := 42
  const PROC_INITIAL_STACK_SIZE: u32 := 1
  const PROC_INITIAL_STACK_VADDR: u32 := 0xBFFF_F000
  const PROC_INITIAL_ESP: u32 := 0xBFFF_FFFC
  const KERNEL_STACK_SIZE: u32 := 0x1000
  const STACK_PAGE: nat := 0xB_FFFF

  // How a step ends. Astray: the kernel uses a null pointer, maps at address 0, or never returns.
  datatype Status = Ready | Failed | Astray

  // The live blocks are those of before and one more, of n units.
  ghost predicate Claimed(h0: State, h: State, a: nat, n: nat)
  {
    a !in h0.live && h.live == h0.live[a := n]
  }

  lemma Sizes()
    ensures UnitsFor(SIZEOF_PROCESS) == 20 && UnitsFor(SIZEOF_PADDR_ELE) == 3
  {
  }

  // kmalloc. If one free block holds the units and rest more, it succeeds, does not grow the heap, and
  // leaves a block of rest units.
  method Claim(heap: Allocator, nbytes: u32, ghost rest: nat) returns (at: nat)
    requires heap.Valid() && 0 < nbytes <= 0x3F_FFF8
    modifies heap, heap.mmu, heap.mmu.pfa, heap.mmu.pfa.start
    ensures heap.Valid() && Extends(old(heap.mmu.mem), old(heap.mmu.Books()), heap.mmu.mem, heap.mmu.Books())
    ensures at == 0 <==>
      Refuses(old(heap.h), heap.mmu.pfa.mmap, old(heap.mmu.pfa.free), old(heap.mmu.mem), old(heap.mmu.Books()),
        UnitsFor(nbytes))
    ensures at == 0 ==> heap.h == old(heap.h)
    ensures at != 0 ==> at > 1 && Claimed(old(heap.h), heap.h, at - 1, UnitsFor(nbytes))
    ensures HasBlock(old(heap.h.free), UnitsFor(nbytes) + rest) ==>
      && at != 0 && heap.mmu.mem == old(heap.mmu.mem) && heap.mmu.Books() == old(heap.mmu.Books())
      && (rest > 0 ==> HasBlock(heap.h.free, rest))
  {
    ghost var h0, n := heap.h, UnitsFor(nbytes);
    ghost var grown;
    SmallRequests(heap.mmu.mem, heap.mmu.Books(), h0, n);
    at, grown := heap.Kmalloc(nbytes);
    if HasBlock(h0.free, n + rest) && rest > 0 {
      var j: nat :| j < |h0.free| && h0.free[j].size >= n && heap.h.free == Take(h0.free, j, n);
      TakeLeaves(h0.free, j, n, rest);
    }
  }

  // pfa_allocate for one frame.
  method TakeFrame(heap: Allocator, pfs: u32) returns (paddr: u32)
    requires heap.Valid() && pfs == 1
    modifies heap.mmu, heap.mmu.pfa, heap.mmu.pfa.start
    ensures heap.Valid() && heap.mmu.mem == old(heap.mmu.mem)
    ensures Extends(old(heap.mmu.mem), old(heap.mmu.Books()), heap.mmu.mem, heap.mmu.Books())
    ensures paddr == 0 <==> old(heap.mmu.pfa.avail) == {}
    ensures paddr == 0 ==> heap.mmu.Books() == old(heap.mmu.Books())
    ensures paddr != 0 ==>
      var f := paddr / 0x1000;
      && paddr % 0x1000 == 0 && f in old(heap.mmu.pfa.avail)
      && heap.mmu.Books() == Ledger(old(heap.mmu.layout), old(heap.mmu.pfa.avail) - {f}, old(heap.mmu.data) + {f})
  {
    ghost var mem0, g0 := heap.mmu.mem, heap.mmu.Books();
    SingleFrames(heap.mmu.pfa.mmap, heap.mmu.pfa.free);
    paddr := heap.mmu.PfaAllocate(pfs);
    SingleRun(paddr / 0x1000);
    ghost var g1 := heap.mmu.Books();
    ExtendsTaken(mem0, g0, g1, if paddr == 0 then {} else {paddr / 0x1000});
  }

  lemma FrameLess(mem: Memory, g0: Ledger, g1: Ledger, paddr: u32)
    requires g0.layout.kernelPdt < PAGES
    requires
      if paddr == 0 then g0.avail == {} && g1 == g0
      else
        var f := paddr / 0x1000;
        f in g0.avail && g1 == Ledger(g0.layout, g0.avail - {f}, g0.data + {f})
    ensures StockOf(mem, g1) == Less(StockOf(mem, g0))
  {
  }

  // A new list element on the heap.
  method NewElement(heap: Allocator, paddr: u32, count: u32, next: PaddrEle?, ghost rest: nat) returns (e: PaddrEle?)
    requires heap.Valid()
    modifies heap, heap.mmu, heap.mmu.pfa, heap.mmu.pfa.start
    ensures heap.Valid() && Extends(old(heap.mmu.mem), old(heap.mmu.Books()), heap.mmu.mem, heap.mmu.Books())
    ensures e == null <==>
      Refuses(old(heap.h), heap.mmu.pfa.mmap, old(heap.mmu.pfa.free), old(heap.mmu.mem), old(heap.mmu.Books()), 3)
    ensures e == null ==> heap.h == old(heap.h)
    ensures e != null ==>
      && e.paddr == paddr && e.count == count && e.next == next
      && e.at > 1 && Claimed(old(heap.h), heap.h, e.at - 1, 3)
    ensures HasBlock(old(heap.h.free), 3 + rest) ==>
      && e != null && heap.mmu.mem == old(heap.mmu.mem) && heap.mmu.Books() == old(heap.mmu.Books())
      && (rest > 0 ==> HasBlock(heap.h.free, rest))
  {
    hide Extends, ArenaMapped, BaseMapped, HasBlock, Refuses, UnitsFor, HeapOk, View, FreeFrames;
    Sizes();
    var at := Claim(heap, SIZEOF_PADDR_ELE, rest);
    if at == 0 {
      return null;
    }
    e := new PaddrEle(at, paddr, count, next);
  }

  // The directory is in a frame of its own, mapped for the kernel, empty, and can be loaded.
  ghost predicate PdtReady(mem0: Memory, g0: Ledger, mem: Memory, g: Ledger, pdt: u32, pdtPaddr: u32)
    requires WellFormed(mem0, g0.layout) && WellFormed(mem, g.layout)
  {
    var d := pdtPaddr / 0x1000;
    && pdtPaddr % 0x1000 == 0 && d in g0.avail
    && PdtLoadable(mem, g.layout, pdt, pdtPaddr) && SpaceIs(mem, g.layout, d, map[])
    && DirectoryTaken(StockOf(mem0, g0), StockOf(mem, g))
  }

  lemma PdtBecomesReady(mem0: Memory, g0: Ledger, mem: Memory, g: Ledger, r: PdtResult)
    requires Sane(mem0, g0) && r.NewPdt? && r.paddr != 0 && CreateOutcome(mem0, g0, mem, g, r)
    ensures Sane(mem, g) && PdtReady(mem0, g0, mem, g, r.vaddr, r.paddr)
  {
    hide MappedTo, Clear, OneEntry, TablesOk, Leads, Walk, StockOf, DirectoryTaken, PageTaken, SpaceIs, KernelOnly;
    SpaceEmpty(mem0, g0, mem, g, r);
    CreationTakes(mem0, g0, mem, g, r);
  }

  lemma CreatedExactly(mem0: Memory, g0: Ledger, mem: Memory, g: Ledger, r: PdtResult)
    requires Sane(mem0, g0)
    requires r.Undefined? <==> !CanPlacePage(mem0, g0.layout.kernelPdt, |g0.avail|)
    requires !r.Undefined? ==> CreateOutcome(mem0, g0, mem, g, r)
    requires r.NewPdt? && r.paddr != 0 ==>
      WellFormed(mem, g.layout) && DirectoryTaken(StockOf(mem0, g0), StockOf(mem, g))
    ensures r.NewPdt? && r.paddr != 0 <==> FrameAndPage(StockOf(mem0, g0))
  {
    hide CanPlacePage, SparePages, Extends, Clear, MappedTo, OneEntry, PageTaken, Walk;
    var s := StockOf(mem0, g0);
    CanPlaceHere(mem0, g0);
    RoomFirst(s);
    if r.NoPdt? {
      CannotPlaceLess(mem0, g0);
    } else if r.NewPdt? && r.paddr != 0 {
      TakenHadRoom(s, StockOf(mem, g));
    }
  }

  // pdt_create, as far as process_create relies on it.
  method MakePdt(mmu: Mmu) returns (r: PdtResult)
    requires mmu.Valid()
    modifies mmu, mmu.pfa, mmu.pfa.start
    ensures !r.Undefined? ==> mmu.Valid() && Extends(old(mmu.mem), old(mmu.Books()), mmu.mem, mmu.Books())
    ensures r.Undefined? <==> !CanPlace(StockOf(old(mmu.mem), old(mmu.Books())))
    ensures r.NewPdt? && r.paddr != 0 <==> FrameAndPage(StockOf(old(mmu.mem), old(mmu.Books())))
    ensures r.NewPdt? && r.paddr != 0 ==>
      PdtReady(old(mmu.mem), old(mmu.Books()), mmu.mem, mmu.Books(), r.vaddr, r.paddr)
  {
    ghost var mem0, g0 := mmu.mem, mmu.Books();
    r := mmu.PdtCreate();
    ghost var mem1, g1 := mmu.mem, mmu.Books();
    CanPlaceHere(mem0, g0);
    if r.NoPdt? {
      ExtendsReflexive(mem0, g0);
    } else if r.NewPdt? && r.paddr != 0 {
      PdtBecomesReady(mem0, g0, mem1, g1, r);
    }
    CreatedExactly(mem0, g0, mem1, g1, r);
  }

  // The directory of the process.
  method CreatePdt(heap: Allocator, f0: Fields) returns (status: Status, f: Fields)
    requires heap.Valid()
    modifies heap.mmu, heap.mmu.pfa, heap.mmu.pfa.start
    ensures status != Astray ==> heap.Valid()
    ensures status != Astray ==> Extends(old(heap.mmu.mem), old(heap.mmu.Books()), heap.mmu.mem, heap.mmu.Books())
    ensures status == Astray <==> !CanPlace(StockOf(old(heap.mmu.mem), old(heap.mmu.Books())))
    ensures status == Ready <==> FrameAndPage(StockOf(old(heap.mmu.mem), old(heap.mmu.Books())))
    ensures status == Ready ==>
      && f == f0.(pdt := f.pdt, pdtPaddr := f.pdtPaddr)
      && PdtReady(old(heap.mmu.mem), old(heap.mmu.Books()), heap.mmu.mem, heap.mmu.Books(), f.pdt, f.pdtPaddr)
  {
    ghost var mem0, g0 := heap.mmu.mem, heap.mmu.Books();
    f := f0;
    var r := MakePdt(heap.mmu);
    if r.Undefined? {
      return Astray, f;
    }
    heap.StaysValid(mem0, g0);
    if r.NoPdt? || r.paddr == 0 {
      return Failed, f;
    }
    return Ready, f.(pdt := r.vaddr, pdtPaddr := r.paddr);
  }

  // The search for a kernel page failed, or the page found needs a table and there is no frame for it.
  // Then the kernel maps at address 0, or unmaps an absent entry and never returns.
  lemma PlacedAstray(mem0: Memory, g0: Ledger, mem1: Memory, g1: Ledger, kv: u32, mapped: u32, i: nat, o: nat,
                     size: u32, p: PageNo)
    requires Sane(mem0, g0) && PageCount(size) == 1 && Placed(mem0, g0, mem1, g1, kv, mapped, i, o, size, p, 1, 0)
    ensures kv == 0 || mapped == 0 <==> !CanPlace(StockOf(mem0, g0))
    ensures kv != 0 && mapped == 0 ==> UnmapStarts(kv, 1) && UnmapAdvance(mem1, g1.layout.kernelPdt, kv, 1) == kv
  {
    PlacedExactly(mem0, g0, mem1, g1, kv, mapped, i, o, size, p, 1, 0);
    CanPlaceHere(mem0, g0);
    if kv != 0 && mapped == 0 {
      assert kv == i * 0x40_0000 && kv % 0x40_0000 == 0;
      UnmapStandsStill(mem1, g1.layout.kernelPdt, kv, 1);
    }
  }

  // A page just mapped for the kernel can be unmapped again.
  lemma UnmapReady(mem0: Memory, g0: Ledger, mem1: Memory, g1: Ledger, kv: u32, mapped: u32, i: nat, o: nat, size: u32,
                   p: PageNo)
    requires Sane(mem0, g0) && PageCount(size) == 1 && Placed(mem0, g0, mem1, g1, kv, mapped, i, o, size, p, 1, 0)
    requires mapped > 0
    ensures UnmapReturns(mem1, g1.layout, g1.layout.kernelPdt, kv, 1)
    ensures Present(mem1[g1.layout.kernelPdt][kv / 0x1000 / 1024])
  {
    var v: PageNo := kv / 0x1000;
    assert PageAt(v, 0) == v;
    assert Tabled(mem1[g1.layout.kernelPdt][PageAt(v, 0) / 1024]);
    assert v == v / 1024 * 1024 + v % 1024;
  }

  lemma Undone(mem0: Memory, g0: Ledger, mem1: Memory, g1: Ledger, mem2: Memory, g2: Ledger, v: PageNo, p: PageNo)
    requires Sane(mem0, g0) && MapOutcome(mem0, g0, mem1, g1, g0.layout.kernelPdt, v, p, 1, 1, 0)
    requires UnmapOutcome(mem1, g1, mem2, g2, g0.layout.kernelPdt, v, 1)
    ensures Extends(mem0, g0, mem2, g2) && |g2.avail| == |g1.avail|
    ensures g2.layout.kernelPdt == g0.layout.kernelPdt && mem2[g0.layout.kernelPdt] == mem1[g0.layout.kernelPdt]
    ensures forall d, vp :: d in g0.layout.dirs && 0 <= vp < PAGES ==> Walk(mem2, d, vp) == Walk(mem0, d, vp)
  {
    var k := g0.layout.kernelPdt;
    KernelMapExtends(mem0, g0, mem1, g1, v, p, 1, 1, 0);
    MapUnmapRoundTrip(mem0, g0.layout, mem1, mem2, k, v, p, 1, 1, 0);
    LeadsTransitive(mem0, g0, mem1, g1, mem2, g2, g0.layout.dirs - {k, k});
    assert mem2[k] == mem1[k];
    assert Keeps(mem0, mem2, g0.layout.dirs) && KernelOnly(mem0, g0.layout, mem2);
  }

  // Mapping a kernel page and unmapping it again leaves every translation as it was, unless the page is
  // the last one, which stays mapped.
  lemma MapThenUnmap(mem0: Memory, g0: Ledger, mem1: Memory, g1: Ledger, mem2: Memory, g2: Ledger, kv: u32, mapped: u32,
                     i: nat, o: nat, size: u32, p: PageNo)
    requires Sane(mem0, g0) && PageCount(size) == 1 && Placed(mem0, g0, mem1, g1, kv, mapped, i, o, size, p, 1, 0)
    requires mapped > 0
    requires if UnmapStarts(kv, 1) then Unmaps(mem1, g1, mem2, g2, g1.layout.kernelPdt, kv / 0x1000, 1)
             else mem2 == mem1 && g2 == g1
    ensures Extends(mem0, g0, mem2, g2)
    ensures UnmapStarts(kv, 1) ==>
      forall d, vp :: d in g0.layout.dirs && 0 <= vp < PAGES ==> Walk(mem2, d, vp) == Walk(mem0, d, vp)
    ensures PageTouched(StockOf(mem0, g0), StockOf(mem2, g2))
  {
    hide Extends, UnmapOutcome, SparePages, EntryFits, FirstRun, Placing, NextPage, TableFor, MapOutcome;
    var k, v: PageNo := g0.layout.kernelPdt, kv / 0x1000;
    PageMapped(mem0, g0, mem1, g1, kv, mapped, i, o, size, p, 1, 0);
    if UnmapStarts(kv, 1) {
      Undone(mem0, g0, mem1, g1, mem2, g2, v, p);
      SpareKept(mem0, mem2, k);
      assert StockOf(mem2, g2) == Placing(StockOf(mem0, g0), v).(spare := StockOf(mem0, g0).spare);
    } else {
      KernelMapExtends(mem0, g0, mem1, g1, v, p, 1, 1, 0);
    }
  }

  // The code's frame is mapped for the kernel and unmapped again; both results are ignored.
  method MapAndUnmap(mmu: Mmu, paddr: u32, size: u32) returns (astray: bool)
    requires mmu.Valid() && PageCount(size) == 1
    modifies mmu, mmu.pfa, mmu.pfa.start
    ensures astray <==> !CanPlace(StockOf(old(mmu.mem), old(mmu.Books())))
    ensures !astray ==> mmu.Valid() && Extends(old(mmu.mem), old(mmu.Books()), mmu.mem, mmu.Books())
    ensures !astray ==> PageTouched(StockOf(old(mmu.mem), old(mmu.Books())), StockOf(mmu.mem, mmu.Books()))
  {
    hide Placed, UnmapReturns, Unmaps, Extends, SparePages;
    ghost var mem0, g0 := mmu.mem, mmu.Books();
    var kernelVaddr, mapped;
    ghost var i, o;
    kernelVaddr, mapped, i, o := mmu.FindAndMap(paddr, size, 1, 0);
    ghost var mem1, g1 := mmu.mem, mmu.Books();
    PlacedAstray(mem0, g0, mem1, g1, kernelVaddr, mapped, i, o, size, paddr / 0x1000);
    if kernelVaddr == 0 || mapped == 0 {
      return true;
    }
    UnmapReady(mem0, g0, mem1, g1, kernelVaddr, mapped, i, o, size, paddr / 0x1000);
    var freed := mmu.PdtUnmapMemory(mmu.kernelPdt, kernelVaddr, size);
    ghost var mem2, g2 := mmu.mem, mmu.Books();
    MapThenUnmap(mem0, g0, mem1, g1, mem2, g2, kernelVaddr, mapped, i, o, size, paddr / 0x1000);
    return false;
  }

  method TouchKernelPage(heap: Allocator, paddr: u32, size: u32) returns (astray: bool)
    requires heap.Valid() && PageCount(size) == 1
    modifies heap.mmu, heap.mmu.pfa, heap.mmu.pfa.start
    ensures astray <==> !CanPlace(StockOf(old(heap.mmu.mem), old(heap.mmu.Books())))
    ensures !astray ==>
      heap.Valid() && Extends(old(heap.mmu.mem), old(heap.mmu.Books()), heap.mmu.mem, heap.mmu.Books())
    ensures !astray ==>
      PageTouched(StockOf(old(heap.mmu.mem), old(heap.mmu.Books())), StockOf(heap.mmu.mem, heap.mmu.Books()))
  {
    ghost var mem0, g0 := heap.mmu.mem, heap.mmu.Books();
    astray := MapAndUnmap(heap.mmu, paddr, size);
    if astray {
      return;
    }
    heap.StaysValid(mem0, g0);
  }

  // Mapping one page in the directory of the process.
  lemma OwnPageMapped(mem0: Memory, g0: Ledger, mem: Memory, g: Ledger, d: nat, pages: map<nat, nat>, v: PageNo,
                      p: PageNo)
    requires Sane(mem0, g0) && SpaceIs(mem0, g0.layout, d, pages)
    requires MapOutcome(mem0, g0, mem, g, d, v, p, 1, 1, 1)
    ensures ExtendsFor(mem0, g0, mem, g, d) && SpaceIs(mem, g.layout, d, pages[v := p])
    ensures SparePages(mem, g.layout.kernelPdt) == SparePages(mem0, g0.layout.kernelPdt)
    ensures mem[g.layout.kernelPdt] == mem0[g0.layout.kernelPdt]
  {
    var k := g0.layout.kernelPdt;
    MapGrows(mem0, g0, mem, g, d, v, p, 1, 1, 1);
    SpaceMapped(mem0, g0, mem, g, d, pages, v, p);
    forall vp | 0 <= vp < PAGES
      ensures Walk(mem, k, vp) == Walk(mem0, k, vp)
    {
      assert !Sees(mem0, d, k, vp / 1024);
      assert Walk(mem, k, vp) == AfterMap(mem0, k, d, v, p, 1, 1, 1, vp);
    }
    SpareKept(mem0, mem, k);
  }

  lemma OwnPageFailed(mem0: Memory, g0: Ledger, mem: Memory, g: Ledger, d: nat, v: PageNo, p: PageNo, m: Count)
    requires Sane(mem0, g0) && d in g0.layout.dirs && Clear(mem0, d, v, 1) && m < 1
    requires MapOutcome(mem0, g0, mem, g, d, v, p, m, 1, 1)
    ensures mem == mem0 && g == g0 && ExtendsFor(mem0, g0, mem, g, d)
  {
    ExtendsForReflexive(mem0, g0, d);
  }

  // A page of an entry that holds none of the pages: the mapping takes one frame, if there is one, for a table.
  method MapOwn(mmu: Mmu, d: nat, paddr: u32, vaddr: u32, size: u32, ghost pages: map<nat, nat>) returns (mapped: u32)
    requires mmu.Valid() && SpaceIs(mmu.mem, mmu.layout, d, pages) && PageCount(size) == 1
    requires NoneBeside(pages, vaddr / 0x1000) && vaddr / 0x1000 != WINDOW_PAGE
    modifies mmu, mmu.pfa, mmu.pfa.start
    ensures mmu.Valid() && ExtendsFor(old(mmu.mem), old(mmu.Books()), mmu.mem, mmu.Books(), d)
    ensures mapped == 0 || mapped == 0x1000
    ensures mapped > 0 <==> old(mmu.pfa.avail) != {}
    ensures mapped > 0 ==> SpaceIs(mmu.mem, mmu.layout, d, pages[vaddr / 0x1000 := paddr / 0x1000])
    ensures StockOf(mmu.mem, mmu.Books()) == Less(StockOf(old(mmu.mem), old(mmu.Books())))
  {
    hide Extends, ExtendsFor, SparePages, SpaceIs, MapOutcome, Clear, NoLarge, Missing;
    ghost var mem0, g0, v: PageNo := mmu.mem, mmu.Books(), vaddr / 0x1000;
    SpaceHasRoom(mem0, g0, d, pages, v);
    AlignUpPage(size);
    ghost var m;
    mapped, m := mmu.PdtMapMemory(d, paddr, vaddr, size, 1, 1);
    ghost var mem1, g1 := mmu.mem, mmu.Books();
    if mapped > 0 {
      OwnPageMapped(mem0, g0, mem1, g1, d, pages, v, paddr / 0x1000);
    } else {
      OwnPageFailed(mem0, g0, mem1, g1, d, v, paddr / 0x1000, m);
    }
    assert mapped > 0 <==> |g0.avail| >= 1;
  }

  method MapOwnPage(heap: Allocator, d: nat, paddr: u32, vaddr: u32, size: u32, ghost pages: map<nat, nat>)
    returns (mapped: u32)
    requires heap.Valid() && SpaceIs(heap.mmu.mem, heap.mmu.layout, d, pages) && PageCount(size) == 1
    requires NoneBeside(pages, vaddr / 0x1000) && vaddr / 0x1000 != WINDOW_PAGE
    modifies heap.mmu, heap.mmu.pfa, heap.mmu.pfa.start
    ensures heap.Valid() && ExtendsFor(old(heap.mmu.mem), old(heap.mmu.Books()), heap.mmu.mem, heap.mmu.Books(), d)
    ensures mapped == 0 || mapped == 0x1000
    ensures mapped > 0 <==> old(heap.mmu.pfa.avail) != {}
    ensures mapped > 0 ==> SpaceIs(heap.mmu.mem, heap.mmu.layout, d, pages[vaddr / 0x1000 := paddr / 0x1000])
    ensures StockOf(heap.mmu.mem, heap.mmu.Books()) == Less(StockOf(old(heap.mmu.mem), old(heap.mmu.Books())))
  {
    ghost var mem0, g0 := heap.mmu.mem, heap.mmu.Books();
    mapped := MapOwn(heap.mmu, d, paddr, vaddr, size, pages);
    heap.StaysValid(mem0, g0);
  }

  // A frame taken from the free ones for data.
  ghost predicate FrameTaken(g0: Ledger, g: Ledger, paddr: u32)
  {
    paddr % 0x1000 == 0 && paddr / 0x1000 in g0.avail && paddr / 0x1000 in g.data
  }

  lemma FrameKept(g0: Ledger, mem1: Memory, g1: Ledger, mem2: Memory, g2: Ledger, paddr: u32)
    requires WellFormed(mem1, g1.layout) && FrameTaken(g0, g1, paddr) && Extends(mem1, g1, mem2, g2)
    ensures FrameTaken(g0, g2, paddr)
  {
  }

  // Page v of directory d was mapped to the frame at paddr, taken for it; or no frame is left.
  ghost predicate PagePlaced(mem0: Memory, g0: Ledger, mem: Memory, g: Ledger, d: nat, pages: map<nat, nat>, v: nat,
                             paddr: u32)
    requires WellFormed(mem0, g0.layout)
  {
    && ExtendsFor(mem0, g0, mem, g, d)
    && (g.avail != {} ==> FrameTaken(g0, g, paddr) && SpaceIs(mem, g.layout, d, pages[v := paddr / 0x1000]))
  }

  lemma PlacedKept(mem0: Memory, g0: Ledger, mem1: Memory, g1: Ledger, mem2: Memory, g2: Ledger, d: nat,
                   pages: map<nat, nat>, v: nat, paddr: u32)
    requires WellFormed(mem0, g0.layout) && PagePlaced(mem0, g0, mem1, g1, d, pages, v, paddr)
      && Extends(mem1, g1, mem2, g2)
    ensures PagePlaced(mem0, g0, mem2, g2, d, pages, v, paddr)
  {
    ExtendsForTransitive(mem0, g0, mem1, g1, mem2, g2, d);
    if g2.avail != {} {
      SpaceKept(mem1, g1, mem2, g2, d, pages[v := paddr / 0x1000]);
    }
  }

  // Taking the frame, touching it in the kernel, and mapping it in the process.
  lemma CodePlaced(mem0: Memory, g0: Ledger, mem1: Memory, g1: Ledger, mem2: Memory, g2: Ledger, mem3: Memory,
                   g3: Ledger, d: nat, paddr: u32, mapped: u32)
    requires WellFormed(mem0, g0.layout) && Extends(mem0, g0, mem1, g1) && Extends(mem1, g1, mem2, g2)
    requires ExtendsFor(mem2, g2, mem3, g3, d)
    requires if paddr == 0 then g0.avail == {} else FrameTaken(g0, g1, paddr)
    requires if mapped == 0 then g2.avail == {} else SpaceIs(mem3, g3.layout, d, map[0 := paddr / 0x1000])
    ensures PagePlaced(mem0, g0, mem3, g3, d, map[], 0, paddr)
  {
    ExtendsTransitive(mem0, g0, mem1, g1, mem2, g2);
    ExtendsWidens(mem0, g0, mem2, g2, d);
    ExtendsForTransitive(mem0, g0, mem2, g2, mem3, g3, d);
    assert map[][0 := paddr / 0x1000] == map[0 := paddr / 0x1000];
  }

  // The frame of the code: mapped for the kernel, unmapped, and mapped in the process. That a frame or a
  // mapping cannot be had goes unnoticed; but then no frame is left.
  method MapCode(heap: Allocator, d: nat, pfs: u32, vaddr: u32) returns (astray: bool, paddr: u32)
    requires heap.Valid() && SpaceIs(heap.mmu.mem, heap.mmu.layout, d, map[]) && pfs == 1 && vaddr == 0
    modifies heap.mmu, heap.mmu.pfa, heap.mmu.pfa.start
    ensures !astray ==> heap.Valid()
    ensures astray <==> !CanPlace(Less(StockOf(old(heap.mmu.mem), old(heap.mmu.Books()))))
    ensures !astray ==>
      PagePlaced(old(heap.mmu.mem), old(heap.mmu.Books()), heap.mmu.mem, heap.mmu.Books(), d, map[], 0, paddr)
    ensures !astray ==>
      CodeTaken(StockOf(old(heap.mmu.mem), old(heap.mmu.Books())), StockOf(heap.mmu.mem, heap.mmu.Books()))
  {
    hide Extends, ExtendsFor, SpaceIs, StockOf, ArenaMapped, BaseMapped, HeapOk, CanPlace, PageTouched, View,
         FreeFrames,
         PagePlaced, TablesOk, SharingOk, WindowOk, DirsOk, FrameTaken;
    ghost var mem0, g0 := heap.mmu.mem, heap.mmu.Books();
    paddr := TakeFrame(heap, pfs);
    ghost var mem1, g1 := heap.mmu.mem, heap.mmu.Books();
    SpaceKept(mem0, g0, mem1, g1, d, map[]);
    FrameLess(mem0, g0, g1, paddr);
    astray := TouchKernelPage(heap, paddr, FILE_SIZE);
    if astray {
      return;
    }
    ghost var mem2, g2 := heap.mmu.mem, heap.mmu.Books();
    SpaceKept(mem1, g1, mem2, g2, d, map[]);
    var mapped := MapOwnPage(heap, d, paddr, vaddr, FILE_SIZE, map[]);
    ghost var mem3, g3 := heap.mmu.mem, heap.mmu.Books();
    CodePlaced(mem0, g0, mem1, g1, mem2, g2, mem3, g3, d, paddr, mapped);
  }

  // One element that describes the one frame at paddr.
  ghost predicate OneElement(frames: PaddrList, paddr: u32, h0: State, h: State)
  {
    var e := frames.start;
    && e != null && frames.end == e && e.paddr == paddr && e.count == 1
    && e.at > 1 && Claimed(h0, h, e.at - 1, 3)
  }

  // The code of the process, a placeholder: one frame at virtual address 0. It goes astray exactly when the
  // code's frame cannot be mapped for the kernel, or the heap, in the state then reached, with the frames of
  // bits free, refuses the list element.
  method LoadCode(heap: Allocator, f0: Fields)
    returns (status: Status, f: Fields, ghost code: u32, ghost reached: PagingState, ghost bits: seq<bool>)
    requires heap.Valid() && PdtLoadable(heap.mmu.mem, heap.mmu.layout, f0.pdt, f0.pdtPaddr)
    requires SpaceIs(heap.mmu.mem, heap.mmu.layout, f0.pdtPaddr / 0x1000, map[])
    modifies heap, heap.mmu, heap.mmu.pfa, heap.mmu.pfa.start
    ensures status == Astray || status == Ready
    ensures CanPlace(Less(StockOf(old(heap.mmu.mem), old(heap.mmu.Books())))) ==>
      && Ok(reached) && FreeFrames(heap.mmu.pfa.mmap, bits) == reached.g.avail
      && PagePlaced(old(heap.mmu.mem), old(heap.mmu.Books()), reached.mem, reached.g, f0.pdtPaddr / 0x1000,
         map[], 0, code)
    ensures status == Astray <==>
      || !CanPlace(Less(StockOf(old(heap.mmu.mem), old(heap.mmu.Books()))))
      || Refuses(old(heap.h), heap.mmu.pfa.mmap, bits, reached.mem, reached.g, 3)
    ensures status == Ready ==> heap.Valid()
    ensures status == Ready ==>
      PagePlaced(old(heap.mmu.mem), old(heap.mmu.Books()), heap.mmu.mem, heap.mmu.Books(), f0.pdtPaddr / 0x1000,
        map[], 0, code)
    ensures status == Ready ==>
      && f == f0.(codePaddrs := f.codePaddrs, userMode := f0.userMode.(eip := 0), codeStartVaddr := 0)
      && OneElement(f.codePaddrs, code, old(heap.h), heap.h)
    ensures HasBlock(old(heap.h.free), 9) ==>
      (status == Ready <==> CanPlace(Less(StockOf(old(heap.mmu.mem), old(heap.mmu.Books())))))
    ensures HasBlock(old(heap.h.free), 9) && status == Ready ==>
      && HasBlock(heap.h.free, 6)
      && CodeTaken(StockOf(old(heap.mmu.mem), old(heap.mmu.Books())), StockOf(heap.mmu.mem, heap.mmu.Books()))
  {
    hide Extends, ExtendsFor, PagePlaced, SpaceIs, ArenaMapped, BaseMapped, View, FreeFrames, Refuses, CanPlace,
         CodeTaken,
         HeapOk, HasBlock, StockOf, TablesOk, SharingOk, WindowOk, Claimed, DirsOk;
    ghost var mem0, g0, dir := heap.mmu.mem, heap.mmu.Books(), f0.pdtPaddr / 0x1000;
    f := f0;
    var vaddr: u32, pfs := 0, DivCeil(FILE_SIZE, 0x1000);
    var d := heap.mmu.FrameBehind(f.pdt);
    assert d == dir;
    var astray, paddr := MapCode(heap, d, pfs, vaddr);
    code, reached, bits := paddr, PagingState(heap.mmu.mem, heap.mmu.Books()), heap.mmu.pfa.free;
    if astray {
      return Astray, f, code, reached, bits;
    }
    ghost var mem1, g1 := heap.mmu.mem, heap.mmu.Books();
    var junk: PaddrEle? := *;
    var e := NewElement(heap, paddr, pfs, junk, 6);
    if e == null {
      return Astray, f, code, reached, bits;
    }
    ghost var mem2, g2 := heap.mmu.mem, heap.mmu.Books();
    PlacedKept(mem0, g0, mem1, g1, mem2, g2, dir, map[], 0, paddr);
    f := f.(codePaddrs := PaddrList(e, e), userMode := f.userMode.(eip := vaddr), codeStartVaddr := vaddr);
    return Ready, f, code, reached, bits;
  }

  // The user stack: one frame below the kernel's part of the address space.
  method LoadStack(heap: Allocator, f0: Fields, ghost pages: map<nat, nat>)
    returns (status: Status, f: Fields, ghost stack: u32)
    requires heap.Valid() && PdtLoadable(heap.mmu.mem, heap.mmu.layout, f0.pdt, f0.pdtPaddr)
    requires NoneBeside(pages, STACK_PAGE)
    requires heap.mmu.pfa.avail != {} ==> SpaceIs(heap.mmu.mem, heap.mmu.layout, f0.pdtPaddr / 0x1000, pages)
    modifies heap, heap.mmu, heap.mmu.pfa, heap.mmu.pfa.start
    ensures status == Failed || status == Ready
    ensures heap.Valid()
    ensures ExtendsFor(old(heap.mmu.mem), old(heap.mmu.Books()), heap.mmu.mem, heap.mmu.Books(), f0.pdtPaddr / 0x1000)
    ensures status == Ready ==>
      && old(heap.mmu.pfa.avail) != {} && FrameTaken(old(heap.mmu.Books()), heap.mmu.Books(), stack)
      && SpaceIs(heap.mmu.mem, heap.mmu.layout, f0.pdtPaddr / 0x1000, pages[STACK_PAGE := stack / 0x1000])
    ensures status == Ready ==>
      && f == f0.(stackPaddrs := f.stackPaddrs, stackStartVaddr := PROC_INITIAL_STACK_VADDR,
                  userMode := f0.userMode.(esp := PROC_INITIAL_ESP))
      && OneElement(f.stackPaddrs, stack, old(heap.h), heap.h) && f.stackPaddrs.start.next == null
    ensures HasBlock(old(heap.h.free), 6) ==>
      (status == Ready <==> StockOf(old(heap.mmu.mem), old(heap.mmu.Books())).frames >= 2)
    ensures HasBlock(old(heap.h.free), 6) && status == Ready ==>
      && HasBlock(heap.h.free, 3)
      && StockOf(heap.mmu.mem, heap.mmu.Books()) == StackTaken(StockOf(old(heap.mmu.mem), old(heap.mmu.Books())))
  {
    hide Extends, ExtendsFor, ArenaMapped, BaseMapped, View, FreeFrames, HeapOk, HasBlock, FrameTaken, StockOf,
         StackTaken,
         TablesOk, SharingOk, WindowOk, SpaceIs, Refuses, Claimed, DirsOk;
    ghost var mem0, g0, dir := heap.mmu.mem, heap.mmu.Books(), f0.pdtPaddr / 0x1000;
    f := f0;
    var pfs := DivCeil(PROC_INITIAL_STACK_SIZE, 0x1000);
    var d := heap.mmu.FrameBehind(f.pdt);
    assert d == dir;
    var mapped, paddr := MapStack(heap, d, pfs, pages);
    stack := paddr;
    if paddr == 0 || mapped < pfs * 0x1000 {
      return Failed, f, stack;
    }
    ghost var mem1, g1 := heap.mmu.mem, heap.mmu.Books();
    var e := NewElement(heap, paddr, pfs, null, 3);
    ghost var mem2, g2 := heap.mmu.mem, heap.mmu.Books();
    ExtendsForTransitive(mem0, g0, mem1, g1, mem2, g2, dir);
    if e == null {
      return Failed, f, stack;
    }
    SpaceKept(mem1, g1, mem2, g2, dir, pages[STACK_PAGE := paddr / 0x1000]);
    FrameKept(g0, mem1, g1, mem2, g2, paddr);
    f := f.(stackPaddrs := PaddrList(e, e), stackStartVaddr := PROC_INITIAL_STACK_VADDR,
            userMode := f.userMode.(esp := PROC_INITIAL_ESP));
    return Ready, f, stack;
  }

  // The frame of the stack and its mapping; there is no mapping without a frame.
  method MapStack(heap: Allocator, d: nat, pfs: u32, ghost pages: map<nat, nat>) returns (mapped: u32, paddr: u32)
    requires heap.Valid() && pfs == 1 && NoneBeside(pages, STACK_PAGE)
    requires heap.mmu.pfa.avail != {} ==> SpaceIs(heap.mmu.mem, heap.mmu.layout, d, pages)
    modifies heap.mmu, heap.mmu.pfa, heap.mmu.pfa.start
    ensures heap.Valid()
    ensures ExtendsFor(old(heap.mmu.mem), old(heap.mmu.Books()), heap.mmu.mem, heap.mmu.Books(), d)
    ensures paddr != 0 && mapped >= 0x1000 ==>
      && old(heap.mmu.pfa.avail) != {} && FrameTaken(old(heap.mmu.Books()), heap.mmu.Books(), paddr)
      && SpaceIs(heap.mmu.mem, heap.mmu.layout, d, pages[STACK_PAGE := paddr / 0x1000])
    ensures paddr != 0 && mapped >= 0x1000 <==> StockOf(old(heap.mmu.mem), old(heap.mmu.Books())).frames >= 2
    ensures paddr != 0 && mapped >= 0x1000 ==>
      StockOf(heap.mmu.mem, heap.mmu.Books()) == StackTaken(StockOf(old(heap.mmu.mem), old(heap.mmu.Books())))
  {
    ghost var mem0, g0 := heap.mmu.mem, heap.mmu.Books();
    paddr := TakeFrame(heap, pfs);
    if paddr == 0 {
      return 0, 0;
    }
    ghost var mem1, g1 := heap.mmu.mem, heap.mmu.Books();
    SpaceKept(mem0, g0, mem1, g1, d, pages);
    FrameLess(mem0, g0, g1, paddr);
    mapped := MapOwnPage(heap, d, paddr, PROC_INITIAL_STACK_VADDR, pfs * 0x1000, pages);
    ghost var mem2, g2 := heap.mmu.mem, heap.mmu.Books();
    ExtendsWidens(mem0, g0, mem1, g1, d);
    ExtendsForTransitive(mem0, g0, mem1, g1, mem2, g2, d);
  }

  // A kernel page newly mapped to the frame at paddr, which was taken for it.
  ghost predicate KernelPage(mem0: Memory, g0: Ledger, mem: Memory, g: Ledger, vaddr: u32, paddr: u32)
    requires WellFormed(mem0, g0.layout)
  {
    var k, v := g0.layout.kernelPdt, vaddr / 0x1000;
    && FrameTaken(g0, g, paddr) && vaddr % 0x1000 == 0 && 0xC_0000 <= v
    && Walk(mem0, k, v) == Unmapped && Walk(mem, k, v) == Mapped(paddr / 0x1000, true, false)
  }

  lemma KernelPageKept(mem0: Memory, g0: Ledger, mem1: Memory, g1: Ledger, mem2: Memory, g2: Ledger, vaddr: u32,
                       paddr: u32)
    requires WellFormed(mem0, g0.layout) && WellFormed(mem1, g1.layout) && g1.layout.kernelPdt == g0.layout.kernelPdt
    requires KernelPage(mem0, g0, mem1, g1, vaddr, paddr) && Extends(mem1, g1, mem2, g2)
    ensures KernelPage(mem0, g0, mem2, g2, vaddr, paddr)
  {
  }

  lemma KernelPagePlaced(mem0: Memory, g0: Ledger, mem: Memory, g: Ledger, vaddr: u32, mapped: u32, i: nat, o: nat,
                         paddr: u32)
    requires Sane(mem0, g0) && Placed(mem0, g0, mem, g, vaddr, mapped, i, o, 0x1000, paddr / 0x1000, 1, 0)
    ensures Extends(mem0, g0, mem, g)
    ensures vaddr == 0 ==> mapped == 0
    ensures mapped == 0 <==> !CanPlace(StockOf(mem0, g0))
    ensures mapped > 0 ==>
      var k, v := g0.layout.kernelPdt, vaddr / 0x1000;
      && mapped == 0x1000 && vaddr % 0x1000 == 0 && 0xC_0000 <= v
      && Walk(mem0, k, v) == Unmapped && Walk(mem, k, v) == Mapped(paddr / 0x1000, true, false)
  {
    assert PageCount(0x1000) == 1;
    PlacedExtends(mem0, g0, mem, g, vaddr, mapped, i, o, 0x1000, paddr / 0x1000, 1, 0);
    PlacedAstray(mem0, g0, mem, g, vaddr, mapped, i, o, 0x1000, paddr / 0x1000);
    if mapped > 0 {
      var v: PageNo, p: PageNo := vaddr / 0x1000, paddr / 0x1000;
      assert v == i * 1024 + o && vaddr == v * 0x1000;
      assert PageAt(p, v - v) == p;
    }
  }

  method PlaceKernelPage(heap: Allocator, paddr: u32) returns (vaddr: u32, mapped: u32)
    requires heap.Valid()
    modifies heap.mmu, heap.mmu.pfa, heap.mmu.pfa.start
    ensures heap.Valid() && Extends(old(heap.mmu.mem), old(heap.mmu.Books()), heap.mmu.mem, heap.mmu.Books())
    ensures mapped == 0 || mapped == 0x1000
    ensures vaddr == 0 ==> mapped == 0
    ensures mapped == 0 <==> !CanPlace(StockOf(old(heap.mmu.mem), old(heap.mmu.Books())))
    ensures mapped > 0 ==>
      var k, v := heap.mmu.kernelPdt, vaddr / 0x1000;
      && vaddr % 0x1000 == 0 && 0xC_0000 <= v
      && Walk(old(heap.mmu.mem), k, v) == Unmapped && Walk(heap.mmu.mem, k, v) == Mapped(paddr / 0x1000, true, false)
  {
    ghost var mem0, g0 := heap.mmu.mem, heap.mmu.Books();
    ghost var i, o;
    vaddr, mapped, i, o := heap.mmu.FindAndMap(paddr, KERNEL_STACK_SIZE, 1, 0);
    ghost var mem1, g1 := heap.mmu.mem, heap.mmu.Books();
    KernelPagePlaced(mem0, g0, mem1, g1, vaddr, mapped, i, o, paddr);
    heap.StaysValid(mem0, g0);
  }

  // The frame of the kernel stack and its mapping; there is no mapping without a frame or an address.
  method MapKernelStack(heap: Allocator, pfs: u32, bytes: u32) returns (vaddr: u32, mapped: u32, paddr: u32)
    requires heap.Valid() && pfs == 1 && bytes == KERNEL_STACK_SIZE
    modifies heap.mmu, heap.mmu.pfa, heap.mmu.pfa.start
    ensures heap.Valid() && Extends(old(heap.mmu.mem), old(heap.mmu.Books()), heap.mmu.mem, heap.mmu.Books())
    ensures paddr != 0 && vaddr != 0 && mapped == bytes ==>
      KernelPage(old(heap.mmu.mem), old(heap.mmu.Books()), heap.mmu.mem, heap.mmu.Books(), vaddr, paddr)
    ensures paddr != 0 && vaddr != 0 && mapped == bytes <==>
      FrameAndPage(StockOf(old(heap.mmu.mem), old(heap.mmu.Books())))
  {
    ghost var mem0, g0 := heap.mmu.mem, heap.mmu.Books();
    paddr := TakeFrame(heap, pfs);
    if paddr == 0 {
      return 0, 0, 0;
    }
    ghost var mem1, g1 := heap.mmu.mem, heap.mmu.Books();
    FrameLess(mem0, g0, g1, paddr);
    vaddr, mapped := PlaceKernelPage(heap, paddr);
    ghost var mem2, g2 := heap.mmu.mem, heap.mmu.Books();
    ExtendsTransitive(mem0, g0, mem1, g1, mem2, g2);
  }

  // The kernel stack: one frame at the first free kernel page. The stack pointer is kept at its last word.
  method LoadKernelStack(heap: Allocator, f0: Fields)
    returns (status: Status, f: Fields, ghost vaddr: u32, ghost stack: u32)
    requires heap.Valid()
    modifies heap, heap.mmu, heap.mmu.pfa, heap.mmu.pfa.start
    ensures status == Failed || status == Ready
    ensures heap.Valid() && Extends(old(heap.mmu.mem), old(heap.mmu.Books()), heap.mmu.mem, heap.mmu.Books())
    ensures status == Ready ==>
      && KernelPage(old(heap.mmu.mem), old(heap.mmu.Books()), heap.mmu.mem, heap.mmu.Books(), vaddr, stack)
      && f == f0.(kernelStackPaddrs := f.kernelStackPaddrs, kernelStackStartVaddr := vaddr + 0xFFC)
      && OneElement(f.kernelStackPaddrs, stack, old(heap.h), heap.h) && f.kernelStackPaddrs.start.next == null
    ensures HasBlock(old(heap.h.free), 3) ==>
      (status == Ready <==> FrameAndPage(StockOf(old(heap.mmu.mem), old(heap.mmu.Books()))))
  {
    hide Extends, ExtendsFor, KernelPage, ArenaMapped, BaseMapped, View, FreeFrames, StockOf, FrameAndPage;
    ghost var mem0, g0 := heap.mmu.mem, heap.mmu.Books();
    f := f0;
    var pfs := DivCeil(KERNEL_STACK_SIZE, 0x1000);
    var bytes: u32 := pfs * 0x1000;
    var at, mapped, paddr := MapKernelStack(heap, pfs, bytes);
    stack, vaddr := paddr, at;
    ghost var mem2, g2 := heap.mmu.mem, heap.mmu.Books();
    if paddr == 0 || at == 0 || mapped != bytes {
      return Failed, f, vaddr, stack;
    }
    var e := NewElement(heap, paddr, pfs, null, 0);
    ghost var mem3, g3 := heap.mmu.mem, heap.mmu.Books();
    ExtendsTransitive(mem0, g0, mem2, g2, mem3, g3);
    if e == null {
      return Failed, f, vaddr, stack;
    }
    KernelPageKept(mem0, g0, mem2, g2, mem3, g3, vaddr, paddr);
    return Ready, f.(kernelStackPaddrs := PaddrList(e, e), kernelStackStartVaddr := at + bytes - 4), vaddr, stack;
  }

  // What process_create took for a process: the frames of its code, stack and kernel stack, and the
  // kernel address of the latter.
  datatype Parts = Parts(code: u32, stack: u32, kernelStack: u32, kernelVaddr: u32)

  // A new process: its directory, code, stack and kernel stack are in four different frames that were
  // free; its address space holds exactly the code and the stack; its kernel stack is mapped for the
  // kernel; and no other address space, no mapping of the kernel and no frame in use has changed.
  ghost predicate ProcessMade(mem0: Memory, g0: Ledger, mem: Memory, g: Ledger, pdt: u32, pdtPaddr: u32, parts: Parts)
    requires WellFormed(mem0, g0.layout)
  {
    var d, c, s, k := pdtPaddr / 0x1000, parts.code / 0x1000, parts.stack / 0x1000, parts.kernelStack / 0x1000;
    && ExtendsFor(mem0, g0, mem, g, g0.layout.kernelPdt)
    && d in g0.avail && PdtLoadable(mem, g.layout, pdt, pdtPaddr)
    && SpaceIs(mem, g.layout, d, map[0 := c, 0xB_FFFF := s])
    && FrameTaken(g0, g, parts.code) && FrameTaken(g0, g, parts.stack)
    && KernelPage(mem0, g0, mem, g, parts.kernelVaddr, parts.kernelStack)
    && d != c && d != s && d != k && c != s && c != k && s != k
  }

  // The fields of a new process. It starts at address 0 in user mode, with interrupts enabled, on the last
  // word below the kernel's part.
  ghost predicate FieldsMade(f: Fields, pid: u32, parts: Parts)
  {
    && f.id == pid && f.parentId == 0 && f.current == f.userMode
    && (var user := f.userMode;
        && user.cs == 0x1B && user.ss == 0x23 && user.eflags == 0x202 && user.eip == 0 && user.esp == 0xBFFF_FFFC
        && user.eax == 0 && user.ebx == 0 && user.ecx == 0 && user.edx == 0
        && user.ebp == 0 && user.esi == 0 && user.edi == 0)
    && f.kernelStackStartVaddr == parts.kernelVaddr + 0xFFC
    && f.stackStartVaddr == 0xBFFF_F000 && f.codeStartVaddr == 0
    && DescribesOne(f.codePaddrs, parts.code)
    && DescribesOne(f.stackPaddrs, parts.stack) && f.stackPaddrs.start.next == null
    && DescribesOne(f.kernelStackPaddrs, parts.kernelStack) && f.kernelStackPaddrs.start.next == null
  }

  ghost predicate DescribesOne(frames: PaddrList, paddr: u32)
  {
    var e := frames.start;
    e != null && frames.end == e && e.paddr == paddr && e.count == 1
  }

  // Three list elements are new blocks of the heap, at addresses c, s and k, and the live blocks of
  // before are still there.
  ghost predicate PartsClaimed(live0: map<nat, nat>, live: map<nat, nat>, c: nat, s: nat, k: nat)
  {
    && c > 1 && s > 1 && k > 1
    && var live1 := live0[c - 1 := 3];
    var live2 := live1[s - 1 := 3];
    && c - 1 !in live0 && s - 1 !in live1 && k - 1 !in live2
    && live == live2[k - 1 := 3]
  }

  lemma LoadableGrows(mem0: Memory, g0: Ledger, mem: Memory, g: Ledger, pdt: u32, pdtPaddr: u32)
    requires WellFormed(mem0, g0.layout) && PdtLoadable(mem0, g0.layout, pdt, pdtPaddr) && Grows(mem0, g0, mem, g)
    ensures PdtLoadable(mem, g.layout, pdt, pdtPaddr)
  {
    assert Walk(mem, g.layout.kernelPdt, pdt / 0x1000) == Walk(mem0, g0.layout.kernelPdt, pdt / 0x1000);
  }

  // The steps up to the code.
  ghost predicate CodeMade(mem0: Memory, g0: Ledger, mem: Memory, g: Ledger, pdt: u32, pdtPaddr: u32, code: u32)
    requires WellFormed(mem0, g0.layout)
  {
    var d := pdtPaddr / 0x1000;
    && ExtendsFor(mem0, g0, mem, g, g0.layout.kernelPdt)
    && d in g0.avail && PdtLoadable(mem, g.layout, pdt, pdtPaddr)
    && (g.avail != {} ==> FrameTaken(g0, g, code) && SpaceIs(mem, g.layout, d, map[0 := code / 0x1000]))
  }

  lemma CodeStep(mem0: Memory, g0: Ledger, mem1: Memory, g1: Ledger, mem2: Memory, g2: Ledger, mem3: Memory, g3: Ledger,
                 pdt: u32, pdtPaddr: u32, code: u32)
    requires Sane(mem0, g0) && Extends(mem0, g0, mem1, g1) && Extends(mem1, g1, mem2, g2)
    requires PdtReady(mem1, g1, mem2, g2, pdt, pdtPaddr)
    requires PagePlaced(mem2, g2, mem3, g3, pdtPaddr / 0x1000, map[], 0, code)
    ensures CodeMade(mem0, g0, mem3, g3, pdt, pdtPaddr, code)
  {
    hide SpaceIs, Extends, ExtendsFor, Leads, SparePages, PdtLoadable, FrameTaken, TablesOk, SharingOk, WindowOk,
         DirsOk;
    var d := pdtPaddr / 0x1000;
    FreeFrameBefore(mem0, g0, mem1, g1, d);
    ExtendsTransitive(mem0, g0, mem1, g1, mem2, g2);
    ExtendsWidens(mem0, g0, mem2, g2, d);
    ExtendsForTransitive(mem0, g0, mem2, g2, mem3, g3, d);
    ExtendsForNew(mem0, g0, mem3, g3, d);
    ExtendsGrows(mem0, g0, mem1, g1);
    ExtendsGrows(mem1, g1, mem2, g2);
    ExtensionGrows(mem2, g2, mem3, g3, d);
    LoadableGrows(mem2, g2, mem3, g3, pdt, pdtPaddr);
    FrameTakenBefore(mem0, g0, mem2, g2, g3, code);
    assert map[][0 := code / 0x1000] == map[0 := code / 0x1000];
  }

  // A frame that is free was free before the heap grew, and no directory.
  lemma FreeFrameBefore(mem0: Memory, g0: Ledger, mem1: Memory, g1: Ledger, d: nat)
    requires Sane(mem0, g0) && Extends(mem0, g0, mem1, g1) && d in g1.avail
    ensures d in g0.avail && d !in g0.layout.dirs
  {
  }

  lemma FrameTakenBefore(mem0: Memory, g0: Ledger, mem1: Memory, g1: Ledger, g: Ledger, paddr: u32)
    requires Sane(mem0, g0) && Extends(mem0, g0, mem1, g1)
    ensures FrameTaken(g1, g, paddr) ==> FrameTaken(g0, g, paddr)
  {
  }

  // The steps up to the stack.
  ghost predicate StackMade(mem0: Memory, g0: Ledger, mem: Memory, g: Ledger, pdt: u32, pdtPaddr: u32, code: u32,
                            stack: u32)
    requires WellFormed(mem0, g0.layout)
  {
    var d, c, s := pdtPaddr / 0x1000, code / 0x1000, stack / 0x1000;
    && ExtendsFor(mem0, g0, mem, g, g0.layout.kernelPdt)
    && d in g0.avail && PdtLoadable(mem, g.layout, pdt, pdtPaddr)
    && SpaceIs(mem, g.layout, d, map[0 := c, 0xB_FFFF := s])
    && FrameTaken(g0, g, code) && FrameTaken(g0, g, stack) && d != c && d != s && c != s
  }

  lemma OwnStep(mem0: Memory, g0: Ledger, mem1: Memory, g1: Ledger, mem2: Memory, g2: Ledger, pdt: u32, pdtPaddr: u32,
                code: u32)
    requires Sane(mem0, g0) && CodeMade(mem0, g0, mem1, g1, pdt, pdtPaddr, code)
      && ExtendsFor(mem1, g1, mem2, g2, pdtPaddr / 0x1000)
    ensures ExtendsFor(mem0, g0, mem2, g2, g0.layout.kernelPdt)
  {
    var d := pdtPaddr / 0x1000;
    assert d !in g0.layout.dirs;
    ExtendsForNew(mem0, g0, mem1, g1, d);
    ExtendsForTransitive(mem0, g0, mem1, g1, mem2, g2, d);
    ExtendsForNew(mem0, g0, mem2, g2, d);
  }

  lemma StackStep(mem0: Memory, g0: Ledger, mem1: Memory, g1: Ledger, mem2: Memory, g2: Ledger, pdt: u32, pdtPaddr: u32,
                  code: u32, stack: u32)
    requires Sane(mem0, g0) && CodeMade(mem0, g0, mem1, g1, pdt, pdtPaddr, code)
      && ExtendsFor(mem1, g1, mem2, g2, pdtPaddr / 0x1000)
    requires g1.avail != {} && FrameTaken(g1, g2, stack)
    requires SpaceIs(mem2, g2.layout, pdtPaddr / 0x1000, map[0 := code / 0x1000][STACK_PAGE := stack / 0x1000])
    ensures StackMade(mem0, g0, mem2, g2, pdt, pdtPaddr, code, stack)
  {
    OwnStep(mem0, g0, mem1, g1, mem2, g2, pdt, pdtPaddr, code);
    LoadableGrows(mem1, g1, mem2, g2, pdt, pdtPaddr);
    assert map[0 := code / 0x1000][STACK_PAGE := stack / 0x1000] ==
      map[0 := code / 0x1000, STACK_PAGE := stack / 0x1000];
  }

  // The last step.
  lemma KernelStackStep(mem0: Memory, g0: Ledger, mem1: Memory, g1: Ledger, mem2: Memory, g2: Ledger, pdt: u32,
                        pdtPaddr: u32, parts: Parts)
    requires Sane(mem0, g0) && StackMade(mem0, g0, mem1, g1, pdt, pdtPaddr, parts.code, parts.stack)
      && Extends(mem1, g1, mem2, g2)
    requires KernelPage(mem1, g1, mem2, g2, parts.kernelVaddr, parts.kernelStack)
    ensures ProcessMade(mem0, g0, mem2, g2, pdt, pdtPaddr, parts)
  {
    var d := pdtPaddr / 0x1000;
    ExtendsForTransitive(mem0, g0, mem1, g1, mem2, g2, g0.layout.kernelPdt);
    LoadableGrows(mem1, g1, mem2, g2, pdt, pdtPaddr);
    SpaceKept(mem1, g1, mem2, g2, d, map[0 := parts.code / 0x1000, STACK_PAGE := parts.stack / 0x1000]);
    assert d in g1.layout.dirs;
  }

  // The directory and the code.
  method FillCode(heap: Allocator, f0: Fields, ghost mem0: Memory, ghost g0: Ledger)
    returns (status: Status, f: Fields, ghost code: u32)
    requires heap.Valid() && Sane(mem0, g0) && Extends(mem0, g0, heap.mmu.mem, heap.mmu.Books())
    modifies heap, heap.mmu, heap.mmu.pfa, heap.mmu.pfa.start
    ensures status != Astray ==> heap.Valid()
    ensures status == Failed ==> ExtendsFor(mem0, g0, heap.mmu.mem, heap.mmu.Books(), g0.layout.kernelPdt)
    ensures status == Ready ==>
      && CodeMade(mem0, g0, heap.mmu.mem, heap.mmu.Books(), f.pdt, f.pdtPaddr, code)
      && f == f0.(pdt := f.pdt, pdtPaddr := f.pdtPaddr, codePaddrs := f.codePaddrs,
                  userMode := f0.userMode.(eip := 0), codeStartVaddr := 0)
      && OneElement(f.codePaddrs, code, old(heap.h), heap.h)
    ensures HasBlock(old(heap.h.free), 9) ==>
      (Supplied(StockOf(old(heap.mmu.mem), old(heap.mmu.Books()))) ==> status == Ready)
    ensures HasBlock(old(heap.h.free), 9) && status == Ready ==>
      && HasBlock(heap.h.free, 6)
      && UpToCode(StockOf(old(heap.mmu.mem), old(heap.mmu.Books())), StockOf(heap.mmu.mem, heap.mmu.Books()))
  {
    hide Extends, ExtendsFor, PagePlaced, SpaceIs, StockOf, CodeMade, Supplied, CodeTaken, DirectoryTaken, CanPlace,
         PdtLoadable, ArenaMapped, BaseMapped,
         HeapOk;
    code := 0;
    ghost var mem1, g1 := heap.mmu.mem, heap.mmu.Books();
    if Supplied(StockOf(mem1, g1)) {
      SuppliedFirst(StockOf(mem1, g1));
    }
    status, f := CreatePdt(heap, f0);
    if status == Astray {
      return;
    }
    ghost var mem2, g2 := heap.mmu.mem, heap.mmu.Books();
    if status == Failed {
      ExtendsTransitive(mem0, g0, mem1, g1, mem2, g2);
      return;
    }
    if Supplied(StockOf(mem1, g1)) {
      SuppliedNext(StockOf(mem1, g1), StockOf(mem2, g2));
    }
    ghost var reached, bits;
    status, f, code, reached, bits := LoadCode(heap, f);
    if status == Astray {
      return;
    }
    ghost var mem3, g3 := heap.mmu.mem, heap.mmu.Books();
    CodeStep(mem0, g0, mem1, g1, mem2, g2, mem3, g3, f.pdt, f.pdtPaddr, code);
  }

  // The two stacks.
  method FillStacks(heap: Allocator, f0: Fields, ghost code: u32, ghost mem0: Memory, ghost g0: Ledger)
    returns (status: Status, f: Fields, ghost parts: Parts)
    requires heap.Valid() && Sane(mem0, g0)
      && CodeMade(mem0, g0, heap.mmu.mem, heap.mmu.Books(), f0.pdt, f0.pdtPaddr, code)
    modifies heap, heap.mmu, heap.mmu.pfa, heap.mmu.pfa.start
    ensures status == Failed || status == Ready
    ensures heap.Valid() && ExtendsFor(mem0, g0, heap.mmu.mem, heap.mmu.Books(), g0.layout.kernelPdt)
    ensures status == Ready ==>
      && parts.code == code && ProcessMade(mem0, g0, heap.mmu.mem, heap.mmu.Books(), f.pdt, f.pdtPaddr, parts)
      && f == f0.(stackPaddrs := f.stackPaddrs, stackStartVaddr := PROC_INITIAL_STACK_VADDR,
                  userMode := f0.userMode.(esp := PROC_INITIAL_ESP),
                  kernelStackPaddrs := f.kernelStackPaddrs, kernelStackStartVaddr := parts.kernelVaddr + 0xFFC)
      && TwoElements(f, parts, old(heap.h), heap.h)
    ensures HasBlock(old(heap.h.free), 6) ==>
      (status == Ready <==> RoomForStacks(StockOf(old(heap.mmu.mem), old(heap.mmu.Books()))))
  {
    hide Extends, ExtendsFor, SpaceIs, StockOf, FrameAndPage, StackTaken, ArenaMapped, BaseMapped, HeapOk, OnCircle,
         StackMade, ProcessMade,
         TablesOk, SharingOk, WindowOk, HasBlock, KernelPage, FrameTaken, View, FreeFrames, UserStart;
    parts := Parts(code, 0, 0, 0);
    ghost var mem1, g1, h1 := heap.mmu.mem, heap.mmu.Books(), heap.h;
    ghost var stack;
    status, f, stack := LoadStack(heap, f0, map[0 := code / 0x1000]);
    ghost var mem2, g2, h2 := heap.mmu.mem, heap.mmu.Books(), heap.h;
    OwnStep(mem0, g0, mem1, g1, mem2, g2, f0.pdt, f0.pdtPaddr, code);
    if status == Failed {
      return;
    }
    StackStep(mem0, g0, mem1, g1, mem2, g2, f0.pdt, f0.pdtPaddr, code, stack);
    ghost var kernelVaddr, kernelStack;
    status, f, kernelVaddr, kernelStack := LoadKernelStack(heap, f);
    ghost var mem3, g3, h3 := heap.mmu.mem, heap.mmu.Books(), heap.h;
    ExtendsForTransitive(mem0, g0, mem2, g2, mem3, g3, g0.layout.kernelPdt);
    if status == Failed {
      return;
    }
    parts := Parts(code, stack, kernelStack, kernelVaddr);
    KernelStackStep(mem0, g0, mem2, g2, mem3, g3, f.pdt, f.pdtPaddr, parts);
    assert OneElement(f.stackPaddrs, stack, h1, h2) && OneElement(f.kernelStackPaddrs, kernelStack, h2, h3);
  }

  ghost predicate TwoElements(f: Fields, parts: Parts, h0: State, h: State)
  {
    && DescribesOne(f.stackPaddrs, parts.stack) && f.stackPaddrs.start.next == null
    && DescribesOne(f.kernelStackPaddrs, parts.kernelStack) && f.kernelStackPaddrs.start.next == null
    && var s, k := f.stackPaddrs.start.at, f.kernelStackPaddrs.start.at;
    && s > 1 && k > 1 && s - 1 !in h0.live && k - 1 !in h0.live[s - 1 := 3]
    && h.live == h0.live[s - 1 := 3][k - 1 := 3]
  }

  // A process in full: its parts, its fields, and the heap blocks of its lists.
  ghost predicate Made(mem0: Memory, g0: Ledger, live0: map<nat, nat>, mem: Memory, g: Ledger, live: map<nat, nat>,
                       p: Process, pid: u32, parts: Parts)
    requires WellFormed(mem0, g0.layout)
  {
    var holds :=
      var c, s, k := p.f.codePaddrs.start, p.f.stackPaddrs.start, p.f.kernelStackPaddrs.start;
      && ProcessMade(mem0, g0, mem, g, p.f.pdt, p.f.pdtPaddr, parts) && FieldsMade(p.f, pid, parts)
      && p.at > 1 && p.at - 1 !in live0 && PartsClaimed(live0[p.at - 1 := 20], live, c.at, s.at, k.at);
    holds
  }

  lemma ProcessAssembled(mem0: Memory, g0: Ledger, live0: map<nat, nat>, mem: Memory, g: Ledger, h1: State, h2: State,
                         h3: State, f1: Fields, f2: Fields, p: Process, pid: u32, parts: Parts)
    requires WellFormed(mem0, g0.layout) && p.f == f2.(current := f2.userMode)
    requires ProcessMade(mem0, g0, mem, g, f2.pdt, f2.pdtPaddr, parts)
    requires p.at > 1 && p.at - 1 !in live0 && h1.live == live0[p.at - 1 := 20]
    requires
      var f0 := InitialFields(pid);
      f1 == f0.(pdt := f1.pdt, pdtPaddr := f1.pdtPaddr, codePaddrs := f1.codePaddrs,
                userMode := f0.userMode.(eip := 0), codeStartVaddr := 0)
    requires
      f2 == f1.(stackPaddrs := f2.stackPaddrs, stackStartVaddr := PROC_INITIAL_STACK_VADDR,
                userMode := f1.userMode.(esp := PROC_INITIAL_ESP),
                kernelStackPaddrs := f2.kernelStackPaddrs, kernelStackStartVaddr := parts.kernelVaddr + 0xFFC)
    requires OneElement(f1.codePaddrs, parts.code, h1, h2) && TwoElements(f2, parts, h2, h3)
    ensures Made(mem0, g0, live0, mem, g, h3.live, p, pid, parts)
  {
    hide ExtendsFor, SpaceIs, PdtLoadable, FrameTaken, Walk;
    assert KernelPage(mem0, g0, mem, g, parts.kernelVaddr, parts.kernelStack);
  }

  // Everything after the process structure itself, which becomes an object when all its fields are set.
  method Build(heap: Allocator, at: nat, pid: u32, ghost mem0: Memory, ghost g0: Ledger, ghost live0: map<nat, nat>)
    returns (status: Status, p: Process?, ghost parts: Parts)
    requires heap.Valid() && Sane(mem0, g0) && Extends(mem0, g0, heap.mmu.mem, heap.mmu.Books())
    requires at > 1 && at - 1 !in live0 && heap.h.live == live0[at - 1 := 20]
    modifies heap, heap.mmu, heap.mmu.pfa, heap.mmu.pfa.start
    ensures status != Astray ==> heap.Valid()
    ensures status != Astray ==> ExtendsFor(mem0, g0, heap.mmu.mem, heap.mmu.Books(), g0.layout.kernelPdt)
    ensures p != null <==> status == Ready
    ensures p != null ==>
      fresh(p) && Made(mem0, g0, live0, heap.mmu.mem, heap.mmu.Books(), heap.h.live, p, pid, parts)
    ensures HasBlock(old(heap.h.free), 9) ==>
      (status == Ready <==> Supplied(StockOf(old(heap.mmu.mem), old(heap.mmu.Books()))))
  {
    hide Extends, ExtendsFor, Grows, ArenaMapped, BaseMapped, HeapOk, OnCircle, Made, OneElement, TwoElements,
         ProcessMade, CodeMade, HasBlock, StockOf, Supplied, UpToCode, RoomForStacks, InitialFields, View, FreeFrames,
         TablesOk, SharingOk, WindowOk, DirsOk;
    p, parts := null, Parts(0, 0, 0, 0);
    ghost var h1, s0 := heap.h, StockOf(heap.mmu.mem, heap.mmu.Books());
    var f;
    ghost var code;
    status, f, code := FillCode(heap, InitialFields(pid), mem0, g0);
    if status != Ready {
      return;
    }
    ghost var f1, h2, s1 := f, heap.h, StockOf(heap.mmu.mem, heap.mmu.Books());
    if HasBlock(h1.free, 9) {
      SuppliedExactly(s0, s1);
    }
    status, f, parts := FillStacks(heap, f, code, mem0, g0);
    if status != Ready {
      return;
    }
    ghost var mem1, g1, h3 := heap.mmu.mem, heap.mmu.Books(), heap.h;
    p := new Process(at, f.(current := f.userMode));
    ProcessAssembled(mem0, g0, live0, mem1, g1, h1, h2, h3, f1, f, p, pid, parts);
  }

  // The process structure.
  method ClaimProcess(heap: Allocator) returns (at: nat)
    requires heap.Valid()
    modifies heap, heap.mmu, heap.mmu.pfa, heap.mmu.pfa.start
    ensures heap.Valid() && Extends(old(heap.mmu.mem), old(heap.mmu.Books()), heap.mmu.mem, heap.mmu.Books())
    ensures at != 0 ==> at > 1 && Claimed(old(heap.h), heap.h, at - 1, 20)
    ensures at == 0 <==>
      Refuses(old(heap.h), heap.mmu.pfa.mmap, old(heap.mmu.pfa.free), old(heap.mmu.mem), old(heap.mmu.Books()), 20)
    ensures HasBlock(old(heap.h.free), 29) ==>
      && at != 0 && heap.mmu.mem == old(heap.mmu.mem) && heap.mmu.Books() == old(heap.mmu.Books())
      && HasBlock(heap.h.free, 9)
  {
    hide UnitsFor, Refuses, HasBlock, Extends, ArenaMapped, BaseMapped;
    Sizes();
    at := Claim(heap, SIZEOF_PROCESS, 9);
  }

  // process_create: a process with all its parts, or null with what was taken so far kept, or astray, as when
  // the heap refuses the structure. With 29 free units in one heap block for it and the list elements there is
  // a process exactly if the frames and the kernel pages suffice.
  method ProcessCreate(s: Scheduler) returns (status: Status, p: Process?, ghost parts: Parts)
    requires s.Valid()
    modifies s.heap, s.heap.mmu, s.heap.mmu.pfa, s.heap.mmu.pfa.start
    ensures status != Astray ==> s.Valid()
    ensures status != Astray ==>
      ExtendsFor(old(s.heap.mmu.mem), old(s.heap.mmu.Books()), s.heap.mmu.mem, s.heap.mmu.Books(), s.heap.mmu.kernelPdt)
    ensures p != null <==> status == Ready
    ensures p != null ==> fresh(p)
    ensures p != null ==>
      Made(old(s.heap.mmu.mem), old(s.heap.mmu.Books()), old(s.heap.h.live), s.heap.mmu.mem, s.heap.mmu.Books(),
           s.heap.h.live, p, RunQueue.NextPid(IdsOf(s.queue)), parts)
    ensures
      Refuses(old(s.heap.h), s.heap.mmu.pfa.mmap, old(s.heap.mmu.pfa.free), old(s.heap.mmu.mem),
        old(s.heap.mmu.Books()), 20) ==>
      status == Astray
    ensures HasBlock(old(s.heap.h.free), 29) ==>
      (status == Ready <==> Supplied(StockOf(old(s.heap.mmu.mem), old(s.heap.mmu.Books()))))
  {
    hide Extends, ExtendsFor, Grows, Made, HasBlock, Refuses, StockOf, Supplied, ProcessMade, ArenaMapped, BaseMapped,
         HeapOk, OnCircle;
    p, parts := null, Parts(0, 0, 0, 0);
    ghost var mem0, g0, live0, members := s.heap.mmu.mem, s.heap.mmu.Books(), s.heap.h.live, Members(s.queue);
    var at := ClaimProcess(s.heap);
    if at == 0 {
      return Astray, p, parts;
    }
    assert s.ListOk();
    var pid := s.NextPid();
    status, p, parts := Build(s.heap, at, pid, mem0, g0, live0);
    if status == Astray {
      return Astray, null, parts;
    }
    assert s.ListOk();
    ghost var mem1, g1 := s.heap.mmu.mem, s.heap.mmu.Books();
    ExtensionGrows(mem0, g0, mem1, g1, g0.layout.kernelPdt);
    LoadableKept(mem0, g0, mem1, g1, members);
  }
}
