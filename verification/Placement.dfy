// Searching for kernel addresses and mapping there, creating directories, and loading them.
module Placement {
  import opened Machine
  import opened PageTables
  import opened AddressSpace
  import opened MapSteps
  import opened Directories
  import opened Effects
  import opened Ledgers
  import opened MapLoops

  // The outcome of a search and a mapping. The mapping succeeds in full exactly when the entry found
  // is present or a frame is free for its table; otherwise nothing changes. The pages were clear.
  ghost predicate Placed(mem0: Memory, g0: Ledger, mem: Memory, g: Ledger, vaddr: u32, mappedSize: u32, i: nat, o: nat,
                         size: u32, p: PageNo, rw: bv8, pl: bv8)
    requires WellFormed(mem0, g0.layout)
  {
    var k, N: Count, v: PageNo := g0.layout.kernelPdt, PageCount(size), vaddr / 0x1000;
    && (vaddr == 0 ==> forall x :: 768 <= x < 1024 ==> !EntryFits(mem0, k, x, N))
    && (vaddr != 0 ==>
         && FoundAt(mem0, k, i, o, N) && vaddr == i * 0x40_0000 + o * 0x1000
         && v + N <= PAGES && Clear(mem0, k, v, N)
         && (mappedSize > 0 <==> Present(mem0[k][i]) || g0.avail != {}))
    && if mappedSize == 0 then mem == mem0 && g == g0
       else
         && vaddr != 0 && mappedSize == AlignUp(size, 0x1000) && g.data == g0.data
         && |g.avail| == |g0.avail| - (if Present(mem0[k][i]) then 0 else 1)
         && MapOutcome(mem0, g0, mem, g, k, v, p, N, rw, pl)
  }

  lemma NoPlace(mem: Memory, g: Ledger, i: nat, o: nat, size: u32, p: PageNo, rw: bv8, pl: bv8)
    requires WellFormed(mem, g.layout) && forall x :: 768 <= x < 1024 ==>
      !EntryFits(mem, g.layout.kernelPdt, x, PageCount(size))
    ensures Placed(mem, g, mem, g, 0, 0, i, o, size, p, rw, pl)
  {
  }

  // The place of a mapping that succeeded.
  lemma PlacedParts(mem0: Memory, g0: Ledger, mem: Memory, g: Ledger, vaddr: u32, mappedSize: u32, i: nat, o: nat,
                    size: u32, p: PageNo, rw: bv8, pl: bv8)
    requires WellFormed(mem0, g0.layout) && 0 < PageCount(size) <= 1024 && mappedSize > 0
    requires Placed(mem0, g0, mem, g, vaddr, mappedSize, i, o, size, p, rw, pl)
    ensures
      var v: PageNo, k, N: Count := vaddr / 0x1000, g0.layout.kernelPdt, PageCount(size);
      && vaddr % 0x1000 == 0 && 0xC_0000 <= v && v + N <= PAGES && FoundAt(mem0, k, v / 1024, v % 1024, N)
      && MappedTo(mem0, mem, g0.layout.dirs, k, v, p, N, rw, pl) && Clear(mem0, k, v, N)
  {
    hide Leads, MappedTo, SameSharing, TablesOk, SharingOk, WindowOk, DirsOk, Walk, Clear, EntryFits;
    PlaceSplits(i, o, vaddr);
  }

  lemma FoundInEntry(mem: Memory, k: nat, i: nat, o: nat, n: nat)
    requires k < PAGES && FoundAt(mem, k, i, o, n) && 0 < n
    ensures 768 <= i < 1024 && o < 1024
  {
  }

  lemma PlaceSplits(i: nat, o: nat, vaddr: u32)
    requires i < 1024 && o < 1024 && vaddr == i * 0x40_0000 + o * 0x1000
    ensures vaddr % 0x1000 == 0 && vaddr / 0x1000 / 1024 == i && vaddr / 0x1000 % 1024 == o
  {
    assert vaddr == (i * 1024 + o) * 0x1000;
  }

  lemma FoundPage(mem: Memory, L: Layout, i: nat, o: nat, N: Count, vaddr: u32)
    requires WellFormed(mem, L) && 0 < N <= 1024
    requires FoundAt(mem, L.kernelPdt, i, o, N) && vaddr == i * 0x40_0000 + o * 0x1000
    ensures var v: PageNo := vaddr / 0x1000;
      && v + N <= PAGES && Clear(mem, L.kernelPdt, v, N) && NoLarge(mem, L.kernelPdt, v, N)
      && Missing(mem, L.kernelPdt, v, N) == if Present(mem[L.kernelPdt][i]) then {} else {i}
  {
    assert vaddr / 0x1000 == i * 1024 + o;
    FoundIsClear(mem, L, i, o, N, vaddr / 0x1000);
  }

  // A place found can be mapped if its entry is present or a frame is free for its table.
  lemma PlaceMappable(mem: Memory, g: Ledger, i: nat, o: nat, N: Count, vaddr: u32)
    requires WellFormed(mem, g.layout) && 0 < N <= 1024
    requires FoundAt(mem, g.layout.kernelPdt, i, o, N) && vaddr == i * 0x40_0000 + o * 0x1000
    ensures vaddr / 0x1000 == i * 1024 + o && o + N <= 1024 && Clear(mem, g.layout.kernelPdt, vaddr / 0x1000, N)
    ensures Mappable(mem, g, g.layout.kernelPdt, vaddr / 0x1000, N) <==>
      Present(mem[g.layout.kernelPdt][i]) || g.avail != {}
    ensures |Missing(mem, g.layout.kernelPdt, vaddr / 0x1000, N)| ==
      if Present(mem[g.layout.kernelPdt][i]) then 0 else 1
  {
    hide Clear, NoLarge, Missing;
    FoundPage(mem, g.layout, i, o, N, vaddr);
    if g.avail != {} {
      var f :| f in g.avail;
      assert |g.avail - {f}| == |g.avail| - 1;
    }
  }

  lemma PlaceMapped(mem0: Memory, g0: Ledger, mem: Memory, g: Ledger, vaddr: u32, mappedSize: u32, i: nat, o: nat,
                    size: u32, p: PageNo, m: Count, rw: bv8, pl: bv8)
    requires Sane(mem0, g0) && 0 < PageCount(size) <= 1024 && vaddr != 0
    requires FoundAt(mem0, g0.layout.kernelPdt, i, o, PageCount(size)) && vaddr == i * 0x40_0000 + o * 0x1000
    requires mappedSize == 0 || (mappedSize == AlignUp(size, 0x1000) && m == PageCount(size) && g.data == g0.data)
    requires mappedSize > 0 ==>
      |g.avail| == |g0.avail| - |Missing(mem0, g0.layout.kernelPdt, vaddr / 0x1000, PageCount(size))|
    requires mappedSize > 0 <==> Mappable(mem0, g0, g0.layout.kernelPdt, vaddr / 0x1000, PageCount(size))
    requires MapOutcome(mem0, g0, mem, g, g0.layout.kernelPdt, vaddr / 0x1000, p, m, rw, pl)
    requires mappedSize == 0 ==>
      m < PageCount(size) && Stopped(mem0, mem, g, g0.layout.kernelPdt, vaddr / 0x1000, m)
    ensures Placed(mem0, g0, mem, g, vaddr, mappedSize, i, o, size, p, rw, pl)
  {
    hide SameSharing, MappedTo, TablesOk, SharingOk, WindowOk, Leads, DirsOk, Keeps, Walk, EntryFits, Mappable, Missing,
         Clear, Stopped, FirstRun;
    PlaceMappable(mem0, g0, i, o, PageCount(size), vaddr);
    if mappedSize == 0 {
      StoppedAtOnce(mem0, mem, g, g0.layout, i, o, vaddr / 0x1000, PageCount(size), m);
    }
  }

  // A mapping that stops short in a range of clear pages inside one entry did not get to its first page.
  lemma StoppedAtOnce(mem0: Memory, mem: Memory, g: Ledger, L: Layout, i: nat, o: nat, v: PageNo, N: Count, m: Count)
    requires WellFormed(mem0, L) && i < 1024 && v == i * 1024 + o && o + N <= 1024 && m < N
    requires Clear(mem0, L.kernelPdt, v, N) && Stopped(mem0, mem, g, L.kernelPdt, v, m)
    requires forall k :: 0 <= k < m ==> Tabled(mem[L.kernelPdt][PageAt(v, k) / 1024])
    ensures m == 0 && Clear(mem0, L.kernelPdt, v, 1)
  {
    hide Walk;
    assert !Blocked(mem0, L.kernelPdt, PageAt(v, m));
    assert PageAt(v, m) / 1024 == i == PageAt(v, 0) / 1024;
  }

  // The kernel's part of the address space has a free page, and, if that page needs a new table, one of the
  // given number of frames is free for it.
  ghost predicate CanPlacePage(mem: Memory, k: nat, frames: int)
    requires k < PAGES
  {
    exists i: nat, o: nat :: FoundAt(mem, k, i, o, 1) && (Present(mem[k][i]) || frames > 0)
  }

  lemma SomeFrame(avail: set<nat>)
    ensures avail != {} <==> |avail| > 0
  {
  }

  // pdt_create after the mapping of the directory's page: a frame was taken from the free ones, or
  // none was free and frame 0 stands in.
  ghost predicate DirectoryMapped(mem0: Memory, g0: Ledger, mem1: Memory, g1: Ledger, pdt: u32, pdtPaddr: u32)
  {
    var d: PageNo := pdtPaddr / 0x1000;
    && Sane(mem0, g0) && pdt != 0 && pdtPaddr % 0x1000 == 0
    && (if pdtPaddr == 0 then g0.avail == {} else d in g0.avail)
    && MapOutcome(mem0, Taking(g0, d), mem1, g1, g0.layout.kernelPdt, pdt / 0x1000, d, 1, 1, 0)
    && g1.data == Taking(g0, d).data
    && PageTaken(mem0, Taking(g0, d), g1, pdt / 0x1000) && (pdtPaddr != 0 ==> forall f :: f in g0.avail ==> d <= f)
  }

  // Page v is the one the kernel's search settles on, and mapping it has taken a frame exactly if its table was
  // missing.
  ghost predicate PageTaken(mem0: Memory, g0: Ledger, g: Ledger, v: nat)
    requires WellFormed(mem0, g0.layout)
  {
    var k := g0.layout.kernelPdt;
    && v < PAGES && FoundAt(mem0, k, v / 1024, v % 1024, 1) && CanPlacePage(mem0, k, |g0.avail|)
    && |g.avail| == |g0.avail| - if Present(mem0[k][v / 1024]) then 0 else 1
  }

  // Frame d, if there is one, moves from the free frames to the data.
  function Taking(g: Ledger, d: nat): Ledger
  {
    if d == 0 then g else Ledger(g.layout, g.avail - {d}, g.data + {d})
  }

  // Placing a page for the kernel succeeds exactly when there is a page and a frame for its table.
  lemma PlacedExactly(mem0: Memory, g0: Ledger, mem1: Memory, g1: Ledger, kv: u32, mapped: u32, i: nat, o: nat,
                      size: u32, p: PageNo, rw: bv8, pl: bv8)
    requires WellFormed(mem0, g0.layout) && PageCount(size) == 1
    requires Placed(mem0, g0, mem1, g1, kv, mapped, i, o, size, p, rw, pl)
    ensures CanPlacePage(mem0, g0.layout.kernelPdt, |g0.avail|) <==> kv != 0 && mapped != 0
  {
    hide MapOutcome;
    var k := g0.layout.kernelPdt;
    SomeFrame(g0.avail);
    if CanPlacePage(mem0, k, |g0.avail|) {
      var i0: nat, o0: nat :| FoundAt(mem0, k, i0, o0, 1) && (Present(mem0[k][i0]) || |g0.avail| > 0);
      FoundFits(mem0, k, i0, o0, 1);
      if kv != 0 {
        FoundOnce(mem0, k, i, o, i0, o0, 1);
      }
    }
  }

  // The place the search reports decides whether pdt_create is defined, and why it failed.
  lemma CreateIsSafe(mem0: Memory, g0: Ledger, mem1: Memory, g1: Ledger, pdt: u32, size: u32, i: nat, o: nat,
                     pdtPaddr: u32)
    requires Sane(mem0, g0) && pdtPaddr % 0x1000 == 0
    requires if pdtPaddr == 0 then g0.avail == {} else pdtPaddr / 0x1000 in g0.avail
    requires forall f :: f in g0.avail ==> pdtPaddr / 0x1000 <= f
    requires Placed(mem0, Taking(g0, pdtPaddr / 0x1000), mem1, g1, pdt, size, i, o, 0x1000, pdtPaddr / 0x1000, 1, 0)
    ensures CanPlacePage(mem0, g0.layout.kernelPdt, |g0.avail|) <==> pdt != 0 && (size == 0 ==> pdtPaddr != 0)
    ensures size == 0 ==> mem1 == mem0 && g1 == Taking(g0, pdtPaddr / 0x1000)
    ensures size == 0 && pdt != 0 && pdtPaddr != 0 ==>
      g0.avail == {pdtPaddr / 0x1000} && !CanPlacePage(mem0, g0.layout.kernelPdt, 0)
    ensures size > 0 ==> size == 0x1000 && DirectoryMapped(mem0, g0, mem1, g1, pdt, pdtPaddr)
  {
    hide MapOutcome;
    var k := g0.layout.kernelPdt;
    assert PageCount(0x1000) == 1;
    SomeFrame(g0.avail);
    PlacedExactly(mem0, Taking(g0, pdtPaddr / 0x1000), mem1, g1, pdt, size, i, o, 0x1000, pdtPaddr / 0x1000, 1, 0);
    if size > 0 {
      PlacedParts(mem0, Taking(g0, pdtPaddr / 0x1000), mem1, g1, pdt, size, i, o, 0x1000, pdtPaddr / 0x1000, 1, 0);
      FoundInEntry(mem0, k, i, o, 1);
      PlaceSplits(i, o, pdt);
    }
    if CanPlacePage(mem0, k, |g0.avail|) {
      var i0: nat, o0: nat :| FoundAt(mem0, k, i0, o0, 1) && (Present(mem0[k][i0]) || |g0.avail| > 0);
      FoundFits(mem0, k, i0, o0, 1);
      if pdt != 0 {
        FoundOnce(mem0, k, i, o, i0, o0, 1);
      }
    }
  }

  datatype PdtResult = NewPdt(vaddr: u32, paddr: u32) | NoPdt | Undefined

  // The outcome of pdt_create: nothing, or the directory's frame mapped at a page that was clear, and
  // either a new empty directory in it or, without a frame, frame 0 in its place.
  ghost predicate CreateOutcome(mem0: Memory, g0: Ledger, mem: Memory, g: Ledger, r: PdtResult)
    requires WellFormed(mem0, g0.layout) && !r.Undefined?
  {
    match r
    case NoPdt => mem == mem0 && g == g0 && |g0.avail| == 1 && !CanPlacePage(mem0, g0.layout.kernelPdt, 0)
    case NewPdt(vaddr, paddr) =>
      var d: PageNo, v: PageNo, k := paddr / 0x1000, vaddr / 0x1000, g0.layout.kernelPdt;
      && Extends(mem0, g0, mem, g) && g.data == g0.data && vaddr != 0 && paddr % 0x1000 == 0
      && MappedTo(mem0, mem, g0.layout.dirs, k, v, d, 1, 1, 0) && Clear(mem0, k, v, 1)
      && Walk(mem, k, v) == Mapped(d, true, false)
      && PageTaken(mem0, Taking(g0, d), g, v) && OneEntry(mem0[k], mem[k], v / 1024)
      && if paddr == 0 then g0.avail == {} && g.layout.dirs == g0.layout.dirs
         else
           && d in g0.avail && (forall f :: f in g0.avail ==> d <= f)
           && g.layout.dirs == g0.layout.dirs + {d} && mem[d] == ZeroTable()
  }

  // The directory has changed at most in becoming present at index i.
  ghost predicate OneEntry(t0: Table, t: Table, i: nat)
  {
    i < 1024 && Present(t[i]) && forall j :: 0 <= j < 1024 && (j != i || Present(t0[j])) ==> t[j] == t0[j]
  }

  lemma MapsOneEntry(mem0: Memory, g0: Ledger, mem: Memory, g: Ledger, dir: nat, v: PageNo, p: PageNo, rw: bv8, pl: bv8)
    requires WellFormed(mem0, g0.layout) && dir in g0.layout.dirs
    requires MapOutcome(mem0, g0, mem, g, dir, v, p, 1, rw, pl)
    ensures dir < PAGES && OneEntry(mem0[dir], mem[dir], v / 1024)
  {
    assert PageAt(v, 0) == v;
    assert Tabled(mem[dir][PageAt(v, 0) / 1024]);
  }

  lemma NewDirectory(mem0: Memory, g0: Ledger, mem1: Memory, g1: Ledger, mem: Memory, g: Ledger, pdt: u32,
                     outPaddr: u32)
    requires DirectoryMapped(mem0, g0, mem1, g1, pdt, outPaddr) && outPaddr != 0
    requires
      var d: PageNo := outPaddr / 0x1000;
      mem == mem1[d := ZeroTable()] && g == Ledger(AddDir(g1.layout, d), g1.avail, g1.data - {d})
    ensures CreateOutcome(mem0, g0, mem, g, NewPdt(pdt, outPaddr))
  {
    hide Extends, MapOutcome, MappedTo, Clear, TablesOk, SharingOk, WindowOk, DirsOk, Leads, Walk;
    var d: PageNo, v: PageNo, k := outPaddr / 0x1000, pdt / 0x1000, g0.layout.kernelPdt;
    MapOutcomePages(mem0, Taking(g0, d), mem1, g1, k, v, d, 1, 1, 0);
    MapsOneEntry(mem0, Taking(g0, d), mem1, g1, k, v, d, 1, 0);
    PageBehind(mem0, mem1, g0.layout, v, d);
    KernelMapExtends(mem0, Taking(g0, d), mem1, g1, v, d, 1, 1, 0);
    DirectoryAdded(mem0, g0, mem1, g1, mem, g, d);
    MappedAlike(mem0, mem1, mem, g0.layout.dirs, k, v, d, 1, 1, 0);
  }

  // What a mapping says of its pages.
  lemma MapOutcomePages(mem0: Memory, g0: Ledger, mem: Memory, g: Ledger, dir: nat, v: PageNo, p: PageNo, m: Count,
                        rw: bv8, pl: bv8)
    requires WellFormed(mem0, g0.layout) && dir in g0.layout.dirs
    requires MapOutcome(mem0, g0, mem, g, dir, v, p, m, rw, pl)
    ensures MappedTo(mem0, mem, g0.layout.dirs, dir, v, p, m, rw, pl) && Clear(mem0, dir, v, m)
    ensures g.layout.dirs == g0.layout.dirs
  {
  }

  lemma MappedAlike(mem0: Memory, mem1: Memory, mem: Memory, dirs: set<nat>, dir: nat, v: PageNo, p: PageNo, m: Count,
                    rw: bv8, pl: bv8)
    requires InRange(dirs) && dir in dirs && MappedTo(mem0, mem1, dirs, dir, v, p, m, rw, pl)
    requires forall d, vp :: d in dirs && 0 <= vp < PAGES ==> Walk(mem, d, vp) == Walk(mem1, d, vp)
    ensures MappedTo(mem0, mem, dirs, dir, v, p, m, rw, pl)
  {
    hide Walk, AfterMap;
  }

  lemma NoDirectory(mem0: Memory, g0: Ledger, mem1: Memory, g1: Ledger, mem: Memory, pdt: u32)
    requires DirectoryMapped(mem0, g0, mem1, g1, pdt, 0) && mem == mem1[0 := ZeroTable()]
    ensures CreateOutcome(mem0, g0, mem, g1, NewPdt(pdt, 0))
  {
    var v: PageNo, k := pdt / 0x1000, g0.layout.kernelPdt;
    PageBehind(mem0, mem1, g0.layout, v, 0);
    MapsOneEntry(mem0, g0, mem1, g1, k, v, 0, 1, 0);
    KernelMapExtends(mem0, g0, mem1, g1, v, 0, 1, 1, 0);
    ClearedElsewhere(mem0, g0, mem1, g1, mem);
  }

  lemma BehindDirectory(mem0: Memory, g0: Ledger, mem1: Memory, g1: Ledger, pdt: u32, outPaddr: u32)
    requires DirectoryMapped(mem0, g0, mem1, g1, pdt, outPaddr)
    ensures Walk(mem1, g0.layout.kernelPdt, pdt / 0x1000) == Mapped(outPaddr / 0x1000, true, false)
    ensures outPaddr % 0x1000 == 0 && (outPaddr != 0 ==> outPaddr / 0x1000 in g1.data)
  {
    hide Leads, SameSharing, TablesOk, SharingOk, WindowOk, Walk, MappedTo, Clear;
    PageBehind(mem0, mem1, g0.layout, pdt / 0x1000, outPaddr / 0x1000);
  }

  lemma DirectoryMade(mem0: Memory, g0: Ledger, mem1: Memory, g1: Ledger, mem: Memory, g: Ledger, pdt: u32,
                      outPaddr: u32)
    requires DirectoryMapped(mem0, g0, mem1, g1, pdt, outPaddr)
    requires
      var d: PageNo := outPaddr / 0x1000;
      && mem == mem1[d := ZeroTable()]
      && g == if outPaddr == 0 then g1 else Ledger(AddDir(g1.layout, d), g1.avail, g1.data - {d})
    ensures CreateOutcome(mem0, g0, mem, g, NewPdt(pdt, outPaddr))
  {
    if outPaddr == 0 {
      NoDirectory(mem0, g0, mem1, g1, mem, pdt);
    } else {
      NewDirectory(mem0, g0, mem1, g1, mem, g, pdt, outPaddr);
    }
  }

  // Clearing frame 0, which holds neither a directory nor a table, is invisible.
  lemma ClearedElsewhere(mem0: Memory, g0: Ledger, mem1: Memory, g1: Ledger, mem: Memory)
    requires WellFormed(mem0, g0.layout) && Extends(mem0, g0, mem1, g1) && mem == mem1[0 := ZeroTable()]
    ensures Extends(mem0, g0, mem, g1)
    ensures forall d, vp :: d in g1.layout.dirs && 0 <= vp < PAGES ==> Walk(mem, d, vp) == Walk(mem1, d, vp)
  {
    RewriteOther(mem1, g1.layout, 0, ZeroTable());
    var keep := g0.layout.dirs - {g0.layout.kernelPdt, g0.layout.kernelPdt};
    LeadsBy(mem1, g1, WriteFrame(0, ZeroTable()), mem, g1, keep);
    LeadsTransitive(mem0, g0, mem1, g1, mem, g1, keep);
    assert Keeps(mem0, mem, g0.layout.dirs) && KernelOnly(mem0, g0.layout, mem);
  }

  // A frame taken from the free ones becomes an empty directory.
  lemma DirectoryAdded(mem0: Memory, g0: Ledger, mem1: Memory, g1: Ledger, mem: Memory, g: Ledger, d: nat)
    requires Sane(mem0, g0) && d in g0.avail && Extends(mem0, Taking(g0, d), mem1, g1)
    requires mem == mem1[d := ZeroTable()] && g == Ledger(AddDir(g1.layout, d), g1.avail, g1.data - {d})
    ensures Extends(mem0, g0, mem, g)
    ensures forall d', vp :: d' in g1.layout.dirs && 0 <= vp < PAGES ==> Walk(mem, d', vp) == Walk(mem1, d', vp)
  {
    assert d in g1.data;
    AddDirectory(mem1, g1.layout, d, mem);
    var keep := g0.layout.dirs - {g0.layout.kernelPdt, g0.layout.kernelPdt};
    LeadsBy(mem0, g0, TakeFrames({d}), mem0, Taking(g0, d), keep);
    LeadsBy(mem1, g1, NewDir(d), mem, g, keep);
    LeadsTransitive(mem0, g0, mem0, Taking(g0, d), mem1, g1, keep);
    LeadsTransitive(mem0, g0, mem1, g1, mem, g, keep);
    assert Keeps(mem0, mem, g0.layout.dirs) && KernelOnly(mem0, g0.layout, mem);
    assert g.Owned() == g0.Owned();
  }

  lemma PageBehind(mem0: Memory, mem1: Memory, L: Layout, v: PageNo, d: PageNo)
    requires WellFormed(mem0, L) && MappedTo(mem0, mem1, L.dirs, L.kernelPdt, v, d, 1, 1, 0)
    ensures Walk(mem1, L.kernelPdt, v) == Mapped(d, true, false)
  {
    assert Walk(mem1, L.kernelPdt, v) == AfterMap(mem0, L.kernelPdt, L.kernelPdt, v, d, 1, 1, 0, v);
    assert PageAt(d, 0) == d;
  }

  // Loading, with the kernel's part copied only below index n.
  function LoadedUpTo(t: Table, k: Table, n: nat): Table
  {
    seq(1024, i requires 0 <= i < 1024 => if i < n && Copied(k, i) then k[i] else t[i])
  }

  lemma CopyEntry(t: Table, k: Table, i: nat, same: bool)
    requires 768 <= i < 1024 && (same ==> t == k)
    ensures (if Present(k[i]) then LoadedUpTo(t, k, i)[i := k[i]] else LoadedUpTo(t, k, i)) == LoadedUpTo(t, k, i + 1)
    ensures same ==> LoadedUpTo(t, k, i) == k
  {
  }

  lemma RangeTranslated(mem0: Memory, mem: Memory, dirs: set<nat>, k: nat, v: PageNo, p: PageNo, N: Count, rw: bv8,
                        pl: bv8)
    requires InRange(dirs) && k in dirs && v + N <= PAGES
    requires MappedTo(mem0, mem, dirs, k, v, p, N, rw, pl) && Clear(mem0, k, v, N)
    ensures forall vp :: v <= vp < v + N ==>
      Walk(mem0, k, vp) == Unmapped && Walk(mem, k, vp) == FrameTranslation(PageAt(p, vp - v), rw, pl)
  {
    forall vp | v <= vp < v + N
      ensures Walk(mem0, k, vp) == Unmapped && Walk(mem, k, vp) == FrameTranslation(PageAt(p, vp - v), rw, pl)
    {
      assert PageAt(v, vp - v) == vp && Offset(vp, v) == vp - v;
      assert Walk(mem, k, vp) == AfterMap(mem0, k, k, v, p, N, rw, pl, vp);
    }
  }

  // A search and mapping for the kernel extends the paging state, and its pages, all in the kernel's
  // part of the address space, were unmapped and now are mapped to consecutive frames.
  lemma PlacedExtends(mem0: Memory, g0: Ledger, mem: Memory, g: Ledger, vaddr: u32, mappedSize: u32, i: nat, o: nat,
                      size: u32, p: PageNo, rw: bv8, pl: bv8)
    requires Sane(mem0, g0) && Placed(mem0, g0, mem, g, vaddr, mappedSize, i, o, size, p, rw, pl)
    ensures Extends(mem0, g0, mem, g)
    ensures mappedSize > 0 ==>
      var v: PageNo, k := vaddr / 0x1000, g0.layout.kernelPdt;
      && 0xC_0000 <= v && v + PageCount(size) <= PAGES
      && forall vp :: v <= vp < v + PageCount(size) ==>
           Walk(mem0, k, vp) == Unmapped && Walk(mem, k, vp) == FrameTranslation(PageAt(p, vp - v), rw, pl)
  {
    hide Extends, EntryFits, FirstRun, MappedTo, Clear, SameSharing, Leads, TablesOk, SharingOk, WindowOk, DirsOk, Walk;
    var k, v: PageNo, N: Count := g0.layout.kernelPdt, vaddr / 0x1000, PageCount(size);
    if mappedSize > 0 {
      KernelMapExtends(mem0, g0, mem, g, v, p, N, rw, pl);
      assert v >= i * 1024;
      RangeTranslated(mem0, mem, g0.layout.dirs, k, v, p, N, rw, pl);
    } else {
      ExtendsReflexive(mem0, g0);
    }
  }
}
