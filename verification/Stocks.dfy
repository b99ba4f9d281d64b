// What a process is made from: free frames, unused kernel pages, and the kernel's page tables that are there.
module Stocks {
  import opened Machine
  import opened PageTables
  import opened AddressSpace
  import opened MapSteps
  import opened Effects
  import opened Ledgers
  import opened Placement
  import opened Spaces

  // Numbers of free frames, spare kernel pages, and the indices of the kernel's part with a table.
  datatype Stock = Stock(frames: nat, spare: set<nat>, tabled: set<nat>)

  ghost function StockOf(mem: Memory, g: Ledger): (s: Stock)
    requires g.layout.kernelPdt < PAGES
    ensures forall v :: v in s.spare ==> v < PAGES
  {
    var k := g.layout.kernelPdt;
    Stock(|g.avail|, SparePages(mem, k), set i: nat | 768 <= i < 1024 && Present(mem[k][i]))
  }

  // The page that the kernel uses next.
  ghost predicate NextPage(s: Stock, v: nat)
  {
    v in s.spare && forall w :: w in s.spare ==> v <= w
  }

  function TableFor(s: Stock, v: nat): nat
  {
    if v / 1024 in s.tabled then 0 else 1
  }

  // One frame less, if there is one.
  function Less(s: Stock): Stock
  {
    s.(frames := if s.frames > 0 then s.frames - 1 else 0)
  }

  // Page v has been mapped.
  function Placing(s: Stock, v: nat): Stock
  {
    Stock(if s.frames > TableFor(s, v) then s.frames - TableFor(s, v) else 0, s.spare - {v}, s.tabled + {v / 1024})
  }

  ghost predicate CanPlace(s: Stock)
  {
    exists v :: NextPage(s, v) && TableFor(s, v) <= s.frames
  }

  // A spare page is a usable slot of its entry.
  lemma SpareSlot(mem: Memory, L: Layout, w: nat)
    requires WellFormed(mem, L) && w in SparePages(mem, L.kernelPdt)
    ensures 768 <= w / 1024 < 1024
    ensures Present(mem[L.kernelPdt][w / 1024]) ==>
      RunFree(mem[Frame(mem[L.kernelPdt][w / 1024])], w / 1024, w % 1024, 1)
    ensures EntryFits(mem, L.kernelPdt, w / 1024, 1)
  {
    var k := L.kernelPdt;
    var i, j := w / 1024, w % 1024;
    assert w == i * 1024 + j;
    assert DirEntryOk(L, mem[k][i], i);
    if Present(mem[k][i]) {
      SlotIsPage(mem, L, k, i, j);
      assert RunFree(mem[Frame(mem[k][i])], i, j, 1);
    }
  }

  // The search for one page settles on the lowest spare page.
  lemma FoundIsNext(mem: Memory, L: Layout, i: nat, o: nat)
    requires WellFormed(mem, L) && FoundAt(mem, L.kernelPdt, i, o, 1)
    ensures var v := i * 1024 + o;
      v in SparePages(mem, L.kernelPdt) && forall w :: w in SparePages(mem, L.kernelPdt) ==> v <= w
  {
    var k := L.kernelPdt;
    FoundInEntry(mem, k, i, o, 1);
    var v: PageNo := i * 1024 + o;
    FoundIsClear(mem, L, i, o, 1, v);
    assert PageAt(v, 0) == v;
    forall w | w in SparePages(mem, k)
      ensures v <= w
    {
      SpareSlot(mem, L, w);
      assert w == w / 1024 * 1024 + w % 1024;
    }
  }

  lemma NextIsFound(mem: Memory, L: Layout, v: nat)
    requires WellFormed(mem, L) && v in SparePages(mem, L.kernelPdt)
    requires forall w :: w in SparePages(mem, L.kernelPdt) ==> v <= w
    ensures FoundAt(mem, L.kernelPdt, v / 1024, v % 1024, 1)
  {
    var k := L.kernelPdt;
    SpareSlot(mem, L, v);
    var i, o := LeastEntry(mem, k, v / 1024, 1);
    FoundIsNext(mem, L, i, o);
    FoundInEntry(mem, k, i, o, 1);
    assert v == i * 1024 + o;
  }

  lemma CanPlaceHere(mem: Memory, g: Ledger)
    requires WellFormed(mem, g.layout)
    ensures CanPlacePage(mem, g.layout.kernelPdt, |g.avail|) <==> CanPlace(StockOf(mem, g))
  {
    var k, s := g.layout.kernelPdt, StockOf(mem, g);
    if i: nat, o: nat :| FoundAt(mem, k, i, o, 1) && (Present(mem[k][i]) || |g.avail| > 0) {
      FoundIsNext(mem, g.layout, i, o);
      FoundInEntry(mem, k, i, o, 1);
      assert NextPage(s, i * 1024 + o);
    }
    if v :| NextPage(s, v) && TableFor(s, v) <= s.frames {
      NextIsFound(mem, g.layout, v);
      assert v / 1024 < 1024;
    }
  }

  // The last frame has just been taken for something else.
  lemma CannotPlaceLess(mem: Memory, g: Ledger)
    requires WellFormed(mem, g.layout) && |g.avail| == 1 && !CanPlacePage(mem, g.layout.kernelPdt, 0)
    ensures !CanPlace(Less(StockOf(mem, g)))
  {
    CanPlaceHere(mem, g.(avail := {}));
    assert StockOf(mem, g.(avail := {})) == Less(StockOf(mem, g));
  }

  // Mapping the page that the search settled on.
  lemma StockPlaced(mem0: Memory, g0: Ledger, mem: Memory, g: Ledger, v: PageNo, p: PageNo, rw: bv8, pl: bv8)
    requires WellFormed(mem0, g0.layout) && FoundAt(mem0, g0.layout.kernelPdt, v / 1024, v % 1024, 1)
    requires MappedTo(mem0, mem, g0.layout.dirs, g0.layout.kernelPdt, v, p, 1, rw, pl)
    requires g.layout.kernelPdt == g0.layout.kernelPdt
      && OneEntry(mem0[g0.layout.kernelPdt], mem[g0.layout.kernelPdt], v / 1024)
    requires |g.avail| == |g0.avail| - if Present(mem0[g0.layout.kernelPdt][v / 1024]) then 0 else 1
    ensures NextPage(StockOf(mem0, g0), v) && TableFor(StockOf(mem0, g0), v) <= |g0.avail|
    ensures StockOf(mem, g) == Placing(StockOf(mem0, g0), v)
  {
    hide MappedTo, FoundAt, SharingOk, WindowOk, TablesOk, DirsOk;
    var k := g0.layout.kernelPdt;
    FoundIsNext(mem0, g0.layout, v / 1024, v % 1024);
    assert v == v / 1024 * 1024 + v % 1024;
    SpareLess(mem0, mem, g0.layout.dirs, k, v, p, rw, pl);
    TabledMore(mem0[k], mem[k], v / 1024);
  }

  // A page that the search settled on and that was mapped.
  lemma PageMapped(mem0: Memory, g0: Ledger, mem: Memory, g: Ledger, kv: u32, mapped: u32, i: nat, o: nat, size: u32,
                   p: PageNo, rw: bv8, pl: bv8)
    requires WellFormed(mem0, g0.layout) && PageCount(size) == 1 && mapped > 0
    requires Placed(mem0, g0, mem, g, kv, mapped, i, o, size, p, rw, pl)
    ensures g.layout.kernelPdt == g0.layout.kernelPdt
    ensures NextPage(StockOf(mem0, g0), kv / 0x1000) && TableFor(StockOf(mem0, g0), kv / 0x1000) <= |g0.avail|
    ensures StockOf(mem, g) == Placing(StockOf(mem0, g0), kv / 0x1000)
  {
    hide MappedTo, Leads, TablesOk, SharingOk, WindowOk, DirsOk, SparePages, Clear, EntryFits, OneEntry, FoundAt;
    var v: PageNo := kv / 0x1000;
    PlacedParts(mem0, g0, mem, g, kv, mapped, i, o, size, p, rw, pl);
    FoundInEntry(mem0, g0.layout.kernelPdt, i, o, 1);
    PlaceSplits(i, o, kv);
    MapsOneEntry(mem0, g0, mem, g, g0.layout.kernelPdt, v, p, rw, pl);
    StockPlaced(mem0, g0, mem, g, v, p, rw, pl);
  }

  lemma TabledMore(t0: Table, t: Table, i: nat)
    requires OneEntry(t0, t, i) && 768 <= i
    ensures (set j: nat | 768 <= j < 1024 && Present(t[j])) == (set j: nat | 768 <= j < 1024 && Present(t0[j])) + {i}
  {
  }

  lemma SpareLess(mem0: Memory, mem: Memory, dirs: set<nat>, k: nat, v: PageNo, p: PageNo, rw: bv8, pl: bv8)
    requires InRange(dirs) && k in dirs && MappedTo(mem0, mem, dirs, k, v, p, 1, rw, pl)
      && OneEntry(mem0[k], mem[k], v / 1024)
    ensures SparePages(mem, k) == SparePages(mem0, k) - {v}
  {
    forall vp | 0 <= vp < PAGES
      ensures vp in SparePages(mem, k) <==> vp in SparePages(mem0, k) && vp != v
    {
      assert Walk(mem, k, vp) == AfterMap(mem0, k, k, v, p, 1, rw, pl, vp);
      assert Offset(vp, v) == 0 <==> vp == v;
    }
  }

  const LAST_PAGE: nat := 0xF_FFFF

  // Enough for a process: the two lowest spare kernel pages, of which the second is not the last page of the
  // address space, and six frames besides those for the tables these pages miss.
  ghost predicate Supplied(s: Stock)
  {
    exists v, w ::
      && NextPage(s, v) && NextPage(Placing(s, v), w) && w != 0xF_FFFF
      && s.frames >= 6 + TableFor(s, v) + TableFor(Placing(s, v), w)
  }

  // The steps of process_create: a directory with its page; a frame for the code, whose page is mapped and
  // unmapped again unless it is the last one, and a table for it in the process; a frame and a table for the
  // stack.
  ghost predicate DirectoryTaken(s: Stock, t: Stock)
  {
    s.frames > 0 && exists v :: NextPage(s, v) && TableFor(s, v) < s.frames && t == Placing(Less(s), v)
  }

  lemma CreationTakes(mem0: Memory, g0: Ledger, mem: Memory, g: Ledger, r: PdtResult)
    requires WellFormed(mem0, g0.layout) && r.NewPdt? && r.paddr != 0 && CreateOutcome(mem0, g0, mem, g, r)
    ensures g.layout.kernelPdt == g0.layout.kernelPdt && DirectoryTaken(StockOf(mem0, g0), StockOf(mem, g))
  {
    hide MappedTo, Clear, OneEntry, SharingOk, WindowOk, TablesOk, DirsOk, Leads, Walk, FoundAt, CanPlacePage,
         SparePages, KernelOnly;
    var d, v := r.paddr / 0x1000, r.vaddr / 0x1000;
    StockPlaced(mem0, Taking(g0, d), mem, g, v, d, 1, 0);
    assert StockOf(mem0, Taking(g0, d)) == Less(StockOf(mem0, g0));
  }

  ghost predicate PageTouched(s: Stock, t: Stock)
  {
    exists v ::
      && NextPage(s, v) && TableFor(s, v) <= s.frames
      && t == if v == LAST_PAGE then Placing(s, v) else Placing(s, v).(spare := s.spare)
  }

  ghost predicate CodeTaken(s: Stock, t: Stock)
  {
    exists u :: PageTouched(Less(s), u) && t == Less(u)
  }

  function StackTaken(s: Stock): Stock
  {
    Less(Less(s))
  }

  // The stock after the directory and the code.
  ghost predicate UpToCode(s: Stock, t: Stock)
  {
    exists s1 :: DirectoryTaken(s, s1) && CodeTaken(s1, t)
  }

  // A frame and a kernel page to map it at can be had: for the directory, and for the kernel's stack.
  ghost predicate FrameAndPage(s: Stock)
  {
    s.frames > 0 && CanPlace(Less(s))
  }

  ghost predicate RoomForStacks(s: Stock)
  {
    s.frames >= 2 && FrameAndPage(StackTaken(s))
  }

  lemma RoomFirst(s: Stock)
    ensures FrameAndPage(s) ==> CanPlace(s)
  {
    if v :| s.frames > 0 && NextPage(Less(s), v) && TableFor(Less(s), v) <= Less(s).frames {
      assert NextPage(s, v);
    }
  }

  lemma TakenHadRoom(s: Stock, t: Stock)
    requires DirectoryTaken(s, t)
    ensures FrameAndPage(s)
  {
    var v :| NextPage(s, v) && TableFor(s, v) < s.frames && t == Placing(Less(s), v);
    assert NextPage(Less(s), v);
  }

  lemma SuppliedFirst(s: Stock)
    requires Supplied(s)
    ensures FrameAndPage(s)
  {
    var v, w :| NextPage(s, v) && NextPage(Placing(s, v), w) && w != 0xF_FFFF
      && s.frames >= 6 + TableFor(s, v) + TableFor(Placing(s, v), w);
    assert NextPage(Less(s), v);
  }

  lemma SuppliedNext(s: Stock, s1: Stock)
    requires Supplied(s) && DirectoryTaken(s, s1)
    ensures CanPlace(Less(s1))
  {
    var v, w :| NextPage(s, v) && NextPage(Placing(s, v), w) && w != 0xF_FFFF
      && s.frames >= 6 + TableFor(s, v) + TableFor(Placing(s, v), w);
    assert NextPage(Less(s1), w);
  }

  // Once the directory and the code are there, the stacks can be had exactly if the stock sufficed from the start.
  lemma SuppliedExactly(s: Stock, t: Stock)
    requires UpToCode(s, t) && forall v :: v in s.spare ==> v < PAGES
    ensures Supplied(s) <==> RoomForStacks(t)
  {
    var s1 :| DirectoryTaken(s, s1) && CodeTaken(s1, t);
    if Supplied(s) {
      StacksAfter(s, s1, t);
    }
    if RoomForStacks(t) {
      StacksBefore(s, s1, t);
    }
  }

  lemma StacksBefore(s: Stock, s1: Stock, t: Stock)
    requires (forall v :: v in s.spare ==> v < PAGES) && DirectoryTaken(s, s1) && CodeTaken(s1, t) && RoomForStacks(t)
    ensures Supplied(s)
  {
    var v :| NextPage(s, v) && TableFor(s, v) < s.frames && s1 == Placing(Less(s), v);
    var u :| PageTouched(Less(s1), u) && t == Less(u);
    var w: nat :| NextPage(Less(s1), w) && TableFor(Less(s1), w) <= Less(s1).frames
      && u == if w == LAST_PAGE then Placing(Less(s1), w) else Placing(Less(s1), w).(spare := s1.spare);
    var x: nat :| NextPage(Less(StackTaken(t)), x);
    assert x in s1.spare;
    assert w <= x;
    assert NextPage(Placing(s, v), w);
  }

  lemma StacksAfter(s: Stock, s1: Stock, t: Stock)
    requires Supplied(s) && DirectoryTaken(s, s1) && CodeTaken(s1, t)
    ensures RoomForStacks(t)
  {
    var v, w :| NextPage(s, v) && NextPage(Placing(s, v), w) && w != 0xF_FFFF
      && s.frames >= 6 + TableFor(s, v) + TableFor(Placing(s, v), w);
    assert NextPage(Less(s), v);
    assert NextPage(Less(s1), w);
    assert NextPage(Less(StackTaken(t)), w);
  }

  lemma {:induction false} Lowest(pages: set<nat>, v: nat) returns (least: nat)
    requires v in pages
    ensures least in pages && forall w :: w in pages ==> least <= w
    decreases v
  {
    if w :| w in pages && w < v {
      least := Lowest(pages, w);
    } else {
      least := v;
    }
  }

  // Eight free frames and three spare pages are always enough.
  lemma EnoughForAProcess(s: Stock)
    requires s.frames >= 8 && |s.spare| >= 3 && forall v :: v in s.spare ==> v < PAGES
    ensures Supplied(s)
  {
    var a :| a in s.spare;
    var v := Lowest(s.spare, a);
    assert |s.spare - {v}| >= 2;
    var b :| b in s.spare - {v};
    var w := Lowest(s.spare - {v}, b);
    assert |s.spare - {v} - {w}| >= 1;
    var c :| c in s.spare - {v} - {w};
    assert NextPage(s, v) && NextPage(Placing(s, v), w);
  }
}
