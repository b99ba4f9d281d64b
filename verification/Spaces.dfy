// The address space of a new process, and what the kernel needs to have left to create one.
module Spaces {
  import opened Machine
  import opened PageTables
  import opened AddressSpace
  import opened MapSteps
  import opened Effects
  import opened Ledgers
  import opened Placement
  import opened FreeList

  // Directory d, not the kernel's, shares no table with it and translates exactly the given pages, to
  // writable frames open to user mode. It has no entries but theirs.
  ghost predicate SpaceIs(mem: Memory, L: Layout, d: nat, pages: map<nat, nat>)
    requires WellFormed(mem, L)
  {
    && d in L.dirs && d != L.kernelPdt
    && (forall i :: 0 <= i < 1024 ==> !Sees(mem, d, L.kernelPdt, i))
    && (forall i :: 0 <= i < 1024 && Present(mem[d][i]) ==> exists vp :: vp in pages && vp / 1024 == i)
    && forall vp :: 0 <= vp < PAGES ==>
       Walk(mem, d, vp) == if vp in pages then Mapped(pages[vp], true, true) else Unmapped
  }

  lemma SpaceEmpty(mem0: Memory, g0: Ledger, mem: Memory, g: Ledger, r: PdtResult)
    requires Sane(mem0, g0) && r.NewPdt? && r.paddr != 0 && CreateOutcome(mem0, g0, mem, g, r)
    ensures SpaceIs(mem, g.layout, r.paddr / 0x1000, map[])
  {
    hide Leads, SharingOk, WindowOk, MappedTo, Clear, PageTaken, OneEntry, KernelOnly, CanPlacePage;
    var d := r.paddr / 0x1000;
    assert g0.layout.kernelPdt != d;
    assert forall i :: 0 <= i < 1024 ==> mem[d][i] == ZERO_ENTRY;
  }

  lemma SpaceKept(mem0: Memory, g0: Ledger, mem: Memory, g: Ledger, d: nat, pages: map<nat, nat>)
    requires WellFormed(mem0, g0.layout) && SpaceIs(mem0, g0.layout, d, pages) && Extends(mem0, g0, mem, g)
    ensures SpaceIs(mem, g.layout, d, pages)
  {
  }

  // Mapping one page for user mode.
  lemma SpaceMapped(mem0: Memory, g0: Ledger, mem: Memory, g: Ledger, d: nat, pages: map<nat, nat>, v: PageNo,
                    p: PageNo)
    requires WellFormed(mem0, g0.layout) && SpaceIs(mem0, g0.layout, d, pages)
    requires MapOutcome(mem0, g0, mem, g, d, v, p, 1, 1, 1)
    ensures SpaceIs(mem, g.layout, d, pages[v := p])
  {
    assert PageAt(p, 0) == p;
    forall vp | 0 <= vp < PAGES
      ensures Walk(mem, d, vp) == if vp in pages[v := p] then Mapped(pages[v := p][vp], true, true) else Unmapped
    {
      assert Walk(mem, d, vp) == AfterMap(mem0, d, d, v, p, 1, 1, 1, vp);
      assert Offset(vp, v) == 0 <==> vp == v;
    }
    assert SameSharing(mem0, mem, g0.layout.dirs);
    forall i | 0 <= i < 1024 && Present(mem[d][i])
      ensures exists vp :: vp in pages[v := p] && vp / 1024 == i
    {
      EntryUsed(mem0, g0, mem, g, d, pages, v, p, i);
    }
  }

  lemma EntryUsed(mem0: Memory, g0: Ledger, mem: Memory, g: Ledger, d: nat, pages: map<nat, nat>, v: PageNo, p: PageNo,
                  i: nat)
    requires WellFormed(mem0, g0.layout) && SpaceIs(mem0, g0.layout, d, pages)
    requires MapOutcome(mem0, g0, mem, g, d, v, p, 1, 1, 1) && i < 1024 && Present(mem[d][i])
    ensures exists vp :: vp in pages[v := p] && vp / 1024 == i
  {
    hide Walk, Leads, MappedTo, Sees, SameSharing;
    if Present(mem0[d][i]) {
      var vp :| vp in pages && vp / 1024 == i;
      assert vp in pages[v := p];
    } else {
      assert Touches(v, 1, i);
      assert PageAt(v, 0) == v;
      assert v in pages[v := p];
    }
  }

  // None of the pages is in the same directory entry as page v.
  ghost predicate NoneBeside(pages: map<nat, nat>, v: nat)
  {
    forall vp :: vp in pages ==> vp / 1024 != v / 1024
  }

  // A page of an entry that is not used can be mapped if a frame is free for its table.
  lemma SpaceHasRoom(mem: Memory, g: Ledger, d: nat, pages: map<nat, nat>, v: PageNo)
    requires Sane(mem, g) && SpaceIs(mem, g.layout, d, pages) && NoneBeside(pages, v) && v != WINDOW_PAGE
    ensures d in g.layout.dirs && Clear(mem, d, v, 1) && NoLarge(mem, d, v, 1)
    ensures |Missing(mem, d, v, 1)| == 1
  {
    assert PageAt(v, 0) == v;
    assert DirEntryOk(g.layout, mem[d][v / 1024], v / 1024);
    assert v !in pages;
    assert Walk(mem, d, v) == Unmapped;
    OneTouched(mem, d, v);
  }

  lemma OneTouched(mem: Memory, d: nat, v: PageNo)
    requires d < PAGES && !Present(mem[d][v / 1024])
    ensures |Missing(mem, d, v, 1)| == 1
  {
    assert PageAt(v, 0) == v;
    assert Missing(mem, d, v, 1) == {v / 1024};
  }

  // Kernel pages that nothing uses, other than the window.
  ghost function SparePages(mem: Memory, k: nat): set<nat>
    requires k < PAGES
  {
    set vp: nat | 0xC_0000 <= vp < PAGES && vp != WINDOW_PAGE && Walk(mem, k, vp) == Unmapped
  }

  // Changes that keep the kernel's translations keep its spare pages.
  lemma SpareKept(mem0: Memory, mem: Memory, k: nat)
    requires k < PAGES && forall vp :: 0 <= vp < PAGES ==> Walk(mem, k, vp) == Walk(mem0, k, vp)
    ensures SparePages(mem, k) == SparePages(mem0, k)
  {
  }

  lemma {:induction false} LeastRun(t: Table, i: nat, o: nat, N: nat) returns (least: nat)
    requires RunFree(t, i, o, N)
    ensures FirstRun(t, i, least, N)
    decreases o
  {
    if x: nat :| x < o && RunFree(t, i, x, N) {
      least := LeastRun(t, i, x, N);
    } else {
      least := o;
    }
  }

  lemma {:induction false} LeastEntry(mem: Memory, k: nat, i: nat, N: nat) returns (least: nat, o: nat)
    requires k < PAGES && 768 <= i < 1024 && EntryFits(mem, k, i, N)
    ensures FoundAt(mem, k, least, o, N)
    decreases i
  {
    if j :| 768 <= j < i && EntryFits(mem, k, j, N) {
      least, o := LeastEntry(mem, k, j, N);
    } else {
      least, o := i, 0;
      if Present(mem[k][i]) {
        var x: nat :| RunFree(mem[Frame(mem[k][i])], i, x, N);
        o := LeastRun(mem[Frame(mem[k][i])], i, x, N);
      }
    }
  }

  // A free block of at least n units.
  ghost predicate HasBlock(fs: seq<Block>, n: nat)
  {
    exists i :: 0 <= i < |fs| && fs[i].size >= n
  }

  lemma TakeLeaves(fs: seq<Block>, j: nat, n: nat, rest: nat)
    requires j < |fs| && 0 < n <= fs[j].size && 0 < rest && HasBlock(fs, n + rest)
    ensures HasBlock(Take(fs, j, n), rest)
  {
    var i :| 0 <= i < |fs| && fs[i].size >= n + rest;
    var t := Take(fs, j, n);
    if i < j || |t| == |fs| {
      assert t[i].size >= rest;
    } else {
      assert i != j && t[i - 1] == fs[i];
    }
  }
}
