// Who holds which frame, and the outcomes of mapping and unmapping on memory and ledger together.
module Ledgers {
  import opened Machine
  import opened PageTables
  import opened AddressSpace
  import opened MapSteps
  import opened Effects

  // What holds after any call of the mapping loop, successful or not: m pages are mapped, they were
  // clear before, and every other translation, the window and the present entries are as before.
  ghost predicate MapOutcome(mem0: Memory, g0: Ledger, mem: Memory, g: Ledger, pdt: nat, v: PageNo, p: PageNo, m: Count,
                             rw: bv8, pl: bv8)
    requires WellFormed(mem0, g0.layout) && pdt in g0.layout.dirs
  {
    && Leads(mem0, g0, mem, g, g0.layout.dirs - {pdt})
    && Sane(mem, g) && g.Owned() == g0.Owned() && g.avail <= g0.avail && g0.data <= g.data
    && g.layout.dirs == g0.layout.dirs
    && g.layout.kernelPdt == g0.layout.kernelPdt && g.layout.kernelPt == g0.layout.kernelPt
    && mem[g0.layout.kernelPt][1023] == mem0[g0.layout.kernelPt][1023]
    && MappedTo(mem0, mem, g0.layout.dirs, pdt, v, p, m, rw, pl) && Clear(mem0, pdt, v, m)
    && SameSharing(mem0, mem, g0.layout.dirs)
    && (forall d :: d in g0.layout.dirs && d != pdt ==> mem[d] == mem0[d])
    && (forall j :: 0 <= j < 1024 && (Present(mem0[pdt][j]) || !Touches(v, m, j)) ==> mem[pdt][j] == mem0[pdt][j])
    && (m == 0 && Clear(mem0, pdt, v, 1) ==> mem == mem0 && g == g0)
    && (forall k :: 0 <= k < m ==> Tabled(mem[pdt][PageAt(v, k) / 1024]))
  }

  // The N pages from page vp on, in one table, are unmapped; nothing else changes, except that a table
  // emptied as a whole is unlinked and its frame is free again.
  ghost predicate UnmapOutcome(mem0: Memory, g0: Ledger, mem: Memory, g: Ledger, pdt: nat, vp: PageNo, N: Count)
    requires WellFormed(mem0, g0.layout) && pdt in g0.layout.dirs
  {
    var i := vp / 1024;
    && Leads(mem0, g0, mem, g, g0.layout.dirs - {pdt})
    && Sane(mem, g) && g.Owned() == g0.Owned()
    && g.layout.dirs == g0.layout.dirs
    && g.layout.kernelPdt == g0.layout.kernelPdt && g.layout.kernelPt == g0.layout.kernelPt
    && UnmapEffect(mem0, mem, g0.layout.dirs, pdt, i, vp % 1024, N)
    && mem[g0.layout.kernelPt][1023] == mem0[g0.layout.kernelPt][1023]
    && (forall d :: d in g0.layout.dirs && d != pdt ==> mem[d] == mem0[d])
    && (forall j :: 0 <= j < 1024 && j != i ==> mem[pdt][j] == mem0[pdt][j])
    && if N == 1024 && i != 768 then
         && mem[pdt][i] == ZERO_ENTRY
         && g == Ledger(RemoveTable(g0.layout, Frame(mem0[pdt][i])), g0.avail + {Frame(mem0[pdt][i])}, g0.data)
       else mem[pdt][i] == mem0[pdt][i] && g == g0
  }

  // The range is a whole table, outside the kernel's own entry, that another directory uses.
  ghost predicate ReleasesShared(mem: Memory, L: Layout, pdt: nat, vp: PageNo, N: Count)
    requires InRange(L.dirs) && pdt in L.dirs
  {
    N == 1024 && vp / 1024 != 768 && Tabled(mem[pdt][vp / 1024]) && UsedElsewhere(mem, L.dirs, pdt, vp / 1024)
  }

  // What unmapping the N pages from page vp on does, in one table that is there: a table that another
  // directory uses is freed all the same.
  ghost predicate Unmaps(mem0: Memory, g0: Ledger, mem: Memory, g: Ledger, pdt: nat, vp: PageNo, N: Count)
    requires WellFormed(mem0, g0.layout) && pdt in g0.layout.dirs
  {
    if ReleasesShared(mem0, g0.layout, pdt, vp, N) then
      PagingState(mem, g) == TableFreed(PagingState(mem0, g0), pdt, vp / 1024)
    else UnmapOutcome(mem0, g0, mem, g, pdt, vp, N)
  }

  ghost predicate TableTaken(g0: Ledger, g1: Ledger, t: nat, i: nat)
  {
    t in g0.avail && g1 == Ledger(AddTable(g0.layout, t, i), g0.avail - {t}, g0.data)
  }

  // A table allocated for an entry in which nothing could be mapped stays allocated.
  ghost predicate FrameLeaked(g0: Ledger, g1: Ledger)
  {
    exists t :: t in g0.avail && g1 == Ledger(g0.layout, g0.avail - {t}, g0.data + {t})
  }

  // A range can be mapped in full exactly when all its pages are clear and there is a free frame for
  // every missing table.
  ghost predicate Mappable(mem: Memory, g: Ledger, pdt: nat, v: PageNo, N: Count)
    requires pdt < PAGES
  {
    Clear(mem, pdt, v, N) && |Missing(mem, pdt, v, N)| <= |g.avail|
  }

  // Growth: free frames become directories, page tables or data, and translations are added. Every
  // present translation of every directory, and the window, stay as they are.
  ghost predicate Grows(mem0: Memory, g0: Ledger, mem: Memory, g: Ledger)
    requires WellFormed(mem0, g0.layout)
  {
    && Sane(mem, g) && g.Owned() == g0.Owned() && g0.data <= g.data && g.avail <= g0.avail
    && g0.layout.dirs <= g.layout.dirs
    && g.layout.kernelPdt == g0.layout.kernelPdt && g.layout.kernelPt == g0.layout.kernelPt
    && mem[g0.layout.kernelPt][1023] == mem0[g0.layout.kernelPt][1023]
    && Keeps(mem0, mem, g0.layout.dirs)
  }

  ghost predicate Keeps(mem0: Memory, mem: Memory, dirs: set<nat>)
    requires InRange(dirs)
  {
    forall d, vp :: d in dirs && 0 <= vp < PAGES && Walk(mem0, d, vp) != Unmapped ==>
      Walk(mem, d, vp) == Walk(mem0, d, vp)
  }

  // Growth by the kernel, for itself and for directory own: its effects work on no other directory that was
  // there, none of which changes in any entry, and no present entry of the kernel's directory changes.
  ghost predicate ExtendsFor(mem0: Memory, g0: Ledger, mem: Memory, g: Ledger, own: nat)
    requires WellFormed(mem0, g0.layout)
  {
    && Grows(mem0, g0, mem, g)
    && Leads(mem0, g0, mem, g, g0.layout.dirs - {g0.layout.kernelPdt, own})
    && (forall d :: d in g0.layout.dirs && d != g0.layout.kernelPdt && d != own ==> mem[d] == mem0[d])
    && forall j :: 0 <= j < 1024 && Present(mem0[g0.layout.kernelPdt][j]) ==>
         mem[g0.layout.kernelPdt][j] == mem0[g0.layout.kernelPdt][j]
  }

  // Growth by the kernel for itself alone: besides, only tables that are the kernel's change.
  ghost predicate Extends(mem0: Memory, g0: Ledger, mem: Memory, g: Ledger)
    requires WellFormed(mem0, g0.layout)
  {
    ExtendsFor(mem0, g0, mem, g, g0.layout.kernelPdt) && KernelOnly(mem0, g0.layout, mem)
  }

  // No directory comes to share a table with the kernel, and pages in tables it does not share with the
  // kernel translate as before.
  ghost predicate KernelOnly(mem0: Memory, L0: Layout, mem: Memory)
    requires WellFormed(mem0, L0)
  {
    var k := L0.kernelPdt;
    && (forall d, i :: d in L0.dirs && 0 <= i < 1024 && Sees(mem, d, k, i) ==> Sees(mem0, d, k, i))
    && (forall d, vp :: d in L0.dirs && 0 <= vp < PAGES && !Sees(mem0, d, k, vp / 1024) ==>
          Walk(mem, d, vp) == Walk(mem0, d, vp))
  }

  lemma ExtensionGrows(mem0: Memory, g0: Ledger, mem: Memory, g: Ledger, own: nat)
    requires WellFormed(mem0, g0.layout) && ExtendsFor(mem0, g0, mem, g, own)
    ensures Grows(mem0, g0, mem, g)
  {
  }

  lemma ExtendsGrows(mem0: Memory, g0: Ledger, mem: Memory, g: Ledger)
    requires WellFormed(mem0, g0.layout) && Extends(mem0, g0, mem, g)
    ensures Grows(mem0, g0, mem, g)
  {
  }

  lemma ExtendsReflexive(mem: Memory, g: Ledger)
    requires Sane(mem, g)
    ensures Extends(mem, g, mem, g)
  {
    ExtendsForReflexive(mem, g, g.layout.kernelPdt);
  }

  lemma ExtendsForReflexive(mem: Memory, g: Ledger, own: nat)
    requires Sane(mem, g)
    ensures ExtendsFor(mem, g, mem, g, own)
  {
    LeadsSelf(mem, g, g.layout.dirs - {g.layout.kernelPdt, own});
  }

  lemma ExtendsWidens(mem0: Memory, g0: Ledger, mem: Memory, g: Ledger, own: nat)
    requires WellFormed(mem0, g0.layout) && Extends(mem0, g0, mem, g)
    ensures ExtendsFor(mem0, g0, mem, g, own)
  {
    var k := g0.layout.kernelPdt;
    LeadsLess(mem0, g0, mem, g, g0.layout.dirs - {k, k}, g0.layout.dirs - {k, own});
  }

  // A directory that was not there at the start makes no difference.
  lemma ExtendsForNew(mem0: Memory, g0: Ledger, mem: Memory, g: Ledger, own: nat)
    requires WellFormed(mem0, g0.layout) && own !in g0.layout.dirs
    ensures ExtendsFor(mem0, g0, mem, g, own) <==> ExtendsFor(mem0, g0, mem, g, g0.layout.kernelPdt)
  {
    hide Leads, Grows;
    var k := g0.layout.kernelPdt;
    assert g0.layout.dirs - {k, own} == g0.layout.dirs - {k, k};
  }

  lemma GrowsTransitive(mem0: Memory, g0: Ledger, mem1: Memory, g1: Ledger, mem2: Memory, g2: Ledger)
    requires WellFormed(mem0, g0.layout) && Grows(mem0, g0, mem1, g1) && Grows(mem1, g1, mem2, g2)
    ensures Grows(mem0, g0, mem2, g2)
  {
  }

  lemma ExtendsForTransitive(mem0: Memory, g0: Ledger, mem1: Memory, g1: Ledger, mem2: Memory, g2: Ledger, own: nat)
    requires WellFormed(mem0, g0.layout) && ExtendsFor(mem0, g0, mem1, g1, own)
    requires ExtendsFor(mem1, g1, mem2, g2, own) || Extends(mem1, g1, mem2, g2)
    ensures ExtendsFor(mem0, g0, mem2, g2, own)
  {
    hide Leads, WellFormed;
    var k := g0.layout.kernelPdt;
    var keep, later := g0.layout.dirs - {k, own}, if ExtendsFor(mem1, g1, mem2, g2, own) then own else k;
    assert ExtendsFor(mem1, g1, mem2, g2, later);
    GrowsTransitive(mem0, g0, mem1, g1, mem2, g2);
    LeadsLess(mem1, g1, mem2, g2, g1.layout.dirs - {k, later}, keep);
    LeadsTransitive(mem0, g0, mem1, g1, mem2, g2, keep);
  }

  lemma ExtendsTransitive(mem0: Memory, g0: Ledger, mem1: Memory, g1: Ledger, mem2: Memory, g2: Ledger)
    requires WellFormed(mem0, g0.layout) && Extends(mem0, g0, mem1, g1) && Extends(mem1, g1, mem2, g2)
    ensures Extends(mem0, g0, mem2, g2)
  {
    assert KernelOnly(mem0, g0.layout, mem2);
    ExtendsForTransitive(mem0, g0, mem1, g1, mem2, g2, g0.layout.kernelPdt);
  }

  lemma ExtendsTaken(mem: Memory, g0: Ledger, g: Ledger, run: set<nat>)
    requires Sane(mem, g0) && run <= g0.avail && g == Ledger(g0.layout, g0.avail - run, g0.data + run)
    ensures Extends(mem, g0, mem, g)
  {
    LeadsBy(mem, g0, TakeFrames(run), mem, g, g0.layout.dirs - {g0.layout.kernelPdt, g0.layout.kernelPdt});
  }

  // Mapping in any directory is growth.
  lemma MapGrows(mem0: Memory, g0: Ledger, mem: Memory, g: Ledger, dir: nat, v: PageNo, p: PageNo, m: Count, rw: bv8,
                 pl: bv8)
    requires WellFormed(mem0, g0.layout) && dir in g0.layout.dirs
    requires MapOutcome(mem0, g0, mem, g, dir, v, p, m, rw, pl)
    ensures ExtendsFor(mem0, g0, mem, g, dir)
  {
    LeadsLess(mem0, g0, mem, g, g0.layout.dirs - {dir}, g0.layout.dirs - {g0.layout.kernelPdt, dir});
    forall d, vp | d in g0.layout.dirs && 0 <= vp < PAGES && Walk(mem0, d, vp) != Unmapped
      ensures Walk(mem, d, vp) == Walk(mem0, d, vp)
    {
      assert DirEntryOk(g0.layout, mem0[d][vp / 1024], vp / 1024)
        && DirEntryOk(g0.layout, mem0[dir][vp / 1024], vp / 1024);
      MapKeepsTranslations(mem0, mem, g0.layout.dirs, dir, v, p, m, rw, pl, d, vp);
    }
  }

  lemma KernelMapExtends(mem0: Memory, g0: Ledger, mem: Memory, g: Ledger, v: PageNo, p: PageNo, m: Count, rw: bv8,
                         pl: bv8)
    requires WellFormed(mem0, g0.layout)
    requires MapOutcome(mem0, g0, mem, g, g0.layout.kernelPdt, v, p, m, rw, pl)
    ensures Extends(mem0, g0, mem, g)
  {
    MapGrows(mem0, g0, mem, g, g0.layout.kernelPdt, v, p, m, rw, pl);
    assert KernelOnly(mem0, g0.layout, mem);
  }
}
