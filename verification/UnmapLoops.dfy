// The unmapping loop: which calls return, and what they leave.
module UnmapLoops {
  import opened Machine
  import opened PageTables
  import opened AddressSpace
  import opened MapSteps
  import opened Effects
  import opened Ledgers

  // Rounding up to the next directory entry passes the end of a page-aligned range inside one entry.
  lemma SkipAbsent(vaddr: u32, N: nat)
    requires vaddr % 0x1000 == 0 && vaddr % 0x40_0000 != 0 && vaddr / 0x1000 / 1024 < 1023
    requires vaddr / 0x1000 % 1024 + N <= 1024
    ensures AlignUp(vaddr, 0x40_0000) as int >= vaddr as int + N * 0x1000 && AlignUp(vaddr, 0x40_0000) > vaddr
  {
    var vp := vaddr / 0x1000;
    assert vp == vp / 1024 * 1024 + vp % 1024 && vaddr == vp * 0x1000;
    assert vaddr % 0x40_0000 == vp % 1024 * 0x1000;
  }

  lemma RangeEnd(vaddr: u32, N: nat)
    requires N * 0x1000 < 0x1_0000_0000
    ensures vaddr < Wrap(vaddr as int + N * 0x1000) <==> UnmapStarts(vaddr, N)
  {
  }

  lemma TableToRelease(mem: Memory, g: Ledger, pdt: nat, i: nat)
    requires Sane(mem, g) && pdt in g.layout.dirs && i < 1024 && Tabled(mem[pdt][i])
    ensures Frame(mem[pdt][i]) in g.layout.tables && Frame(mem[pdt][i]) !in g.avail && Frame(mem[pdt][i]) != pdt
    ensures i != 768 ==> Frame(mem[pdt][i]) != g.layout.kernelPt
  {
    assert DirEntryOk(g.layout, mem[pdt][i], i);
  }

  lemma UnmapDone(mem0: Memory, g0: Ledger, mem1: Memory, mem: Memory, g: Ledger, pdt: nat, vp: PageNo, N: Count)
    requires Sane(mem0, g0) && pdt in g0.layout.dirs && 0 < N && vp % 1024 + N <= 1024
    requires Tabled(mem0[pdt][vp / 1024]) && (vp / 1024 == 768 ==> vp % 1024 + N <= 1023)
    requires
      var t := Frame(mem0[pdt][vp / 1024]);
      && mem1 == mem0[t := ClearRange(mem0[t], vp % 1024, N)]
      && if N == 1024 && vp / 1024 != 768 then
           mem == Unlink(mem1, pdt, vp / 1024) && g == Ledger(RemoveTable(g0.layout, t), g0.avail + {t}, g0.data)
         else mem == mem1 && g == g0
    ensures Unmaps(mem0, g0, mem, g, pdt, vp, N)
    ensures Sane(mem, g) <==> !ReleasesShared(mem0, g0.layout, pdt, vp, N)
  {
    var i, t := vp / 1024, Frame(mem0[pdt][vp / 1024]);
    TableToRelease(mem0, g0, pdt, i);
    ClearThroughTable(mem0, g0.layout, pdt, i, t, vp % 1024, N, mem1);
    assert DirEntryOk(g0.layout, mem0[pdt][i], i);
    var keep := g0.layout.dirs - {pdt};
    if N == 1024 && i != 768 {
      FreeKeeps(PagingState(mem0, g0), pdt, i);
      if !UsedElsewhere(mem0, g0.layout.dirs, pdt, i) {
        ClearAndUnlink(mem0, g0.layout, pdt, i, t, mem1, mem);
        LeadsBy(mem0, g0, FreeTable(pdt, i), mem, g, keep);
      }
    } else {
      LeadsBy(mem0, g0, ClearSlots(pdt, i, vp % 1024, N), mem, g, keep);
    }
  }

  // The loop runs at all only if the end of the range does not wrap.
  ghost predicate UnmapStarts(vaddr: u32, N: nat)
  {
    N > 0 && vaddr as int + N * 0x1000 < 0x1_0000_0000
  }

  // The calls that return having unmapped exactly their range: those that do nothing because the end
  // wraps, and those inside one directory entry that is present, with the window avoided, or absent, off
  // the 4 MB boundary and not the last.
  ghost predicate UnmapReturns(mem: Memory, L: Layout, pdt: nat, vaddr: u32, N: nat)
    requires pdt < PAGES && InRange(L.dirs)
  {
    UnmapStarts(vaddr, N) ==>
      var vp := vaddr / 0x1000;
      && vp % 1024 + N <= 1024
      && if Present(mem[pdt][vp / 1024]) then
           Tabled(mem[pdt][vp / 1024]) && (vp / 1024 == 768 ==> vp % 1024 + N <= 1023)
         else vaddr % 0x1000 == 0 && vaddr % 0x40_0000 != 0 && vp / 1024 < 1023
  }

  // One iteration of such a call passes or reaches the end of the range.
  lemma NextReturns(mem: Memory, L: Layout, pdt: nat, vaddr: u32, N: nat)
    requires WellFormed(mem, L) && pdt in L.dirs && UnmapStarts(vaddr, N) && UnmapReturns(mem, L, pdt, vaddr, N)
    ensures !LargePage(mem[pdt][vaddr / 0x1000 / 1024])
    ensures
      var next := UnmapAdvance(mem, pdt, vaddr, N);
      if Present(mem[pdt][vaddr / 0x1000 / 1024]) then
        UnmapRun(vaddr / 0x1000, N) == N && next == vaddr as int + N * 0x1000
      else next >= vaddr as int + N * 0x1000 && next > vaddr
  {
    assert DirEntryOk(L, mem[pdt][vaddr / 0x1000 / 1024], vaddr / 0x1000 / 1024);
    if !Present(mem[pdt][vaddr / 0x1000 / 1024]) {
      SkipAbsent(vaddr, N);
    }
  }

  lemma EmptyClear(mem: Memory, w: nat, lo: nat)
    requires w < PAGES
    ensures mem[w := ClearRange(mem[w], lo, 0)] == mem
  {
    assert ClearRange(mem[w], lo, 0) == mem[w];
  }

  lemma ExtendClearRange(t: Table, lo: nat, k: nat)
    requires lo + k < 1024
    ensures (if Present(t[lo + k]) then ClearRange(t, lo, k)[lo + k := ZERO_ENTRY] else ClearRange(t, lo, k)) ==
      ClearRange(t, lo, k + 1)
  {
  }
}
