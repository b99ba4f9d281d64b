// What mapping and unmapping runs of pages mean for the translations of every directory, and how
// the steps of the kernel's loops compose to that meaning.
module MapSteps {
  import opened Machine
  import opened PageTables
  import opened AddressSpace

  // The distance of page vp from page v, going up and wrapping at 4 GB.
  function Offset(vp: PageNo, v: PageNo): (k: nat)
    ensures k < PAGES && PageAt(v, k) == vp
  {
    if v <= vp then vp - v else vp + 0x10_0000 - v
  }

  // The translation of page vp in directory d after the m pages from v on were mapped, in directory
  // dir, to the m frames from p on. Directories that share the touched table see the change.
  ghost function AfterMap(mem0: Memory, d: nat, dir: nat, v: PageNo, p: PageNo, m: Count, rw: bv8, pl: bv8,
                          vp: nat): Translation
    requires d < PAGES && dir < PAGES && vp < PAGES
  {
    if Offset(vp, v) < m && Sees(mem0, d, dir, vp / 1024) then FrameTranslation(PageAt(p, Offset(vp, v)), rw, pl)
    else Walk(mem0, d, vp)
  }

  ghost predicate InRange(dirs: set<nat>)
  {
    forall d :: d in dirs ==> d < PAGES
  }

  ghost predicate MappedTo(mem0: Memory, mem: Memory, dirs: set<nat>, dir: nat, v: PageNo, p: PageNo, m: Count, rw: bv8,
                           pl: bv8)
    requires InRange(dirs) && dir in dirs
  {
    forall d, vp :: d in dirs && 0 <= vp < PAGES ==>
      Walk(mem, d, vp) == AfterMap(mem0, d, dir, v, p, m, rw, pl, vp)
  }

  // The m pages from v on are unmapped in directory dir, and none is the window.
  ghost predicate Clear(mem0: Memory, dir: nat, v: PageNo, m: Count)
    requires dir < PAGES
  {
    forall k :: 0 <= k < m ==> Walk(mem0, dir, PageAt(v, k)) == Unmapped && PageAt(v, k) != WINDOW_PAGE
  }

  ghost predicate SameSharing(mem0: Memory, mem: Memory, dirs: set<nat>)
    requires InRange(dirs)
  {
    forall d, d', i :: d in dirs && d' in dirs && 0 <= i < 1024 ==> (Sees(mem, d, d', i) <==> Sees(mem0, d, d', i))
  }

  // The effect of one run of n slots from lo on at index i.
  ghost predicate ChunkEffect(mem: Memory, mem': Memory, dirs: set<nat>, dir: nat, i: nat, lo: nat, n: Count,
                              pp: PageNo, rw: bv8, pl: bv8)
    requires InRange(dirs) && dir in dirs && i < 1024
  {
    forall d, vp :: d in dirs && 0 <= vp < PAGES ==>
      Walk(mem', d, vp) ==
        if vp / 1024 == i && lo <= vp % 1024 < lo + n && Sees(mem, d, dir, i)
          then FrameTranslation(PageAt(pp, vp % 1024 - lo), rw, pl)
        else Walk(mem, d, vp)
  }

  // Mapping a run through a table that is already linked.
  lemma ChunkThroughTable(mem: Memory, L: Layout, dir: nat, i: nat, t: nat, lo: nat, n: Count, pp: PageNo, rw: bv8,
                          pl: bv8, mem': Memory)
    requires WellFormed(mem, L) && dir in L.dirs && i < 1024 && lo + n <= 1024
    requires Tabled(mem[dir][i]) && t == Frame(mem[dir][i])
    requires mem' == mem[t := MapRange(mem[t], lo, n, pp, rw, pl)]
    ensures WellFormed(mem', L)
    ensures ChunkEffect(mem, mem', L.dirs, dir, i, lo, n, pp, rw, pl)
    ensures forall d :: d in L.dirs ==> mem'[d] == mem[d]
  {
    assert DirEntryOk(L, mem[dir][i], i);
    var filled := MapRange(mem[t], lo, n, pp, rw, pl);
    RangeIsSound(mem[t], lo, n, pp, rw, pl);
    RewriteTable(mem, L, t, filled);
    forall d, vp | d in L.dirs && 0 <= vp < PAGES
      ensures Walk(mem', d, vp) ==
        if vp / 1024 == i && lo <= vp % 1024 < lo + n && Sees(mem, d, dir, i)
          then FrameTranslation(PageAt(pp, vp % 1024 - lo), rw, pl)
        else Walk(mem, d, vp)
    {
      ChunkPage(mem, L, dir, i, t, lo, n, pp, rw, pl, d, vp);
    }
  }

  // Slot by slot, what a filled range of a linked table translates to.
  lemma ChunkPage(mem: Memory, L: Layout, dir: nat, i: nat, t: nat, lo: nat, n: Count, pp: PageNo, rw: bv8, pl: bv8,
                  d: nat, vp: nat)
    requires WellFormed(mem, L) && dir in L.dirs && d in L.dirs && i < 1024 && vp < PAGES
    requires Tabled(mem[dir][i]) && t == Frame(mem[dir][i])
    ensures
      (if Tabled(mem[d][vp / 1024]) && Frame(mem[d][vp / 1024]) == t
       then PteTranslation(MapRange(mem[t], lo, n, pp, rw, pl)[vp % 1024]) else Walk(mem, d, vp)) ==
      (if vp / 1024 == i && lo <= vp % 1024 < lo + n && Sees(mem, d, dir, i)
        then FrameTranslation(PageAt(pp, vp % 1024 - lo), rw, pl)
       else Walk(mem, d, vp))
  {
    var j := vp % 1024;
    assert DirEntryOk(L, mem[d][vp / 1024], vp / 1024) && DirEntryOk(L, mem[dir][i], i);
    if Tabled(mem[d][vp / 1024]) && Frame(mem[d][vp / 1024]) == t {
      assert vp / 1024 == i && Sees(mem, d, dir, i);
      var slot := MapRange(mem[t], lo, n, pp, rw, pl)[j];
      if lo <= j < lo + n {
        assert slot == FrameEntry(PageAt(pp, j - lo), rw, pl);
        FrameEntryTranslates(PageAt(pp, j - lo), rw, pl);
      } else {
        assert slot == mem[t][j];
        assert PFlag(mem[d][vp / 1024]);
      }
    }
  }

  lemma RangeIsSound(t: Table, lo: nat, n: Count, pp: PageNo, rw: bv8, pl: bv8)
    requires forall j :: 0 <= j < 1024 ==> Sound(t[j])
    ensures forall j :: 0 <= j < 1024 ==> Sound(MapRange(t, lo, n, pp, rw, pl)[j])
  {
    forall j | 0 <= j < 1024
      ensures Sound(MapRange(t, lo, n, pp, rw, pl)[j])
    {
      if lo <= j {
        FrameEntryTranslates(PageAt(pp, j - lo), rw, pl);
      }
    }
  }

  // Mapping a run through a new table.
  lemma ChunkThroughNewTable(mem: Memory, L: Layout, dir: nat, i: nat, t: nat, lo: nat, n: Count, pp: PageNo, rw: bv8,
                             pl: bv8)
    requires WellFormed(mem, L) && dir in L.dirs && i < 1024 && lo + n <= 1024
    requires !Present(mem[dir][i]) && 0 < t < PAGES && t !in L.dirs && t !in L.tables
    ensures var mem' := Link(mem, dir, i, t, MapRange(ZeroTable(), lo, n, pp, rw, pl), rw, pl);
      && WellFormed(mem', AddTable(L, t, i))
      && ChunkEffect(mem, mem', L.dirs, dir, i, lo, n, pp, rw, pl)
      && Tabled(mem'[dir][i])
      && (forall j :: 0 <= j < 1024 && j != i ==> mem'[dir][j] == mem[dir][j])
      && forall d :: d in L.dirs && d != dir ==> mem'[d] == mem[d]
  {
    var filled := MapRange(ZeroTable(), lo, n, pp, rw, pl);
    RangeIsSound(ZeroTable(), lo, n, pp, rw, pl);
    LinkTable(mem, L, dir, i, t, filled, rw, pl);
    var mem' := Link(mem, dir, i, t, filled, rw, pl);
    forall d, vp | d in L.dirs && 0 <= vp < PAGES
      ensures Walk(mem', d, vp) ==
        if vp / 1024 == i && lo <= vp % 1024 < lo + n && Sees(mem, d, dir, i)
          then FrameTranslation(PageAt(pp, vp % 1024 - lo), rw, pl)
        else Walk(mem, d, vp)
    {
      assert DirEntryOk(L, mem[d][vp / 1024], vp / 1024);
      assert DirEntryOk(L, mem[dir][i], i);
      if d == dir && vp / 1024 == i && lo <= vp % 1024 < lo + n {
        FrameEntryTranslates(PageAt(pp, vp % 1024 - lo), rw, pl);
      }
    }
  }

  // Linking new tables changes no sharing: the new table is in one directory only.
  lemma SharingKept(mem: Memory, mem': Memory, L: Layout, L': Layout, dir: nat, i: nat)
    requires WellFormed(mem, L) && WellFormed(mem', L') && L.dirs == L'.dirs && dir in L.dirs && i < 1024
    requires forall d :: d in L.dirs && d != dir ==> mem'[d] == mem[d]
    requires forall j :: 0 <= j < 1024 && j != i ==> mem'[dir][j] == mem[dir][j]
    requires mem'[dir][i] == mem[dir][i]
      || (!Present(mem[dir][i]) && Tabled(mem'[dir][i]) && Frame(mem'[dir][i]) !in L.tables)
    ensures SameSharing(mem, mem', L.dirs)
  {
    forall d, d', j | d in L.dirs && d' in L.dirs && 0 <= j < 1024
      ensures Sees(mem', d, d', j) <==> Sees(mem, d, d', j)
    {
      assert DirEntryOk(L, mem[d][j], j) && DirEntryOk(L, mem[d'][j], j);
    }
  }

  // The pages of a chunk are those whose distance from the start of the range lies in the chunk.
  lemma ChunkPages(v: PageNo, m: Count, n: Count, vp: nat)
    requires vp < PAGES && m + n <= PAGES && PageAt(v, m) % 1024 + n <= 1024
    ensures var lo := PageAt(v, m) % 1024;
      (vp / 1024 == PageAt(v, m) / 1024 && lo <= vp % 1024 < lo + n) <==> m <= Offset(vp, v) < m + n
    ensures m <= Offset(vp, v) < m + n ==> vp % 1024 - PageAt(v, m) % 1024 == Offset(vp, v) - m
  {
    var first := PageAt(v, m);
    assert first == first / 1024 * 1024 + first % 1024 && vp == vp / 1024 * 1024 + vp % 1024;
    OffsetShift(v, m, vp);
    if m <= Offset(vp, v) < m + n {
      assert vp == first + (Offset(vp, v) - m);
    }
  }

  lemma OffsetShift(v: PageNo, m: Count, vp: nat)
    requires vp < PAGES && m <= PAGES
    ensures m <= Offset(vp, v) && PageAt(v, m) + (Offset(vp, v) - m) < PAGES ==>
      vp == PageAt(v, m) + (Offset(vp, v) - m)
    ensures PageAt(v, m) <= vp && m + (vp - PageAt(v, m)) < PAGES ==> Offset(vp, v) == m + (vp - PageAt(v, m))
  {
  }

  // A chunk that starts where the mapped prefix ends extends the prefix.
  lemma ExtendPrefix(mem0: Memory, mem: Memory, mem': Memory, dirs: set<nat>, dir: nat, v: PageNo, p: PageNo, m: Count,
                     n: Count, rw: bv8, pl: bv8)
    requires InRange(dirs) && dir in dirs && m + n <= PAGES && PageAt(v, m) % 1024 + n <= 1024
    requires MappedTo(mem0, mem, dirs, dir, v, p, m, rw, pl)
    requires SameSharing(mem0, mem, dirs)
    requires ChunkEffect(mem, mem', dirs, dir, PageAt(v, m) / 1024, PageAt(v, m) % 1024, n, PageAt(p, m), rw, pl)
    ensures MappedTo(mem0, mem', dirs, dir, v, p, m + n, rw, pl)
  {
    forall d, vp | d in dirs && 0 <= vp < PAGES
      ensures Walk(mem', d, vp) == AfterMap(mem0, d, dir, v, p, m + n, rw, pl, vp)
    {
      assert Walk(mem, d, vp) == AfterMap(mem0, d, dir, v, p, m, rw, pl, vp);
      assert Sees(mem, d, dir, vp / 1024) <==> Sees(mem0, d, dir, vp / 1024);
      ExtendPage(Walk(mem0, d, vp), Walk(mem, d, vp), Walk(mem', d, vp), Sees(mem0, d, dir, vp / 1024), v, p, m, n,
        rw, pl, vp);
    }
  }

  // The same for one page, on the three translations it has before, between and after.
  lemma ExtendPage(x0: Translation, x1: Translation, x2: Translation, sees: bool, v: PageNo, p: PageNo, m: Count,
                   n: Count, rw: bv8, pl: bv8, vp: nat)
    requires vp < PAGES && m + n <= PAGES && PageAt(v, m) % 1024 + n <= 1024
    requires x1 == if Offset(vp, v) < m && sees then FrameTranslation(PageAt(p, Offset(vp, v)), rw, pl) else x0
    requires
      var lo := PageAt(v, m) % 1024;
      x2 == if vp / 1024 == PageAt(v, m) / 1024 && lo <= vp % 1024 < lo + n && sees
            then FrameTranslation(PageAt(PageAt(p, m), vp % 1024 - lo), rw, pl) else x1
    ensures x2 == if Offset(vp, v) < m + n && sees then FrameTranslation(PageAt(p, Offset(vp, v)), rw, pl) else x0
  {
    ChunkPages(v, m, n, vp);
    if m <= Offset(vp, v) < m + n {
      assert PageAt(PageAt(p, m), Offset(vp, v) - m) == PageAt(p, Offset(vp, v));
    }
  }

  // What stops a run before its first slot.
  ghost predicate Blocked(mem: Memory, dir: nat, vp: nat)
    requires dir < PAGES && vp < PAGES
  {
    Walk(mem, dir, vp) != Unmapped || vp == WINDOW_PAGE
  }

  // The pages of the chunk were clear from the start, if they are clear when the chunk is mapped.
  lemma ExtendClear(mem0: Memory, mem: Memory, dirs: set<nat>, dir: nat, v: PageNo, p: PageNo, m: Count, n: Count,
                    rw: bv8, pl: bv8)
    requires InRange(dirs) && dir in dirs && m + n <= PAGES && PageAt(v, m) % 1024 + n <= 1024
    requires MappedTo(mem0, mem, dirs, dir, v, p, m, rw, pl)
    requires Clear(mem0, dir, v, m)
    requires forall q :: PageAt(v, m) <= q < PageAt(v, m) + n ==> q < PAGES && !Blocked(mem, dir, q)
    ensures Clear(mem0, dir, v, m + n)
  {
    forall k | 0 <= k < m + n
      ensures Walk(mem0, dir, PageAt(v, k)) == Unmapped && PageAt(v, k) != WINDOW_PAGE
    {
      if k >= m {
        var vp := PageAt(v, k);
        OffsetOfPage(v, k);
        PageInChunk(v, m, n, k);
        assert !Blocked(mem, dir, vp);
        assert Walk(mem, dir, vp) == AfterMap(mem0, dir, dir, v, p, m, rw, pl, vp);
      }
    }
  }

  lemma PageInChunk(v: PageNo, m: Count, n: Count, k: Count)
    requires PageAt(v, m) % 1024 + n <= 1024 && m <= k < m + n
    ensures PageAt(v, k) == PageAt(v, m) + (k - m)
    ensures PageAt(v, k) / 1024 == PageAt(v, m) / 1024
  {
    var first := PageAt(v, m);
    assert first == first / 1024 * 1024 + first % 1024;
  }

  lemma OffsetOfPage(v: PageNo, k: nat)
    requires k < PAGES
    ensures Offset(PageAt(v, k), v) == k
  {
  }

  // Which entries a range touches, and which of those are absent.
  ghost predicate Touches(v: PageNo, m: Count, i: nat)
  {
    exists k :: 0 <= k < m && PageAt(v, k) / 1024 == i
  }

  ghost function Missing(mem: Memory, dir: nat, v: PageNo, m: Count): set<nat>
    requires dir < PAGES
  {
    set i: nat | i < 1024 && !Present(mem[dir][i]) && Touches(v, m, i)
  }

  // No touched entry maps a large page.
  ghost predicate NoLarge(mem: Memory, dir: nat, v: PageNo, m: Count)
    requires dir < PAGES
  {
    forall k :: 0 <= k < m ==> !LargePage(mem[dir][PageAt(v, k) / 1024])
  }

  // A chunk changes the directory only at the entry it touches, and only if that entry was absent.
  lemma UntouchedStep(mem0: Memory, mem: Memory, mem': Memory, dir: nat, v: PageNo, m: Count, n: Count)
    requires dir < PAGES && 0 < n && m + n <= PAGES
    requires forall j :: 0 <= j < 1024 && (Present(mem0[dir][j]) || !Touches(v, m, j)) ==> mem[dir][j] == mem0[dir][j]
    requires forall j :: 0 <= j < 1024 && (j != PageAt(v, m) / 1024 || Present(mem[dir][j])) ==>
      mem'[dir][j] == mem[dir][j]
    ensures forall j :: 0 <= j < 1024 && (Present(mem0[dir][j]) || !Touches(v, m + n, j)) ==>
      mem'[dir][j] == mem0[dir][j]
  {
    assert Touches(v, m + n, PageAt(v, m) / 1024);
    forall j | 0 <= j < 1024 && Touches(v, m, j)
      ensures Touches(v, m + n, j)
    {
      var k :| 0 <= k < m && PageAt(v, k) / 1024 == j;
    }
  }

  lemma NoLargeStep(mem: Memory, mem': Memory, dir: nat, v: PageNo, m: Count, i: nat)
    requires dir < PAGES && i < 1024 && NoLarge(mem, dir, v, m)
    requires Tabled(mem'[dir][i])
    requires forall j :: 0 <= j < 1024 && j != i ==> mem'[dir][j] == mem[dir][j]
    ensures NoLarge(mem', dir, v, m)
  {
  }

  lemma MissingStep(mem: Memory, mem': Memory, dir: nat, v: PageNo, m: Count, k: nat)
    requires dir < PAGES && k < m
    requires Present(mem'[dir][PageAt(v, k) / 1024])
    requires forall j :: 0 <= j < 1024 && j != PageAt(v, k) / 1024 ==> mem'[dir][j] == mem[dir][j]
    ensures Missing(mem', dir, v, m) == Missing(mem, dir, v, m) - {PageAt(v, k) / 1024}
    ensures !Present(mem[dir][PageAt(v, k) / 1024]) ==> |Missing(mem', dir, v, m)| == |Missing(mem, dir, v, m)| - 1
    ensures Present(mem[dir][PageAt(v, k) / 1024]) ==> Missing(mem', dir, v, m) == Missing(mem, dir, v, m)
  {
    var i := PageAt(v, k) / 1024;
    assert Touches(v, m, i);
    assert !Present(mem[dir][i]) ==> i in Missing(mem, dir, v, m);
  }

  // Rewriting a frame that holds neither a directory nor a linked table is invisible.
  lemma RewriteOther(mem: Memory, L: Layout, f: nat, t: Table)
    requires WellFormed(mem, L) && f < PAGES && f !in L.dirs && f !in L.tables
    ensures WellFormed(mem[f := t], L)
    ensures forall d :: d in L.dirs ==> mem[f := t][d] == mem[d]
    ensures forall d, vp :: d in L.dirs && 0 <= vp < PAGES ==> Walk(mem[f := t], d, vp) == Walk(mem, d, vp)
  {
    var mem' := mem[f := t];
    assert forall d :: d in L.dirs ==> mem'[d] == mem[d];
    assert forall g :: g in L.tables ==> mem'[g] == mem[g];
    forall d, d', i | d in L.dirs && d' in L.dirs && d != d' && 0 <= i < 1024
      ensures SharedAsKernel(mem', L.kernelPdt, d, d', i)
    {
      assert SharedAsKernel(mem, L.kernelPdt, d, d', i);
    }
    forall d, vp | d in L.dirs && 0 <= vp < PAGES
      ensures Walk(mem', d, vp) == Walk(mem, d, vp)
    {
      assert DirEntryOk(L, mem[d][vp / 1024], vp / 1024);
    }
  }

  // Slots of a linked table that are not present are unmapped pages, and conversely.
  lemma SlotIsPage(mem: Memory, L: Layout, dir: nat, i: nat, j: nat)
    requires WellFormed(mem, L) && dir in L.dirs && i < 1024 && j < 1024 && Tabled(mem[dir][i])
    ensures Walk(mem, dir, i * 1024 + j) == Unmapped <==> !Present(mem[Frame(mem[dir][i])][j])
  {
    assert DirEntryOk(L, mem[dir][i], i);
    var vp := i * 1024 + j;
    assert vp / 1024 == i && vp % 1024 == j;
    assert Sound(mem[Frame(mem[dir][i])][j]);
  }

  lemma AbsentIsUnmapped(mem: Memory, dir: nat, i: nat, j: nat)
    requires dir < PAGES && i < 1024 && j < 1024 && !Present(mem[dir][i])
    ensures Walk(mem, dir, i * 1024 + j) == Unmapped
  {
    assert (i * 1024 + j) / 1024 == i;
  }

  // The effect of clearing a run of n slots from lo on at index i.
  ghost predicate UnmapEffect(mem: Memory, mem': Memory, dirs: set<nat>, dir: nat, i: nat, lo: nat, n: Count)
    requires InRange(dirs) && dir in dirs && i < 1024
  {
    forall d, vp :: d in dirs && 0 <= vp < PAGES ==>
      Walk(mem', d, vp) ==
        if vp / 1024 == i && lo <= vp % 1024 < lo + n && Sees(mem, d, dir, i) then Unmapped else Walk(mem, d, vp)
  }

  // Clearing a run of a linked table.
  lemma ClearThroughTable(mem: Memory, L: Layout, dir: nat, i: nat, t: nat, lo: nat, n: Count, mem': Memory)
    requires WellFormed(mem, L) && dir in L.dirs && i < 1024
    requires Tabled(mem[dir][i]) && t == Frame(mem[dir][i])
    requires mem' == mem[t := ClearRange(mem[t], lo, n)]
    ensures WellFormed(mem', L)
    ensures UnmapEffect(mem, mem', L.dirs, dir, i, lo, n)
    ensures forall d :: d in L.dirs ==> mem'[d] == mem[d]
  {
    assert DirEntryOk(L, mem[dir][i], i);
    RewriteTable(mem, L, t, ClearRange(mem[t], lo, n));
    forall d, vp | d in L.dirs && 0 <= vp < PAGES
      ensures Walk(mem', d, vp) ==
        if vp / 1024 == i && lo <= vp % 1024 < lo + n && Sees(mem, d, dir, i) then Unmapped else Walk(mem, d, vp)
    {
      ClearPage(mem, L, dir, i, t, lo, n, d, vp);
    }
  }

  lemma ClearPage(mem: Memory, L: Layout, dir: nat, i: nat, t: nat, lo: nat, n: Count, d: nat, vp: nat)
    requires WellFormed(mem, L) && dir in L.dirs && d in L.dirs && i < 1024 && vp < PAGES
    requires Tabled(mem[dir][i]) && t == Frame(mem[dir][i])
    ensures
      (if Tabled(mem[d][vp / 1024]) && Frame(mem[d][vp / 1024]) == t
       then PteTranslation(ClearRange(mem[t], lo, n)[vp % 1024]) else Walk(mem, d, vp)) ==
      (if vp / 1024 == i && lo <= vp % 1024 < lo + n && Sees(mem, d, dir, i) then Unmapped else Walk(mem, d, vp))
  {
    var j := vp % 1024;
    assert DirEntryOk(L, mem[d][vp / 1024], vp / 1024) && DirEntryOk(L, mem[dir][i], i);
    if Tabled(mem[d][vp / 1024]) && Frame(mem[d][vp / 1024]) == t {
      assert vp / 1024 == i && Sees(mem, d, dir, i);
      assert PFlag(mem[d][vp / 1024]);
      var slot := ClearRange(mem[t], lo, n)[j];
      if lo <= j < lo + n && Present(mem[t][j]) {
        assert slot == ZERO_ENTRY;
      } else {
        assert slot == mem[t][j];
      }
    }
  }

  // The next page after the mapped prefix still has its original translation.
  lemma PageAfterPrefix(mem0: Memory, mem: Memory, dirs: set<nat>, dir: nat, v: PageNo, p: PageNo, m: Count, rw: bv8,
                        pl: bv8)
    requires InRange(dirs) && dir in dirs && m < PAGES
    requires MappedTo(mem0, mem, dirs, dir, v, p, m, rw, pl)
    ensures Walk(mem, dir, PageAt(v, m)) == Walk(mem0, dir, PageAt(v, m))
  {
    assert Offset(PageAt(v, m), v) == m;
    assert Walk(mem, dir, PageAt(v, m)) == AfterMap(mem0, dir, dir, v, p, m, rw, pl, PageAt(v, m));
  }

  lemma EmptyPrefix(mem: Memory, dirs: set<nat>, dir: nat, v: PageNo, p: PageNo, rw: bv8, pl: bv8)
    requires InRange(dirs) && dir in dirs
    ensures MappedTo(mem, mem, dirs, dir, v, p, 0, rw, pl) && SameSharing(mem, mem, dirs) && Clear(mem, dir, v, 0)
  {
  }

  // Mapping never replaces a translation: where the range was clear, a page that was mapped in the
  // directory, or in any other one, keeps its translation.
  lemma MapKeepsTranslations(mem0: Memory, mem: Memory, dirs: set<nat>, dir: nat, v: PageNo, p: PageNo, m: Count,
                             rw: bv8, pl: bv8, d: nat, vp: nat)
    requires InRange(dirs) && dir in dirs && d in dirs && vp < PAGES && m <= PAGES
    requires MappedTo(mem0, mem, dirs, dir, v, p, m, rw, pl) && Clear(mem0, dir, v, m)
    requires Sound(mem0[d][vp / 1024]) && Sound(mem0[dir][vp / 1024])
    requires Walk(mem0, d, vp) != Unmapped
    ensures Walk(mem, d, vp) == Walk(mem0, d, vp)
  {
    if Offset(vp, v) < m && Sees(mem0, d, dir, vp / 1024) {
      SeesSamePage(mem0, d, dir, vp);
    }
  }

  // Directories that share a table translate its pages alike, up to whether the entry is live.
  lemma SeesSamePage(mem: Memory, d: nat, dir: nat, vp: nat)
    requires d < PAGES && dir < PAGES && vp < PAGES && Sees(mem, d, dir, vp / 1024)
    requires Sound(mem[d][vp / 1024]) && Sound(mem[dir][vp / 1024])
    ensures Walk(mem, d, vp) == Walk(mem, dir, vp)
  {
  }

  // A slot that the search for kernel addresses may use: not present, and not the window's own slot.
  predicate SlotFree(t: Table, i: nat, j: nat)
    requires j < 1024
  {
    !Present(t[j]) && !(i == 768 && j == 1023)
  }

  predicate RunFree(t: Table, i: nat, o: nat, N: nat)
  {
    0 < N && o + N <= 1024 && forall j :: o <= j < o + N ==> SlotFree(t, i, j)
  }

  // The lowest run of N usable slots of a table.
  ghost predicate FirstRun(t: Table, i: nat, o: nat, N: nat)
  {
    RunFree(t, i, o, N) && forall x: nat :: x < o ==> !RunFree(t, i, x, N)
  }

  // A directory entry that can hold N pages in one piece: an absent entry counts, whatever N is.
  ghost predicate EntryFits(mem: Memory, dir: nat, i: nat, N: nat)
    requires dir < PAGES && i < 1024
  {
    !Present(mem[dir][i]) || exists o: nat :: RunFree(mem[Frame(mem[dir][i])], i, o, N)
  }

  // The place the search settles on: the first kernel entry that can hold the pages, and in it the
  // lowest run, or the start of an absent entry.
  ghost predicate FoundAt(mem: Memory, dir: nat, i: nat, o: nat, N: nat)
    requires dir < PAGES
  {
    && 768 <= i < 1024
    && (forall j :: 768 <= j < i ==> !EntryFits(mem, dir, j, N))
    && if !Present(mem[dir][i]) then o == 0 else FirstRun(mem[Frame(mem[dir][i])], i, o, N)
  }

  lemma FoundFits(mem: Memory, dir: nat, i: nat, o: nat, N: nat)
    requires dir < PAGES && FoundAt(mem, dir, i, o, N)
    ensures EntryFits(mem, dir, i, N)
  {
  }

  // The place found is unique.
  lemma FoundOnce(mem: Memory, dir: nat, i: nat, o: nat, i': nat, o': nat, N: nat)
    requires dir < PAGES && FoundAt(mem, dir, i, o, N) && FoundAt(mem, dir, i', o', N)
    ensures i == i' && o == o'
  {
    FoundFits(mem, dir, i, o, N);
    FoundFits(mem, dir, i', o', N);
  }

  // The window's own slot does not count, so a search through the window sees the table itself.
  lemma RunsThroughWindow(t: Table, i: nat, o: nat, N: nat, e: Entry)
    requires i == 768
    ensures RunFree(t[1023 := e], i, o, N) <==> RunFree(t, i, o, N)
  {
    var t' := t[1023 := e];
    if o + N <= 1024 {
      assert forall j :: o <= j < o + N ==> (SlotFree(t', i, j) <==> SlotFree(t, i, j));
    }
  }

  // A found place of at most one table is clear, touches one entry, and does not wrap.
  lemma FoundIsClear(mem: Memory, L: Layout, i: nat, o: nat, N: Count, v: PageNo)
    requires WellFormed(mem, L) && FoundAt(mem, L.kernelPdt, i, o, N) && 0 < N <= 1024
    requires v == i * 1024 + o
    ensures v + N <= PAGES && Clear(mem, L.kernelPdt, v, N) && NoLarge(mem, L.kernelPdt, v, N)
    ensures Missing(mem, L.kernelPdt, v, N) == if Present(mem[L.kernelPdt][i]) then {} else {i}
  {
    var d := L.kernelPdt;
    assert DirEntryOk(L, mem[d][i], i) && o + N <= 1024;
    forall k | 0 <= k < N
      ensures PageAt(v, k) == i * 1024 + (o + k) && PageAt(v, k) / 1024 == i
      ensures Walk(mem, d, PageAt(v, k)) == Unmapped && PageAt(v, k) != WINDOW_PAGE
    {
      if Present(mem[d][i]) {
        assert SlotFree(mem[Frame(mem[d][i])], i, o + k);
        SlotIsPage(mem, L, d, i, o + k);
      } else {
        AbsentIsUnmapped(mem, d, i, o + k);
        assert i != 768;
      }
    }
    assert PageAt(v, 0) / 1024 == i;
    assert Touches(v, N, i);
  }

  // Clearing a whole table that only this directory uses, and unlinking it.
  lemma ClearAndUnlink(mem: Memory, L: Layout, dir: nat, i: nat, t: nat, mem': Memory, mem'': Memory)
    requires WellFormed(mem, L) && dir in L.dirs && i < 1024 && i != 768
    requires Tabled(mem[dir][i]) && t == Frame(mem[dir][i])
    requires forall d :: d in L.dirs && d != dir ==> !Sees(mem, d, dir, i)
    requires mem' == mem[t := ClearRange(mem[t], 0, 1024)]
    requires mem'' == Unlink(mem', dir, i)
    ensures WellFormed(mem'', RemoveTable(L, t))
    ensures UnmapEffect(mem, mem'', L.dirs, dir, i, 0, 1024)
    ensures forall d :: d in L.dirs && d != dir ==> mem''[d] == mem[d]
  {
    ClearThroughTable(mem, L, dir, i, t, 0, 1024, mem');
    assert forall d :: d in L.dirs ==> (Sees(mem', d, dir, i) <==> Sees(mem, d, dir, i));
    UnlinkTable(mem', L, dir, i);
    assert DirEntryOk(L, mem[dir][i], i);
    assert dir != t;
  }

  // Where one iteration of the unmapping loop moves its address. The size is never reduced, so every
  // iteration runs for the full size, to the end of its table, or to the window's slot.
  function UnmapAdvance(mem: Memory, dir: nat, vaddr: u32, N: nat): u32
    requires dir < PAGES
  {
    var vp := vaddr / 0x1000;
    if !Present(mem[dir][vp / 1024]) then AlignUp(vaddr, 0x40_0000)
    else Wrap(vaddr as int + UnmapRun(vp, N) * 0x1000)
  }

  function UnmapRun(vp: PageNo, N: nat): (n: nat)
    ensures n <= N && vp % 1024 + n <= 1024
  {
    var room := if vp / 1024 == 768 then 1023 - vp % 1024 else 1024 - vp % 1024;
    if N <= room then N else room
  }

  // The loop stands still, for ever, exactly on an absent entry at a 4 MB boundary and on the window.
  lemma UnmapStandsStill(mem: Memory, dir: nat, vaddr: u32, N: nat)
    requires dir < PAGES && N > 0
    ensures UnmapAdvance(mem, dir, vaddr, N) == vaddr <==>
      (!Present(mem[dir][vaddr / 0x1000 / 1024]) && vaddr % 0x40_0000 == 0)
      || (Present(mem[dir][vaddr / 0x1000 / 1024]) && vaddr / 0x1000 == WINDOW_PAGE)
  {
    var vp := vaddr / 0x1000;
    assert vp == vp / 1024 * 1024 + vp % 1024;
    var n := UnmapRun(vp, N);
    assert n == 0 <==> vp == WINDOW_PAGE;
    if n > 0 {
      WrapMoves(vaddr, n * 0x1000);
    }
  }

  lemma WrapMoves(a: u32, step: nat)
    requires 0 < step < 0x1_0000_0000
    ensures Wrap(a as int + step) != a
  {
  }

  // A range inside one directory entry is finished by one iteration exactly when the entry is present
  // and the range avoids the window, or there is nothing to do: the entry is absent, the address is
  // off the 4 MB boundary, and rounding up does not wrap.
  lemma UnmapOneIteration(mem: Memory, dir: nat, vaddr: u32, N: nat)
    requires dir < PAGES && 0 < N && vaddr % 0x1000 == 0 && vaddr / 0x1000 % 1024 + N <= 1024
    requires vaddr as int + N * 0x1000 < 0x1_0000_0000
    ensures
      var vp := vaddr / 0x1000;
      UnmapAdvance(mem, dir, vaddr, N) >= vaddr as int + N * 0x1000 <==>
        if Present(mem[dir][vp / 1024]) then vp / 1024 == 768 ==> vp % 1024 + N <= 1023
        else vaddr % 0x40_0000 != 0 && vp / 1024 < 1023
  {
    var vp := vaddr / 0x1000;
    assert vp == vp / 1024 * 1024 + vp % 1024 && vaddr == vp * 0x1000;
    if Present(mem[dir][vp / 1024]) {
      var n := UnmapRun(vp, N);
      assert Wrap(vaddr as int + n * 0x1000) == vaddr as int + n * 0x1000;
    } else {
      assert vaddr % 0x40_0000 == vp % 1024 * 0x1000;
    }
  }

  // The page at which the unmapping loop ends, from page v on with the end of the range at page end. Where it
  // stands still, or wraps, it gets no further.
  ghost function UnmapEnd(mem: Memory, dir: nat, v: nat, end: nat, N: nat): nat
    requires dir < PAGES && v < PAGES && end <= PAGES
    decreases end - v
  {
    if v >= end then v
    else
      var next := UnmapAdvance(mem, dir, v * 0x1000, N) / 0x1000;
      if next <= v then v else UnmapEnd(mem, dir, next, end, N)
  }

  // The N pages from page v on lie under present directory entries, neither the kernel's own nor the last.
  ghost predicate UnderEntries(mem: Memory, dir: nat, v: nat, N: nat)
    requires dir < PAGES
  {
    && 0 < N && v + N <= 1023 * 1024
    && forall i :: v / 1024 <= i < 1024 && i * 1024 < v + N ==> i != 768 && Present(mem[dir][i])
  }

  // One iteration under a present entry.
  lemma UnmapStep(mem: Memory, dir: nat, v: nat, N: nat)
    requires dir < PAGES && v < 1023 * 1024 && v / 1024 != 768 && Present(mem[dir][v / 1024])
    ensures UnmapAdvance(mem, dir, v * 0x1000, N) / 0x1000 == v + if v % 1024 + N <= 1024 then N else 1024 - v % 1024
  {
    var n := UnmapRun(v, N);
    assert v * 0x1000 / 0x1000 == v;
    assert (v + n) * 0x1000 == v * 0x1000 + n * 0x1000 < 0x1_0000_0000;
    assert UnmapAdvance(mem, dir, v * 0x1000, N) == (v + n) * 0x1000;
  }

  // From the start of entry e on, with the end of the range no more than N pages away.
  lemma {:induction false} UnmapEndFrom(mem: Memory, dir: nat, e: nat, r: nat, N: nat)
    requires dir < PAGES && r <= N && UnderEntries(mem, dir, e * 1024, r)
    ensures UnmapEnd(mem, dir, e * 1024, e * 1024 + r, N) >= e * 1024 + r
    ensures UnmapEnd(mem, dir, e * 1024, e * 1024 + r, N) == e * 1024 + r <==> r == N <= 1024 || r % 1024 == 0
    decreases r
  {
    hide UnmapAdvance;
    var b := e * 1024;
    assert b / 1024 == e && b % 1024 == 0 && Present(mem[dir][e]);
    UnmapStep(mem, dir, b, N);
    if N > 1024 && r > 1024 {
      assert b + 1024 == (e + 1) * 1024 && (e + 1) * 1024 / 1024 == e + 1;
      UnmapEndFrom(mem, dir, e + 1, r - 1024, N);
    }
  }

  // A range under present entries is unmapped exactly if and only if it lies in one entry or ends at a 4 MB
  // boundary. Otherwise pages behind it are unmapped as well.
  lemma UnmapExact(mem: Memory, dir: nat, v: nat, N: nat)
    requires dir < PAGES && UnderEntries(mem, dir, v, N)
    ensures UnmapEnd(mem, dir, v, v + N, N) >= v + N
    ensures UnmapEnd(mem, dir, v, v + N, N) == v + N <==> v % 1024 + N <= 1024 || (v + N) % 1024 == 0
  {
    hide UnmapAdvance;
    var e, o := v / 1024, v % 1024;
    assert v == e * 1024 + o && Present(mem[dir][e]);
    UnmapStep(mem, dir, v, N);
    if o + N > 1024 {
      var r := o + N - 1024;
      assert v + (1024 - o) == (e + 1) * 1024 && (e + 1) * 1024 / 1024 == e + 1;
      assert v + N == (e + 1) * 1024 + r;
      UnmapEndFrom(mem, dir, e + 1, r, N);
      assert (v + N) % 1024 == r % 1024;
    }
  }

  // A range that goes on into a second present entry is not unmapped exactly: the second iteration
  // clears as many pages as the whole range has, from the start of that entry, here one page too many.
  lemma UnmapOverrun(mem: Memory, dir: nat, vaddr: u32)
    requires dir < PAGES && vaddr == 0x7F_F000
    requires Present(mem[dir][1]) && Present(mem[dir][2])
    ensures UnmapAdvance(mem, dir, vaddr, 2) == 0x80_0000
    ensures UnmapAdvance(mem, dir, 0x80_0000, 2) == 0x80_2000 > vaddr as int + 2 * 0x1000
  {
  }
}
