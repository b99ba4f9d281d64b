// The temporary window: slot 1023 of kernel_pt, through which the kernel reaches any page table,
// kernel_pt itself included.
module Window {
  import opened Machine
  import opened PageTables
  import opened AddressSpace

  function SetWindow(mem: Memory, kernelPt: nat, e: Entry): Memory
    requires kernelPt < PAGES
  {
    mem[kernelPt := mem[kernelPt][1023 := e]]
  }

  // The kernel directory reaches kernel_pt, so the window page translates by slot 1023.
  ghost predicate Wired(mem: Memory, kernelPdt: nat, kernelPt: nat)
  {
    && kernelPdt < PAGES && kernelPt < PAGES && kernelPdt != kernelPt
    && Tabled(mem[kernelPdt][768]) && Sound(mem[kernelPdt][768]) && Frame(mem[kernelPdt][768]) == kernelPt
  }

  // The frame the window shows.
  function Shown(mem: Memory, kernelPdt: nat): (f: nat)
    requires kernelPdt < PAGES
    ensures f < PAGES
  {
    match Walk(mem, kernelPdt, WINDOW_PAGE)
    case Mapped(f, _, _) => if f < PAGES then f else 0
    case Unmapped => 0
  }

  lemma WellFormedIsWired(mem: Memory, L: Layout)
    requires WellFormed(mem, L)
    ensures Wired(mem, L.kernelPdt, L.kernelPt)
  {
    assert DirEntryOk(L, mem[L.kernelPdt][768], 768);
  }

  lemma WindowOpens(mem: Memory, kernelPdt: nat, kernelPt: nat, paddr: u32)
    requires Wired(mem, kernelPdt, kernelPt)
    ensures var m := SetWindow(mem, kernelPt, CreatePtEntry(paddr, 1, 0));
      Wired(m, kernelPdt, kernelPt) && Shown(m, kernelPdt) == paddr / 0x1000
  {
    EntryRoundTrip(paddr, 1, 0);
    EntryFlags(paddr, 1, 0);
    assert WINDOW_PAGE / 1024 == 768 && WINDOW_PAGE % 1024 == 1023;
  }

  // Writing a table other than the directory, and not the window slot, keeps the window in place.
  lemma WindowStays(mem: Memory, kernelPdt: nat, kernelPt: nat, w: nat, t: Table)
    requires Wired(mem, kernelPdt, kernelPt) && w < PAGES && w != kernelPdt
    requires w == kernelPt ==> t[1023] == mem[kernelPt][1023]
    ensures Wired(mem[w := t], kernelPdt, kernelPt) && Shown(mem[w := t], kernelPdt) == Shown(mem, kernelPdt)
  {
    assert WINDOW_PAGE / 1024 == 768 && WINDOW_PAGE % 1024 == 1023;
  }

  // Opening the window on w, filling a range of w that avoids the window slot, and restoring the
  // slot leaves exactly the range filled, even when w is kernel_pt.
  lemma MapThroughWindow(mem: Memory, kernelPt: nat, e: Entry, w: nat, lo: nat, n: Count, pp: PageNo, rw: bv8, pl: bv8)
    requires kernelPt < PAGES && w < PAGES && (w == kernelPt ==> lo + n <= 1023 || n == 0)
    ensures var m := SetWindow(mem, kernelPt, e);
      SetWindow(m[w := MapRange(m[w], lo, n, pp, rw, pl)], kernelPt, mem[kernelPt][1023])
      == mem[w := MapRange(mem[w], lo, n, pp, rw, pl)]
  {
    var m := SetWindow(mem, kernelPt, e);
    var closed := SetWindow(m[w := MapRange(m[w], lo, n, pp, rw, pl)], kernelPt, mem[kernelPt][1023]);
    if w == kernelPt {
      assert closed[w] == MapRange(mem[w], lo, n, pp, rw, pl);
    } else {
      assert closed[kernelPt] == mem[kernelPt];
    }
  }

  lemma ClearThroughWindow(mem: Memory, kernelPt: nat, e: Entry, w: nat, lo: nat, n: Count)
    requires kernelPt < PAGES && w < PAGES && (w == kernelPt ==> lo + n <= 1023 || n == 0)
    ensures var m := SetWindow(mem, kernelPt, e);
      SetWindow(m[w := ClearRange(m[w], lo, n)], kernelPt, mem[kernelPt][1023]) == mem[w := ClearRange(mem[w], lo, n)]
  {
    var m := SetWindow(mem, kernelPt, e);
    var closed := SetWindow(m[w := ClearRange(m[w], lo, n)], kernelPt, mem[kernelPt][1023]);
    if w == kernelPt {
      assert closed[w] == ClearRange(mem[w], lo, n);
    } else {
      assert closed[kernelPt] == mem[kernelPt];
    }
  }

  // Opening the window on a fresh table, clearing and filling it, linking it and restoring the slot.
  lemma NewTableThroughWindow(mem: Memory, kernelPt: nat, e: Entry, dir: nat, i: nat, t: nat, filled: Table, rw: bv8,
                              pl: bv8)
    requires kernelPt < PAGES && t < PAGES && dir < PAGES && i < 1024
    requires t != kernelPt && dir != kernelPt && t != dir
    ensures SetWindow(Link(SetWindow(mem, kernelPt, e), dir, i, t, filled, rw, pl), kernelPt, mem[kernelPt][1023])
         == Link(mem, dir, i, t, filled, rw, pl)
  {
    var closed := SetWindow(Link(SetWindow(mem, kernelPt, e), dir, i, t, filled, rw, pl), kernelPt,
      mem[kernelPt][1023]);
    assert closed[kernelPt] == mem[kernelPt];
    assert closed[dir] == Link(mem, dir, i, t, filled, rw, pl)[dir];
  }

  // The same without linking.
  lemma WriteThroughWindow(mem: Memory, kernelPt: nat, e: Entry, t: nat, filled: Table)
    requires kernelPt < PAGES && t < PAGES && t != kernelPt
    ensures SetWindow(SetWindow(mem, kernelPt, e)[t := filled], kernelPt, mem[kernelPt][1023]) == mem[t := filled]
  {
    assert SetWindow(SetWindow(mem, kernelPt, e)[t := filled], kernelPt, mem[kernelPt][1023])[kernelPt] ==
      mem[kernelPt];
  }

  lemma WindowCloses(mem: Memory, kernelPt: nat, e: Entry)
    requires kernelPt < PAGES
    ensures SetWindow(SetWindow(mem, kernelPt, e), kernelPt, mem[kernelPt][1023]) == mem
  {
    assert SetWindow(SetWindow(mem, kernelPt, e), kernelPt, mem[kernelPt][1023])[kernelPt] == mem[kernelPt];
  }
}
