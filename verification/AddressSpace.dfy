// Translation through a directory, which frames hold directories and page tables, and what one
// step of mapping or unmapping (a run of slots of one page table) does to every translation.
module AddressSpace {
  import opened Machine
  import opened PageTables

  datatype Translation = Unmapped | Mapped(frame: nat, writable: bool, user: bool)

  // Virtual page numbers and frame numbers, and counts of them.
  type PageNo = x: nat | x < 0x10_0000

  type Count = x: nat | x <= 0x10_0000

  // The k-th page from page v on; the address space wraps at 4 GB.
  function PageAt(v: PageNo, k: Count): (vp: PageNo)
  {
    if v + k < 0x10_0000 then v + k else v + k - 0x10_0000
  }

  // A present directory entry that refers to a page table.
  predicate Tabled(e: Entry)
  {
    Present(e) && !LargePage(e)
  }

  // The processor's walk for virtual page vp. A large-page entry maps 1024 frames at once.
  function Walk(mem: Memory, dir: nat, vp: nat): Translation
    requires dir < PAGES && vp < PAGES
  {
    var pde := mem[dir][vp / 1024];
    if !PFlag(pde) then Unmapped
    else if LargePage(pde) then Mapped(Frame(pde) / 1024 * 1024 + vp % 1024, Writable(pde), User(pde))
    else PteTranslation(mem[Frame(pde)][vp % 1024])
  }

  function PteTranslation(pte: Entry): Translation
  {
    if !PFlag(pte) then Unmapped else Mapped(Frame(pte), Writable(pte), User(pte))
  }

  // Which frames hold directories, and which hold page tables, with the one directory index at
  // which each table is used.
  datatype Layout = Layout(kernelPdt: nat, kernelPt: nat, dirs: set<nat>, tables: map<nat, nat>)

  ghost predicate FramesSeparate(L: Layout)
  {
    && L.kernelPdt in L.dirs
    && L.kernelPt in L.tables && L.tables[L.kernelPt] == 768
    && (forall d :: d in L.dirs ==> 0 < d < PAGES && d !in L.tables)
    && (forall t :: t in L.tables ==> 0 < t < PAGES && L.tables[t] < 1024)
  }

  ghost predicate DirEntryOk(L: Layout, e: Entry, i: nat)
  {
    && Sound(e)
    && (Tabled(e) ==> Frame(e) in L.tables && L.tables[Frame(e)] == i)
    && (LargePage(e) ==> i == 0)
  }

  ghost predicate DirsOk(mem: Memory, L: Layout)
    requires FramesSeparate(L)
  {
    forall d, i :: d in L.dirs && 0 <= i < 1024 ==> DirEntryOk(L, mem[d][i], i)
  }

  ghost predicate TablesOk(mem: Memory, L: Layout)
    requires FramesSeparate(L)
  {
    forall t, j :: t in L.tables && 0 <= j < 1024 ==> Sound(mem[t][j])
  }

  // Two directories use the same table at an index only where both have the kernel's entry, copied when
  // the process was loaded: at index 0 and in the kernel's part.
  ghost predicate SharingOk(mem: Memory, L: Layout)
    requires FramesSeparate(L)
  {
    forall d, d', i :: d in L.dirs && d' in L.dirs && d != d' && 0 <= i < 1024 ==>
      SharedAsKernel(mem, L.kernelPdt, d, d', i)
  }

  ghost predicate SharedAsKernel(mem: Memory, k: nat, d: nat, d': nat, i: nat)
    requires k < PAGES && d < PAGES && d' < PAGES && i < 1024
  {
    Tabled(mem[d][i]) && Tabled(mem[d'][i]) && Frame(mem[d][i]) == Frame(mem[d'][i]) ==>
      (i == 0 || 768 <= i) && mem[d][i] == mem[d'][i] == mem[k][i]
  }

  // The window: the kernel directory reaches kernel_pt at index 768.
  ghost predicate WindowOk(mem: Memory, L: Layout)
    requires FramesSeparate(L)
  {
    Tabled(mem[L.kernelPdt][768]) && Frame(mem[L.kernelPdt][768]) == L.kernelPt
  }

  ghost predicate WellFormed(mem: Memory, L: Layout)
  {
    FramesSeparate(L) && DirsOk(mem, L) && TablesOk(mem, L) && SharingOk(mem, L) && WindowOk(mem, L)
  }

  // Whether directory d sees changes that directory dir makes in the table at index i.
  ghost predicate Sees(mem: Memory, d: nat, dir: nat, i: nat)
    requires d < PAGES && dir < PAGES && i < 1024
  {
    d == dir || (Tabled(mem[dir][i]) && Tabled(mem[d][i]) && Frame(mem[d][i]) == Frame(mem[dir][i]))
  }

  // n consecutive slots from lo on, filled with entries for consecutive frames from pp on.
  function MapRange(t: Table, lo: nat, n: Count, pp: PageNo, rw: bv8, pl: bv8): Table
  {
    seq(1024, j requires 0 <= j < 1024 => RangeSlot(t, lo, n, pp, rw, pl, j))
  }

  function RangeSlot(t: Table, lo: nat, n: Count, pp: PageNo, rw: bv8, pl: bv8, j: nat): Entry
    requires j < 1024
  {
    if lo <= j < lo + n then FrameEntry(PageAt(pp, j - lo), rw, pl) else t[j]
  }

  function FrameEntry(f: PageNo, rw: bv8, pl: bv8): Entry
  {
    CreatePtEntry(f * 0x1000, rw, pl)
  }

  function FrameTranslation(f: PageNo, rw: bv8, pl: bv8): Translation
  {
    Mapped(f, rw & 1 == 1, pl & 1 == 1)
  }

  lemma FrameEntryTranslates(f: PageNo, rw: bv8, pl: bv8)
    ensures PteTranslation(FrameEntry(f, rw, pl)) == FrameTranslation(f, rw, pl)
    ensures Sound(FrameEntry(f, rw, pl))
  {
    EntryRoundTrip(f * 0x1000, rw, pl);
    EntryFlags(f * 0x1000, rw, pl);
  }

  // n consecutive slots from lo on, cleared where present.
  function ClearRange(t: Table, lo: nat, n: nat): Table
  {
    seq(1024, j requires 0 <= j < 1024 => if lo <= j < lo + n && Present(t[j]) then ZERO_ENTRY else t[j])
  }

  // Rewriting the table t used at index i, with sound entries, keeps the structure and changes
  // translations only in pages of index i, and there only in directories that use t.
  lemma RewriteTable(mem: Memory, L: Layout, t: nat, rewritten: Table)
    requires WellFormed(mem, L) && t in L.tables
    requires forall j :: 0 <= j < 1024 ==> Sound(rewritten[j])
    ensures WellFormed(mem[t := rewritten], L)
    ensures forall d, vp :: d in L.dirs && 0 <= vp < PAGES ==>
      Walk(mem[t := rewritten], d, vp) ==
        if Tabled(mem[d][vp / 1024]) && Frame(mem[d][vp / 1024]) == t then PteTranslation(rewritten[vp % 1024])
        else Walk(mem, d, vp)
  {
    var mem' := mem[t := rewritten];
    assert forall d :: d in L.dirs ==> mem'[d] == mem[d];
    forall d, d', i | d in L.dirs && d' in L.dirs && d != d' && 0 <= i < 1024
      ensures SharedAsKernel(mem', L.kernelPdt, d, d', i)
    {
      assert SharedAsKernel(mem, L.kernelPdt, d, d', i);
    }
    forall d, vp | d in L.dirs && 0 <= vp < PAGES
      ensures Walk(mem', d, vp) ==
        if Tabled(mem[d][vp / 1024]) && Frame(mem[d][vp / 1024]) == t then PteTranslation(rewritten[vp % 1024])
        else Walk(mem, d, vp)
    {
      assert DirEntryOk(L, mem[d][vp / 1024], vp / 1024);
    }
  }

  function Link(mem: Memory, dir: nat, i: nat, t: nat, filled: Table, rw: bv8, pl: bv8): Memory
    requires dir < PAGES && t < PAGES && i < 1024
  {
    var m := mem[t := filled];
    m[dir := m[dir][i := CreatePdtEntry(t * 0x1000, 0, rw, pl)]]
  }

  function AddTable(L: Layout, t: nat, i: nat): Layout
  {
    L.(tables := L.tables[t := i])
  }

  // Linking a fresh, sound table at an absent index: the new table translates the pages of that
  // index in this directory, and every other translation stays.
  lemma LinkTable(mem: Memory, L: Layout, dir: nat, i: nat, t: nat, filled: Table, rw: bv8, pl: bv8)
    requires WellFormed(mem, L) && dir in L.dirs && i < 1024 && !Present(mem[dir][i])
    requires 0 < t < PAGES && t !in L.dirs && t !in L.tables
    requires forall j :: 0 <= j < 1024 ==> Sound(filled[j])
    ensures WellFormed(Link(mem, dir, i, t, filled, rw, pl), AddTable(L, t, i))
    ensures Tabled(Link(mem, dir, i, t, filled, rw, pl)[dir][i])
    ensures Frame(Link(mem, dir, i, t, filled, rw, pl)[dir][i]) == t
    ensures forall d, vp :: d in L.dirs && 0 <= vp < PAGES ==>
      Walk(Link(mem, dir, i, t, filled, rw, pl), d, vp) ==
        if d == dir && vp / 1024 == i then PteTranslation(filled[vp % 1024]) else Walk(mem, d, vp)
  {
    var mem', L' := Link(mem, dir, i, t, filled, rw, pl), AddTable(L, t, i);
    var entry := CreatePdtEntry(t * 0x1000, 0, rw, pl);
    EntryRoundTrip(t * 0x1000, rw, pl);
    EntryFlags(t * 0x1000, rw, pl);
    assert forall d :: d in L.dirs && d != dir ==> mem'[d] == mem[d];
    assert mem'[dir] == mem[dir][i := entry];
    forall d, j | d in L.dirs && 0 <= j < 1024
      ensures DirEntryOk(L', mem'[d][j], j)
      ensures (d != dir || j != i) ==> mem'[d][j] == mem[d][j] && DirEntryOk(L, mem[d][j], j)
    {
      assert DirEntryOk(L, mem[d][j], j);
    }
    forall d, d', j | d in L.dirs && d' in L.dirs && d != d' && 0 <= j < 1024
      ensures SharedAsKernel(mem', L.kernelPdt, d, d', j)
    {
      assert SharedAsKernel(mem, L.kernelPdt, d, d', j) && DirEntryOk(L, mem[d][j], j) && DirEntryOk(L, mem[d'][j], j);
    }
    forall d, vp | d in L.dirs && 0 <= vp < PAGES
      ensures Walk(mem', d, vp) ==
        if d == dir && vp / 1024 == i then PteTranslation(filled[vp % 1024]) else Walk(mem, d, vp)
    {
      assert DirEntryOk(L', mem'[d][vp / 1024], vp / 1024);
    }
  }

  function Unlink(mem: Memory, dir: nat, i: nat): Memory
    requires dir < PAGES && i < 1024
  {
    mem[dir := mem[dir][i := ZERO_ENTRY]]
  }

  function RemoveTable(L: Layout, t: nat): Layout
  {
    L.(tables := L.tables - {t})
  }

  // Unlinking an entry whose table no other directory uses: the pages of that index become unmapped
  // in this directory, and every other translation stays.
  lemma UnlinkTable(mem: Memory, L: Layout, dir: nat, i: nat)
    requires WellFormed(mem, L) && dir in L.dirs && i < 1024 && i != 768 && Tabled(mem[dir][i])
    requires forall d :: d in L.dirs && d != dir ==> !Sees(mem, d, dir, i)
    ensures WellFormed(Unlink(mem, dir, i), RemoveTable(L, Frame(mem[dir][i])))
    ensures forall d, vp :: d in L.dirs && 0 <= vp < PAGES ==>
      Walk(Unlink(mem, dir, i), d, vp) == if d == dir && vp / 1024 == i then Unmapped else Walk(mem, d, vp)
  {
    var t := Frame(mem[dir][i]);
    var mem', L' := Unlink(mem, dir, i), RemoveTable(L, t);
    assert DirEntryOk(L, mem[dir][i], i);
    assert forall d :: d in L.dirs && d != dir ==> mem'[d] == mem[d];
    assert mem'[dir] == mem[dir][i := ZERO_ENTRY];
    forall d, j | d in L.dirs && 0 <= j < 1024
      ensures DirEntryOk(L', mem'[d][j], j)
      ensures (d != dir || j != i) ==> mem'[d][j] == mem[d][j] && DirEntryOk(L, mem[d][j], j)
    {
      assert DirEntryOk(L, mem[d][j], j);
      assert Sees(mem, d, dir, i) || d == dir || !Tabled(mem[d][i]) || Frame(mem[d][i]) != t;
    }
    forall d, d', j | d in L.dirs && d' in L.dirs && d != d' && 0 <= j < 1024
      ensures SharedAsKernel(mem', L.kernelPdt, d, d', j)
    {
      assert SharedAsKernel(mem, L.kernelPdt, d, d', j);
      assert j == i ==> !Sees(mem, d, dir, i) || d == dir;
      assert j == i ==> !Sees(mem, d', dir, i) || d' == dir;
    }
    forall d, vp | d in L.dirs && 0 <= vp < PAGES
      ensures Walk(mem', d, vp) == if d == dir && vp / 1024 == i then Unmapped else Walk(mem, d, vp)
    {
      assert DirEntryOk(L', mem'[d][vp / 1024], vp / 1024);
    }
  }
}
