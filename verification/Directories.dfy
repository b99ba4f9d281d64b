// Creating a directory, and sharing the kernel's part of the address space with it.
module Directories {
  import opened Machine
  import opened PageTables
  import opened AddressSpace
  import opened MapSteps

  function AddDir(L: Layout, d: nat): Layout
  {
    L.(dirs := L.dirs + {d})
  }

  // An empty directory in a frame of its own translates nothing and disturbs nothing.
  lemma AddDirectory(mem: Memory, L: Layout, d: nat, mem': Memory)
    requires WellFormed(mem, L) && 0 < d < PAGES && d !in L.dirs && d !in L.tables
    requires mem' == mem[d := ZeroTable()]
    ensures WellFormed(mem', AddDir(L, d))
    ensures forall vp :: 0 <= vp < PAGES ==> Walk(mem', d, vp) == Unmapped
    ensures forall d', vp :: d' in L.dirs && 0 <= vp < PAGES ==> Walk(mem', d', vp) == Walk(mem, d', vp)
    ensures forall d' :: d' in L.dirs ==> mem'[d'] == mem[d']
  {
    var L' := AddDir(L, d);
    RewriteOther(mem, L, d, ZeroTable());
    assert forall j :: 0 <= j < 1024 ==> mem'[d][j] == ZERO_ENTRY;
    forall d', j | d' in L'.dirs && 0 <= j < 1024
      ensures DirEntryOk(L', mem'[d'][j], j)
    {
      if d' != d {
        assert DirEntryOk(L, mem[d'][j], j);
      }
    }
    forall d0, d1, j | d0 in L'.dirs && d1 in L'.dirs && d0 != d1 && 0 <= j < 1024
      ensures SharedAsKernel(mem', L'.kernelPdt, d0, d1, j)
    {
      if d0 != d && d1 != d {
        assert SharedAsKernel(mem, L.kernelPdt, d0, d1, j);
      }
    }
  }

  // What pdt_load_process_pdt makes of a process directory: entry 0 and every present entry of the
  // kernel's part are copied from the kernel directory.
  predicate Copied(k: Table, i: nat)
    requires i < 1024
  {
    i == 0 || (768 <= i && Present(k[i]))
  }

  function Loaded(t: Table, k: Table): Table
  {
    seq(1024, i requires 0 <= i < 1024 => if Copied(k, i) then k[i] else t[i])
  }

  lemma LoadDirectory(mem: Memory, L: Layout, d: nat)
    requires WellFormed(mem, L) && d in L.dirs
    ensures WellFormed(mem[d := Loaded(mem[d], mem[L.kernelPdt])], L)
  {
    var k := L.kernelPdt;
    var mem' := mem[d := Loaded(mem[d], mem[k])];
    assert d == k ==> mem'[d] == mem[d];
    forall d', j | d' in L.dirs && 0 <= j < 1024
      ensures DirEntryOk(L, mem'[d'][j], j)
    {
      assert DirEntryOk(L, mem[d'][j], j) && DirEntryOk(L, mem[k][j], j);
    }
    assert forall t :: t in L.tables ==> mem'[t] == mem[t];
    assert forall d' :: d' in L.dirs && d' != d ==> mem'[d'] == mem[d'];
    forall d0, d1, j | d0 in L.dirs && d1 in L.dirs && d0 != d1 && 0 <= j < 1024
      ensures SharedAsKernel(mem', k, d0, d1, j)
    {
      assert SharedAsKernel(mem, k, d0, d1, j);
      assert d0 != k ==> SharedAsKernel(mem, k, d0, k, j);
      assert d1 != k ==> SharedAsKernel(mem, k, d1, k, j);
    }
  }

  // A directory agrees with the kernel's on every present entry of the kernel's part.
  ghost predicate Agrees(mem: Memory, L: Layout, d: nat)
    requires d < PAGES && L.kernelPdt < PAGES
  {
    forall i :: 768 <= i < 1024 && Present(mem[L.kernelPdt][i]) ==> mem[d][i] == mem[L.kernelPdt][i]
  }

  // Agreement of entries is agreement of translations.
  lemma AgreementTranslates(mem: Memory, L: Layout, d: nat, vp: nat)
    requires d < PAGES && L.kernelPdt < PAGES && Agrees(mem, L, d)
    requires 768 * 1024 <= vp < PAGES && Present(mem[L.kernelPdt][vp / 1024])
    ensures Walk(mem, d, vp) == Walk(mem, L.kernelPdt, vp)
  {
  }

  // Loading a process: it agrees with the kernel, keeps its own translations in entries 1 to 767 and
  // under absent kernel entries, takes the kernel's entry 0, and no other directory changes.
  lemma LoadCoherence(mem: Memory, L: Layout, d: nat, mem': Memory)
    requires WellFormed(mem, L) && d in L.dirs && mem' == mem[d := Loaded(mem[d], mem[L.kernelPdt])]
    ensures Agrees(mem', L, d)
    ensures forall i :: 0 <= i < 1024 ==>
      mem'[d][i] == if i == 0 || (768 <= i && Present(mem[L.kernelPdt][i])) then mem[L.kernelPdt][i] else mem[d][i]
    ensures forall vp :: 0 <= vp < 1024 ==> Walk(mem', d, vp) == Walk(mem, L.kernelPdt, vp)
    ensures forall vp :: 1024 <= vp < 768 * 1024 ==> Walk(mem', d, vp) == Walk(mem, d, vp)
    ensures forall vp :: 768 * 1024 <= vp < PAGES ==>
      Walk(mem', d, vp) == if Present(mem[L.kernelPdt][vp / 1024]) then Walk(mem, L.kernelPdt, vp) else Walk(mem, d, vp)
    ensures forall d', vp :: d' in L.dirs && d' != d && 0 <= vp < PAGES ==> Walk(mem', d', vp) == Walk(mem, d', vp)
  {
    var k := L.kernelPdt;
    assert d == k ==> mem'[d] == mem[d];
    assert forall t :: t in L.tables ==> mem'[t] == mem[t];
    forall d', vp | d' in L.dirs && 0 <= vp < PAGES
      ensures Walk(mem', d', vp) ==
        if d' == d && Copied(mem[k], vp / 1024) then Walk(mem, k, vp) else Walk(mem, d', vp)
    {
      assert DirEntryOk(L, mem[d'][vp / 1024], vp / 1024) && DirEntryOk(L, mem[k][vp / 1024], vp / 1024);
    }
  }

  // Loading replaces what the process had mapped below 4 MB: page 0 translates as the kernel's, whatever page
  // or frame was there before.
  lemma FirstEntryReplaced(mem: Memory, L: Layout, d: nat, before: Translation)
    requires WellFormed(mem, L) && d in L.dirs && Walk(mem, d, 0) == before
    ensures Walk(mem[d := Loaded(mem[d], mem[L.kernelPdt])], d, 0) == Walk(mem, L.kernelPdt, 0)
    ensures before != Walk(mem, L.kernelPdt, 0) ==> Walk(mem[d := Loaded(mem[d], mem[L.kernelPdt])], d, 0) != before
  {
    LoadCoherence(mem, L, d, mem[d := Loaded(mem[d], mem[L.kernelPdt])]);
  }

  // Mapping a clear range inside one directory entry and unmapping the same range restores every
  // translation of every directory.
  lemma MapUnmapRoundTrip(mem0: Memory, L0: Layout, mem1: Memory, mem2: Memory, dir: nat, v: PageNo, p: PageNo,
                          N: Count, rw: bv8, pl: bv8)
    requires WellFormed(mem0, L0) && dir in L0.dirs && v % 1024 + N <= 1024
    requires MappedTo(mem0, mem1, L0.dirs, dir, v, p, N, rw, pl) && Clear(mem0, dir, v, N)
    requires SameSharing(mem0, mem1, L0.dirs)
    requires UnmapEffect(mem1, mem2, L0.dirs, dir, v / 1024, v % 1024, N)
    ensures forall d, vp :: d in L0.dirs && 0 <= vp < PAGES ==> Walk(mem2, d, vp) == Walk(mem0, d, vp)
  {
    forall d, vp | d in L0.dirs && 0 <= vp < PAGES
      ensures Walk(mem2, d, vp) == Walk(mem0, d, vp)
    {
      assert PageAt(v, 0) == v;
      ChunkPages(v, 0, N, vp);
      assert Walk(mem1, d, vp) == AfterMap(mem0, d, dir, v, p, N, rw, pl, vp);
      assert Sees(mem1, d, dir, vp / 1024) <==> Sees(mem0, d, dir, vp / 1024);
      if Offset(vp, v) < N && Sees(mem0, d, dir, vp / 1024) {
        assert DirEntryOk(L0, mem0[d][vp / 1024], vp / 1024) && DirEntryOk(L0, mem0[dir][vp / 1024], vp / 1024);
        SeesSamePage(mem0, d, dir, vp);
        assert Walk(mem0, dir, PageAt(v, Offset(vp, v))) == Unmapped;
      }
    }
  }
}
