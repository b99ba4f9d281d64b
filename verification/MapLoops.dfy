// The mapping loop: what one iteration does, its invariant, and why it stops.
module MapLoops {
  import opened Machine
  import opened PageTables
  import opened AddressSpace
  import opened MapSteps
  import opened Window
  import opened Effects
  import opened Ledgers

  // The outcome of one iteration of the mapping loop at page vp of directory pdt: n pages mapped.
  // A missing table costs one free frame. If nothing was mapped, the first page was in the way or a
  // table was missing and no frame was free.
  ghost predicate MapStep(mem0: Memory, g0: Ledger, mem1: Memory, g1: Ledger, pdt: nat, vp: nat, n: Count, pp: PageNo,
                          rw: bv8, pl: bv8)
    requires WellFormed(mem0, g0.layout) && pdt in g0.layout.dirs && vp < PAGES
  {
    var i, lo, L0 := vp / 1024, vp % 1024, g0.layout;
    && lo + n <= 1024 && g1.layout.dirs == L0.dirs
    && g1.layout.kernelPdt == L0.kernelPdt && g1.layout.kernelPt == L0.kernelPt
    && Leads(mem0, g0, mem1, g1, L0.dirs - {pdt}) && Sane(mem1, g1) && g1.Owned() == g0.Owned()
    && mem1[L0.kernelPt][1023] == mem0[L0.kernelPt][1023]
    && ChunkEffect(mem0, mem1, L0.dirs, pdt, i, lo, n, pp, rw, pl)
    && SameSharing(mem0, mem1, L0.dirs)
    && (forall d :: d in L0.dirs && d != pdt ==> mem1[d] == mem0[d])
    && (forall j :: 0 <= j < 1024 && (j != i || Present(mem0[pdt][j])) ==> mem1[pdt][j] == mem0[pdt][j])
    && if n > 0 then
         && (forall q :: vp <= q < vp + n ==> q < PAGES && !Blocked(mem0, pdt, q))
         && Tabled(mem1[pdt][i])
         && (if Present(mem0[pdt][i]) then g1 == g0
             else
               && TableTaken(g0, g1, Frame(mem1[pdt][i]), i)
               && mem1[pdt][i] == CreatePdtEntry(Frame(mem1[pdt][i]) * 0x1000, 0, rw, pl))
       else
         && g1.layout == L0 && mem1[pdt][i] == mem0[pdt][i]
         && (if !Present(mem0[pdt][i]) && vp == WINDOW_PAGE && g0.avail != {} then FrameLeaked(g0, g1)
             else if Blocked(mem0, pdt, vp) then g1 == g0
             else g1 == g0 && mem1 == mem0 && g0.avail == {} && !Present(mem0[pdt][i]))
  }

  // After m of N pages: the prefix is mapped, the ledger has paid one frame for each table that was
  // missing on the way, and nothing else has changed.
  ghost predicate MapProgress(mem0: Memory, g0: Ledger, mem: Memory, g: Ledger, pdt: nat, v: PageNo, p: PageNo,
                              N: Count, m: Count, rw: bv8, pl: bv8)
    requires WellFormed(mem0, g0.layout) && pdt in g0.layout.dirs
  {
    && m <= N < PAGES && MapOutcome(mem0, g0, mem, g, pdt, v, p, m, rw, pl)
    && NoLarge(mem, pdt, v, N) && g.data == g0.data && (m == 0 ==> mem == mem0 && g == g0)
    && |Missing(mem, pdt, v, N)| - |g.avail| == |Missing(mem0, pdt, v, N)| - |g0.avail|
  }

  // Why the loop stopped at page m: the page was in the way from the start, or its table is missing and
  // no frame is left.
  ghost predicate Stopped(mem0: Memory, mem: Memory, g: Ledger, pdt: nat, v: PageNo, m: Count)
    requires pdt < PAGES
  {
    Blocked(mem0, pdt, PageAt(v, m)) || (!Present(mem[pdt][PageAt(v, m) / 1024]) && g.avail == {})
  }

  // The variables of the mapping loop, and what the loop was started on.
  datatype MapLoop = MapLoop(paddr: u32, vaddr: u32, size: u32, total: u32)

  datatype MapJob = MapJob(mem0: Memory, g0: Ledger, v: PageNo, p: PageNo, N: Count)

  // The loop's variables after m pages.
  ghost predicate CursorAt(at: MapLoop, v: PageNo, p: PageNo, N: Count, m: Count)
  {
    && m <= N && at.total == m * 0x1000 && at.size == (N - m) * 0x1000
    && InPage(at.vaddr, v, m) && InPage(at.paddr, p, m)
  }

  function Done(at: MapLoop): Count
  {
    at.total / 0x1000
  }

  ghost predicate MapInvariant(job: MapJob, at: MapLoop, mem: Memory, g: Ledger, pdt: nat, rw: bv8, pl: bv8)
  {
    && WellFormed(job.mem0, job.g0.layout) && pdt in job.g0.layout.dirs && job.N < PAGES
    && CursorAt(at, job.v, job.p, job.N, Done(at))
    && MapProgress(job.mem0, job.g0, mem, g, pdt, job.v, job.p, job.N, Done(at), rw, pl)
  }

  ghost predicate MapFailure(job: MapJob, at: MapLoop, mem: Memory, g: Ledger, pdt: nat, rw: bv8, pl: bv8)
  {
    && WellFormed(job.mem0, job.g0.layout) && pdt in job.g0.layout.dirs && Done(at) <= job.N
    && MapOutcome(job.mem0, job.g0, mem, g, pdt, job.v, job.p, Done(at), rw, pl)
    && Done(at) < job.N && Stopped(job.mem0, mem, g, pdt, job.v, Done(at))
    && !Mappable(job.mem0, job.g0, pdt, job.v, job.N)
  }

  lemma MapStarts(job: MapJob, at: MapLoop, pdt: nat, rw: bv8, pl: bv8)
    requires Sane(job.mem0, job.g0) && pdt in job.g0.layout.dirs && NoLarge(job.mem0, pdt, job.v, job.N)
      && job.N < PAGES
    requires at.total == 0 && at.size == job.N * 0x1000 && at.vaddr / 0x1000 == job.v && at.paddr / 0x1000 == job.p
    ensures MapInvariant(job, at, job.mem0, job.g0, pdt, rw, pl)
  {
    LeadsSelf(job.mem0, job.g0, job.g0.layout.dirs - {pdt});
    EmptyPrefix(job.mem0, job.g0.layout.dirs, pdt, job.v, job.p, rw, pl);
  }

  lemma MapReady(job: MapJob, at: MapLoop, mem: Memory, g: Ledger, pdt: nat, rw: bv8, pl: bv8)
    requires MapInvariant(job, at, mem, g, pdt, rw, pl) && at.size > 0
    ensures pdt in g.layout.dirs && at.size % 0x1000 == 0 && pdt < PAGES
      && !LargePage(mem[pdt][at.vaddr / 0x1000 / 1024])
  {
    Multiple(at.size, job.N - Done(at));
    assert !LargePage(mem[pdt][PageAt(job.v, Done(at)) / 1024]);
    EntryOfPage(at.vaddr, job.v, Done(at));
  }

  function Advance(at: MapLoop, mappedSize: u32): MapLoop
    requires mappedSize <= at.size
  {
    MapLoop(Wrap(at.paddr as int + mappedSize as int), Wrap(at.vaddr as int + mappedSize as int),
            at.size - mappedSize, Wrap(at.total as int + mappedSize as int))
  }

  lemma CursorMoves(at: MapLoop, v: PageNo, p: PageNo, N: Count, m: Count, n: Count)
    requires CursorAt(at, v, p, N, m) && m + n <= N < PAGES
    ensures CursorAt(Advance(at, n * 0x1000), v, p, N, m + n) && Done(Advance(at, n * 0x1000)) == m + n
  {
    var next := Advance(at, n * 0x1000);
    Multiple(next.total, m + n);
    NextPages(at.vaddr, v, m, n * 0x1000, m + n, next.vaddr);
    NextPages(at.paddr, p, m, n * 0x1000, m + n, next.paddr);
  }

  lemma MapIterates(job: MapJob, at: MapLoop, next: MapLoop, mem: Memory, g: Ledger, mem': Memory, g': Ledger, pdt: nat,
                    n: Count, rw: bv8, pl: bv8)
    requires MapInvariant(job, at, mem, g, pdt, rw, pl) && at.size > 0 && n * 0x1000 <= at.size
    requires pdt in g.layout.dirs && WellFormed(mem, g.layout)
    requires MapStep(mem, g, mem', g', pdt, at.vaddr / 0x1000, n, at.paddr / 0x1000, rw, pl)
    requires next == Advance(at, n * 0x1000)
    ensures n > 0 ==> MapInvariant(job, next, mem', g', pdt, rw, pl)
    ensures n == 0 ==> MapFailure(job, at, mem', g', pdt, rw, pl)
  {
    hide MapProgress, MapStep, MapOutcome, Stopped, Mappable;
    var m := Done(at);
    if n == 0 {
      MapStops(job.mem0, job.g0, mem, g, mem', g', pdt, job.v, job.p, job.N, m, at.vaddr / 0x1000,
        at.paddr / 0x1000, rw, pl);
    } else {
      CursorMoves(at, job.v, job.p, job.N, m, n);
      MapAdvances(job.mem0, job.g0, mem, g, mem', g', pdt, job.v, job.p, job.N, m, Done(next), at.vaddr / 0x1000,
        at.paddr / 0x1000, rw, pl);
    }
  }

  lemma OutcomeAdvances(mem0: Memory, g0: Ledger, mem: Memory, g: Ledger, mem': Memory, g': Ledger, pdt: nat, v: PageNo,
                        p: PageNo, m: Count, m': Count, vp: PageNo, pp: PageNo, rw: bv8, pl: bv8)
    requires WellFormed(mem0, g0.layout) && pdt in g0.layout.dirs && m < m' && vp == PageAt(v, m) && pp == PageAt(p, m)
    requires MapOutcome(mem0, g0, mem, g, pdt, v, p, m, rw, pl)
    requires MapStep(mem, g, mem', g', pdt, vp, m' - m, pp, rw, pl)
    ensures MapOutcome(mem0, g0, mem', g', pdt, v, p, m', rw, pl)
  {
    LeadsTransitive(mem0, g0, mem, g, mem', g', g0.layout.dirs - {pdt});
    ExtendPrefix(mem0, mem, mem', g0.layout.dirs, pdt, v, p, m, m' - m, rw, pl);
    ExtendClear(mem0, mem, g0.layout.dirs, pdt, v, p, m, m' - m, rw, pl);
    UntouchedStep(mem0, mem, mem', pdt, v, m, m' - m);
    forall k | 0 <= k < m'
      ensures Tabled(mem'[pdt][PageAt(v, k) / 1024])
    {
      if k >= m {
        PageInChunk(v, m, m' - m, k);
      }
    }
  }

  lemma MapAdvances(mem0: Memory, g0: Ledger, mem: Memory, g: Ledger, mem': Memory, g': Ledger, pdt: nat, v: PageNo,
                    p: PageNo, N: Count, m: Count, m': Count, vp: PageNo, pp: PageNo, rw: bv8, pl: bv8)
    requires WellFormed(mem0, g0.layout) && pdt in g0.layout.dirs && m < m' <= N && vp == PageAt(v, m)
      && pp == PageAt(p, m)
    requires MapProgress(mem0, g0, mem, g, pdt, v, p, N, m, rw, pl)
    requires MapStep(mem, g, mem', g', pdt, vp, m' - m, pp, rw, pl)
    ensures MapProgress(mem0, g0, mem', g', pdt, v, p, N, m', rw, pl)
  {
    OutcomeAdvances(mem0, g0, mem, g, mem', g', pdt, v, p, m, m', vp, pp, rw, pl);
    MissingStep(mem, mem', pdt, v, N, m);
    NoLargeStep(mem, mem', pdt, v, N, vp / 1024);
  }

  lemma MapFinishes(job: MapJob, at: MapLoop, mem: Memory, g: Ledger, pdt: nat, rw: bv8, pl: bv8)
    requires MapInvariant(job, at, mem, g, pdt, rw, pl) && at.size == 0
    ensures at.total == job.N * 0x1000 && Done(at) == job.N && g.data == job.g0.data
    ensures Mappable(job.mem0, job.g0, pdt, job.v, job.N)
    ensures |g.avail| == |job.g0.avail| - |Missing(job.mem0, pdt, job.v, job.N)|
    ensures MapOutcome(job.mem0, job.g0, mem, g, pdt, job.v, job.p, job.N, rw, pl)
  {
    assert Missing(mem, pdt, job.v, job.N) == {};
  }

  lemma MapStops(mem0: Memory, g0: Ledger, mem: Memory, g: Ledger, mem': Memory, g': Ledger, pdt: nat, v: PageNo,
                 p: PageNo, N: Count, m: Count, vp: PageNo, pp: PageNo, rw: bv8, pl: bv8)
    requires WellFormed(mem0, g0.layout) && pdt in g0.layout.dirs && m < N && vp == PageAt(v, m) && pp == PageAt(p, m)
    requires MapProgress(mem0, g0, mem, g, pdt, v, p, N, m, rw, pl)
    requires MapStep(mem, g, mem', g', pdt, vp, 0, pp, rw, pl)
    ensures MapOutcome(mem0, g0, mem', g', pdt, v, p, m, rw, pl)
    ensures !Mappable(mem0, g0, pdt, v, N) && Stopped(mem0, mem', g', pdt, v, m)
  {
    hide Leads, MapOutcome, MapStep, Mappable, Stopped, Missing, NoLarge;
    OutcomeStays(mem0, g0, mem, g, mem', g', pdt, v, p, m, vp, pp, rw, pl);
    WhyStopped(mem0, g0, mem, g, mem', g', pdt, v, p, N, m, vp, pp, rw, pl);
  }

  lemma OutcomeStays(mem0: Memory, g0: Ledger, mem: Memory, g: Ledger, mem': Memory, g': Ledger, pdt: nat, v: PageNo,
                     p: PageNo, m: Count, vp: PageNo, pp: PageNo, rw: bv8, pl: bv8)
    requires WellFormed(mem0, g0.layout) && pdt in g0.layout.dirs && m < PAGES && vp == PageAt(v, m)
      && pp == PageAt(p, m)
    requires MapOutcome(mem0, g0, mem, g, pdt, v, p, m, rw, pl) && (m == 0 ==> mem == mem0 && g == g0)
    requires MapStep(mem, g, mem', g', pdt, vp, 0, pp, rw, pl)
    ensures MapOutcome(mem0, g0, mem', g', pdt, v, p, m, rw, pl)
  {
    hide Leads, Mappable;
    LeadsTransitive(mem0, g0, mem, g, mem', g', g0.layout.dirs - {pdt});
    ExtendPrefix(mem0, mem, mem', g0.layout.dirs, pdt, v, p, m, 0, rw, pl);
  }

  lemma WhyStopped(mem0: Memory, g0: Ledger, mem: Memory, g: Ledger, mem': Memory, g': Ledger, pdt: nat, v: PageNo,
                   p: PageNo, N: Count, m: Count, vp: PageNo, pp: PageNo, rw: bv8, pl: bv8)
    requires WellFormed(mem0, g0.layout) && pdt in g0.layout.dirs && m < N && vp == PageAt(v, m) && pp == PageAt(p, m)
    requires MapProgress(mem0, g0, mem, g, pdt, v, p, N, m, rw, pl)
    requires MapStep(mem, g, mem', g', pdt, vp, 0, pp, rw, pl)
    ensures !Mappable(mem0, g0, pdt, v, N) && Stopped(mem0, mem', g', pdt, v, m)
  {
    hide Leads, SameSharing, SharingOk, WindowOk, TablesOk, DirsOk, Walk, ChunkEffect;
    PageAfterPrefix(mem0, mem, g0.layout.dirs, pdt, v, p, m, rw, pl);
    var i := vp / 1024;
    if !Blocked(mem, pdt, vp) {
      assert Touches(v, N, i);
      assert i in Missing(mem, pdt, v, N);
    }
  }

  // The memory while the window shows table t: a new table has been cleared.
  function OpenedOn(mem0: Memory, kernelPt: nat, t: nat, isNew: bool): Memory
    requires kernelPt < PAGES && t < PAGES
  {
    var m := SetWindow(mem0, kernelPt, CreatePtEntry(t * 0x1000, 1, 0));
    if isNew then m[t := ZeroTable()] else m
  }

  ghost predicate MapTarget(mem0: Memory, L0: Layout, pdt: nat, i: nat, t: nat, isNew: bool)
  {
    && WellFormed(mem0, L0) && pdt in L0.dirs && i < 1024
    && if isNew then !Present(mem0[pdt][i]) && 0 < t < PAGES && t !in L0.dirs && t !in L0.tables
       else Tabled(mem0[pdt][i]) && t == Frame(mem0[pdt][i])
  }

  lemma NoFrame(mem: Memory, g: Ledger, pdt: nat, vp: nat, pp: PageNo, rw: bv8, pl: bv8)
    requires Sane(mem, g) && pdt in g.layout.dirs && vp < PAGES
    requires !Present(mem[pdt][vp / 1024]) && g.avail == {}
    ensures MapStep(mem, g, mem, g, pdt, vp, 0, pp, rw, pl)
  {
    LeadsSelf(mem, g, g.layout.dirs - {pdt});
    AbsentIsUnmapped(mem, pdt, vp / 1024, vp % 1024);
    assert vp == vp / 1024 * 1024 + vp % 1024;
  }

  lemma TakenAndWritten(mem0: Memory, g0: Ledger, t: nat, mem1: Memory, g1: Ledger, keep: set<nat>)
    requires Sane(mem0, g0) && t in g0.avail && mem1 == mem0[t := ZeroTable()]
    requires g1 == Ledger(g0.layout, g0.avail - {t}, g0.data + {t})
    ensures Leads(mem0, g0, mem1, g1, keep)
  {
    LeadsBy(mem0, g0, TakeFrames({t}), mem0, g1, keep);
    LeadsBy(mem0, g1, WriteFrame(t, ZeroTable()), mem1, g1, keep);
    LeadsTransitive(mem0, g0, mem0, g1, mem1, g1, keep);
  }

  // A run that was blocked at its first slot changed nothing that a walk can see.
  lemma MapBlocked(mem0: Memory, g0: Ledger, pdt: nat, vp: nat, t: nat, isNew: bool, open: Memory, pp: PageNo, rw: bv8,
                   pl: bv8, mem1: Memory, g1: Ledger)
    requires Sane(mem0, g0) && vp < PAGES && MapTarget(mem0, g0.layout, pdt, vp / 1024, t, isNew)
    requires open == OpenedOn(mem0, g0.layout.kernelPt, t, isNew)
    requires mem1 == SetWindow(open[t := MapRange(open[t], vp % 1024, 0, pp, rw, pl)], g0.layout.kernelPt,
      mem0[g0.layout.kernelPt][1023])
    requires Present(open[t][vp % 1024]) || (vp / 1024 == 768 && vp % 1024 == 1023)
    requires isNew ==> t in g0.avail
    requires g1 == if isNew then Ledger(g0.layout, g0.avail - {t}, g0.data + {t}) else g0
    ensures MapStep(mem0, g0, mem1, g1, pdt, vp, 0, pp, rw, pl)
  {
    var i, lo, L0 := vp / 1024, vp % 1024, g0.layout;
    assert vp == i * 1024 + lo;
    assert DirEntryOk(L0, mem0[pdt][i], i);
    EmptyRange(open, t, lo, pp, rw, pl);
    var e := CreatePtEntry(t * 0x1000, 1, 0);
    if isNew {
      WriteThroughWindow(mem0, L0.kernelPt, e, t, ZeroTable());
      RewriteOther(mem0, L0, t, ZeroTable());
      TakenAndWritten(mem0, g0, t, mem1, g1, L0.dirs - {pdt});
      assert open[t][lo] == ZERO_ENTRY;
    } else {
      WindowCloses(mem0, L0.kernelPt, e);
      LeadsSelf(mem0, g0, L0.dirs - {pdt});
      SlotIsPage(mem0, L0, pdt, i, lo);
    }
    assert Blocked(mem0, pdt, vp);
  }

  // A run of n absent slots of the opened table that starts at page vp and stays below the window's slot.
  ghost predicate RunReady(mem0: Memory, L0: Layout, vp: nat, t: nat, isNew: bool, open: Memory, n: Count)
    requires L0.kernelPt < PAGES && t < PAGES
  {
    && 0 < n && vp % 1024 + n <= 1024 && (vp / 1024 == 768 ==> vp % 1024 + n <= 1023)
    && open == OpenedOn(mem0, L0.kernelPt, t, isNew)
    && forall j :: vp % 1024 <= j < vp % 1024 + n ==> !Present(open[t][j])
  }

  // A run of n slots in a new table: the table is filled and linked, and the window is as before.
  lemma MapDoneNew(mem0: Memory, g0: Ledger, pdt: nat, vp: nat, t: nat, open: Memory, n: Count, pp: PageNo, rw: bv8,
                   pl: bv8, mem1: Memory, g1: Ledger)
    requires Sane(mem0, g0) && vp < PAGES && MapTarget(mem0, g0.layout, pdt, vp / 1024, t, true) && t in g0.avail
    requires RunReady(mem0, g0.layout, vp, t, true, open, n)
    requires mem1 == SetWindow(WithRun(open, pdt, vp / 1024, t, true, vp % 1024, n, pp, rw, pl), g0.layout.kernelPt,
      mem0[g0.layout.kernelPt][1023])
    requires g1 == Ledger(AddTable(g0.layout, t, vp / 1024), g0.avail - {t}, g0.data)
    ensures Sane(mem1, g1) && MapStep(mem0, g0, mem1, g1, pdt, vp, n, pp, rw, pl)
  {
    hide Leads, SharingOk, WindowOk, TablesOk;
    var i, lo, L0 := vp / 1024, vp % 1024, g0.layout;
    var e, filled := CreatePtEntry(t * 0x1000, 1, 0), MapRange(ZeroTable(), lo, n, pp, rw, pl);
    assert DirEntryOk(L0, mem0[pdt][i], i);
    NewTableThroughWindow(mem0, L0.kernelPt, e, pdt, i, t, filled, rw, pl);
    assert mem1 == Link(mem0, pdt, i, t, filled, rw, pl);
    LeadsBy(mem0, g0, NewTable(pdt, i, t, lo, n, pp, rw, pl), mem1, g1, L0.dirs - {pdt});
    ChunkThroughNewTable(mem0, L0, pdt, i, t, lo, n, pp, rw, pl);
    LinkTable(mem0, L0, pdt, i, t, filled, rw, pl) by { RangeIsSound(ZeroTable(), lo, n, pp, rw, pl); }
    SharingKept(mem0, mem1, L0, AddTable(L0, t, i), pdt, i);
    RunNotBlocked(mem0, L0, pdt, vp, t, true, open, n);
  }

  // A run of n slots in a table that is there: the range is filled, and the window is as before.
  lemma MapDoneOld(mem0: Memory, g0: Ledger, pdt: nat, vp: nat, t: nat, open: Memory, n: Count, pp: PageNo, rw: bv8,
                   pl: bv8, mem1: Memory)
    requires Sane(mem0, g0) && vp < PAGES && MapTarget(mem0, g0.layout, pdt, vp / 1024, t, false)
    requires RunReady(mem0, g0.layout, vp, t, false, open, n)
    requires mem1 == SetWindow(WithRun(open, pdt, vp / 1024, t, false, vp % 1024, n, pp, rw, pl), g0.layout.kernelPt,
      mem0[g0.layout.kernelPt][1023])
    ensures Sane(mem1, g0) && MapStep(mem0, g0, mem1, g0, pdt, vp, n, pp, rw, pl)
  {
    hide Leads, SharingOk, WindowOk, TablesOk;
    var i, lo, L0 := vp / 1024, vp % 1024, g0.layout;
    var e := CreatePtEntry(t * 0x1000, 1, 0);
    assert DirEntryOk(L0, mem0[pdt][i], i);
    MapThroughWindow(mem0, L0.kernelPt, e, t, lo, n, pp, rw, pl);
    FilledSlots(mem0, g0, pdt, i, t, lo, n, pp, rw, pl, open, mem1);
    ChunkThroughTable(mem0, L0, pdt, i, t, lo, n, pp, rw, pl, mem1);
    SharingKept(mem0, mem1, L0, L0, pdt, i);
    RunNotBlocked(mem0, L0, pdt, vp, t, false, open, n);
  }

  lemma MapDone(mem0: Memory, g0: Ledger, pdt: nat, vp: nat, t: nat, isNew: bool, open: Memory, n: Count, pp: PageNo,
                rw: bv8, pl: bv8, mem1: Memory, g1: Ledger)
    requires Sane(mem0, g0) && vp < PAGES && MapTarget(mem0, g0.layout, pdt, vp / 1024, t, isNew)
    requires RunReady(mem0, g0.layout, vp, t, isNew, open, n)
    requires mem1 == SetWindow(WithRun(open, pdt, vp / 1024, t, isNew, vp % 1024, n, pp, rw, pl), g0.layout.kernelPt,
      mem0[g0.layout.kernelPt][1023])
    requires isNew ==> t in g0.avail
    requires g1 == if isNew then Ledger(AddTable(g0.layout, t, vp / 1024), g0.avail - {t}, g0.data) else g0
    ensures Sane(mem1, g1) && MapStep(mem0, g0, mem1, g1, pdt, vp, n, pp, rw, pl)
  {
    hide MapStep, Sane, RunReady, WithRun, MapTarget;
    if isNew {
      MapDoneNew(mem0, g0, pdt, vp, t, open, n, pp, rw, pl, mem1, g1);
    } else {
      MapDoneOld(mem0, g0, pdt, vp, t, open, n, pp, rw, pl, mem1);
    }
  }

  lemma FilledSlots(mem0: Memory, g0: Ledger, pdt: nat, i: nat, t: nat, lo: nat, n: Count, pp: PageNo, rw: bv8, pl: bv8,
                    open: Memory, mem1: Memory)
    requires Sane(mem0, g0) && MapTarget(mem0, g0.layout, pdt, i, t, false) && SlotRun(i, lo, n)
    requires open == OpenedOn(mem0, g0.layout.kernelPt, t, false)
      && mem1 == mem0[t := MapRange(mem0[t], lo, n, pp, rw, pl)]
    requires forall j :: lo <= j < lo + n ==> !Present(open[t][j])
    ensures Leads(mem0, g0, mem1, g0, g0.layout.dirs - {pdt})
  {
    assert DirEntryOk(g0.layout, mem0[pdt][i], i);
    forall j | lo <= j < lo + n
      ensures !Present(mem0[t][j])
    {
      assert open[t][j] == mem0[t][j];
    }
    LeadsBy(mem0, g0, FillSlots(pdt, i, lo, n, pp, rw, pl), mem1, g0, g0.layout.dirs - {pdt});
  }

  function WithRun(open: Memory, pdt: nat, i: nat, t: nat, isNew: bool, lo: nat, n: Count, pp: PageNo, rw: bv8,
                   pl: bv8): Memory
    requires pdt < PAGES && t < PAGES && i < 1024
  {
    var filled := open[t := MapRange(open[t], lo, n, pp, rw, pl)];
    if isNew then filled[pdt := filled[pdt][i := CreatePdtEntry(t * 0x1000, 0, rw, pl)]] else filled
  }

  lemma RunNotBlocked(mem0: Memory, L0: Layout, pdt: nat, vp: nat, t: nat, isNew: bool, open: Memory, n: Count)
    requires vp < PAGES && MapTarget(mem0, L0, pdt, vp / 1024, t, isNew)
    requires RunReady(mem0, L0, vp, t, isNew, open, n)
    ensures forall q :: vp <= q < vp + n ==> q < PAGES && !Blocked(mem0, pdt, q)
  {
    var i := vp / 1024;
    assert DirEntryOk(L0, mem0[pdt][i], i);
    assert vp == i * 1024 + vp % 1024;
    forall q | vp <= q < vp + n
      ensures q < PAGES && !Blocked(mem0, pdt, q)
    {
      var j := q - i * 1024;
      if isNew {
        AbsentIsUnmapped(mem0, pdt, i, j);
      } else {
        SlotIsPage(mem0, L0, pdt, i, j);
        assert open[t][j] == mem0[t][j];
      }
    }
  }

  lemma EmptyRange(mem: Memory, w: nat, lo: nat, pp: PageNo, rw: bv8, pl: bv8)
    requires w < PAGES
    ensures mem[w := MapRange(mem[w], lo, 0, pp, rw, pl)] == mem
  {
    assert MapRange(mem[w], lo, 0, pp, rw, pl) == mem[w];
  }

  lemma ExtendRange(t: Table, lo: nat, k: nat, pp: PageNo, rw: bv8, pl: bv8, paddr: u32)
    requires lo + k < 1024 && paddr / 0x1000 == PageAt(pp, k)
    ensures MapRange(t, lo, k, pp, rw, pl)[lo + k := CreatePtEntry(paddr, rw, pl)] == MapRange(t, lo, k + 1, pp, rw, pl)
  {
    assert CreatePtEntry(paddr, rw, pl) == FrameEntry(PageAt(pp, k), rw, pl);
  }

  lemma NextPage(a: u32, p: PageNo, k: nat)
    requires k < PAGES && a / 0x1000 == PageAt(p, k)
    ensures Wrap(a as int + 0x1000) / 0x1000 == PageAt(p, k + 1)
  {
  }

  // Address a lies in the k-th page from page v on.
  ghost predicate InPage(a: u32, v: PageNo, k: Count)
  {
    a / 0x1000 == PageAt(v, k)
  }

  lemma NextPages(a: u32, v: PageNo, m: Count, step: u32, m': Count, b: u32)
    requires InPage(a, v, m) && b == Wrap(a as int + step as int) && m <= m' && step == (m' - m) * 0x1000
    ensures InPage(b, v, m')
  {
    var x := a / 0x1000;
    assert a == x * 0x1000 + a % 0x1000;
    assert b / 0x1000 == (x + (m' - m)) % 0x10_0000;
  }

  lemma Multiple(size: u32, k: nat)
    requires size == k * 0x1000
    ensures size % 0x1000 == 0 && size / 0x1000 == k
  {
  }

  lemma EntryOfPage(a: u32, v: PageNo, k: Count)
    requires InPage(a, v, k)
    ensures a / 0x1000 / 1024 == PageAt(v, k) / 1024
  {
  }
}
