// The elementary effects of the kernel on physical memory and on who holds which frame. Every paging
// operation is a sequence of them, and each of them keeps frames and address spaces in order.
module Effects {
  import opened Machine
  import opened PageTables
  import opened AddressSpace
  import opened MapSteps
  import opened Directories

  // Who holds which frame: directories and page tables, free frames, and frames handed out for data.
  datatype Ledger = Ledger(layout: Layout, avail: set<nat>, data: set<nat>) {
    ghost function Owned(): set<nat>
    {
      avail + layout.dirs + layout.tables.Keys + data
    }

    // No frame has two roles.
    ghost predicate Separate()
    {
      && avail !! layout.dirs && avail !! layout.tables.Keys && avail !! data
      && data !! layout.dirs && data !! layout.tables.Keys
    }
  }

  ghost predicate Sane(mem: Memory, g: Ledger)
  {
    WellFormed(mem, g.layout) && g.Separate() && forall f :: f in g.avail ==> 0 < f < PAGES
  }

  datatype PagingState = PagingState(mem: Memory, g: Ledger)

  ghost predicate Ok(s: PagingState)
  {
    Sane(s.mem, s.g)
  }

  // Filling or clearing slots of a linked table, linking a free frame as a new table, clearing a whole
  // table and freeing its frame, making a data frame a directory, copying the kernel's entries into a
  // directory, taking frames for data and giving one back, and writing to a frame that is no directory
  // and no table.
  datatype Effect =
    | FillSlots(dir: nat, i: nat, lo: nat, n: Count, p: PageNo, rw: bv8, pl: bv8)
    | NewTable(dir: nat, i: nat, t: nat, lo: nat, n: Count, p: PageNo, rw: bv8, pl: bv8)
    | ClearSlots(dir: nat, i: nat, lo: nat, n: Count)
    | FreeTable(dir: nat, i: nat)
    | NewDir(d: nat)
    | LoadDir(d: nat)
    | TakeFrames(run: set<nat>)
    | GiveFrame(f: nat)
    | WriteFrame(f: nat, contents: Table)

  // A run of slots of one table that avoids the window's slot.
  predicate SlotRun(i: nat, lo: nat, n: Count)
  {
    i < 1024 && lo + n <= 1024 && (i == 768 ==> lo + n <= 1023)
  }

  // The whole table at index i of directory dir is cleared, its entry too, and its frame is free again,
  // whoever else uses the table.
  ghost function TableFreed(s: PagingState, dir: nat, i: nat): PagingState
    requires dir < PAGES && i < 1024
  {
    var f := Frame(s.mem[dir][i]);
    PagingState(Unlink(s.mem[f := ClearRange(s.mem[f], 0, 1024)], dir, i),
                Ledger(RemoveTable(s.g.layout, f), s.g.avail + {f}, s.g.data))
  }

  // Another directory uses the table at index i of directory dir.
  ghost predicate UsedElsewhere(mem: Memory, dirs: set<nat>, dir: nat, i: nat)
    requires InRange(dirs) && dir in dirs && i < 1024
  {
    exists d :: d in dirs && d != dir && Sees(mem, d, dir, i)
  }

  ghost predicate FreesShared(s: PagingState, e: Effect)
  {
    e.FreeTable? && InRange(s.g.layout.dirs) && e.dir in s.g.layout.dirs && e.i < 1024
    && UsedElsewhere(s.mem, s.g.layout.dirs, e.dir, e.i)
  }

  // The directory an effect works on, if it works on one.
  function Target(e: Effect): set<nat>
  {
    match e
    case FillSlots(dir, _, _, _, _, _, _) => {dir}
    case NewTable(dir, _, _, _, _, _, _, _) => {dir}
    case ClearSlots(dir, _, _, _) => {dir}
    case FreeTable(dir, _) => {dir}
    case NewDir(_) => {}
    case LoadDir(d) => {d}
    case TakeFrames(_) => {}
    case GiveFrame(_) => {}
    case WriteFrame(_, _) => {}
  }

  // What effect e makes of state s. Nothing is said about the state as a whole.
  ghost predicate Does(s: PagingState, e: Effect, t: PagingState)
  {
    var mem, g, L := s.mem, s.g, s.g.layout;
    match e
    case FillSlots(dir, i, lo, n, p, rw, pl) =>
      && dir in L.dirs && dir < PAGES && SlotRun(i, lo, n) && Tabled(mem[dir][i])
      && var f := Frame(mem[dir][i]);
      && (forall j :: lo <= j < lo + n ==> !Present(mem[f][j]))
      && t == PagingState(mem[f := MapRange(mem[f], lo, n, p, rw, pl)], g)
    case NewTable(dir, i, f, lo, n, p, rw, pl) =>
      && dir in L.dirs && dir < PAGES && SlotRun(i, lo, n) && !Present(mem[dir][i]) && f in g.avail && f < PAGES
      && t == PagingState(Link(mem, dir, i, f, MapRange(ZeroTable(), lo, n, p, rw, pl), rw, pl),
                          Ledger(AddTable(L, f, i), g.avail - {f}, g.data))
    case ClearSlots(dir, i, lo, n) =>
      && dir in L.dirs && dir < PAGES && SlotRun(i, lo, n) && Tabled(mem[dir][i])
      && var f := Frame(mem[dir][i]);
      t == PagingState(mem[f := ClearRange(mem[f], lo, n)], g)
    case FreeTable(dir, i) =>
      && dir in L.dirs && dir < PAGES && i < 1024 && i != 768 && Tabled(mem[dir][i])
      && t == TableFreed(s, dir, i)
    case NewDir(d) =>
      && d in g.data && 0 < d < PAGES
      && t == PagingState(mem[d := ZeroTable()], Ledger(AddDir(L, d), g.avail, g.data - {d}))
    case LoadDir(d) =>
      && d in L.dirs && d < PAGES && L.kernelPdt < PAGES
      && t == PagingState(mem[d := Loaded(mem[d], mem[L.kernelPdt])], g)
    case TakeFrames(run) =>
      run <= g.avail && t == PagingState(mem, Ledger(L, g.avail - run, g.data + run))
    case GiveFrame(f) =>
      f in g.data && 0 < f < PAGES && t == PagingState(mem, Ledger(L, g.avail + {f}, g.data - {f}))
    case WriteFrame(f, contents) =>
      f < PAGES && f !in L.dirs && f !in L.tables && t == PagingState(mem[f := contents], g)
  }

  // What stays: no frame has two roles, directories and tables are well formed, tables are shared only by
  // copying the kernel's entries, the frames in use are the same, and the window's slot is as it was.
  ghost predicate Same(s: PagingState, t: PagingState)
  {
    && Ok(t) && t.g.Owned() == s.g.Owned()
    && t.g.layout.kernelPdt == s.g.layout.kernelPdt && t.g.layout.kernelPt == s.g.layout.kernelPt
    && s.g.layout.dirs <= t.g.layout.dirs
    && s.g.layout.kernelPt < PAGES && t.mem[s.g.layout.kernelPt][1023] == s.mem[s.g.layout.kernelPt][1023]
  }

  // An effect keeps everything in order, unless it frees a table that another directory uses: then, and only
  // then, it does not.
  lemma EffectKeeps(s: PagingState, e: Effect, t: PagingState)
    requires Ok(s) && Does(s, e, t)
    ensures Ok(t) <==> !FreesShared(s, e)
    ensures !FreesShared(s, e) ==> Same(s, t)
  {
    var mem, g, L := s.mem, s.g, s.g.layout;
    match e
    case FillSlots(dir, i, lo, n, p, rw, pl) => FillKeeps(s, dir, i, lo, n, p, rw, pl, t);
    case NewTable(dir, i, f, lo, n, p, rw, pl) => NewTableKeeps(s, dir, i, f, lo, n, p, rw, pl, t);
    case ClearSlots(dir, i, lo, n) => ClearKeeps(s, dir, i, lo, n, t);
    case FreeTable(dir, i) => FreeKeeps(s, dir, i);
    case NewDir(d) => AddDirectory(mem, L, d, t.mem);
    case LoadDir(d) => LoadDirectory(mem, L, d);
    case TakeFrames(run) =>
    case GiveFrame(f) =>
    case WriteFrame(f, contents) => RewriteOther(mem, L, f, contents);
  }

  lemma FillKeeps(s: PagingState, dir: nat, i: nat, lo: nat, n: Count, p: PageNo, rw: bv8, pl: bv8, t: PagingState)
    requires Ok(s) && Does(s, FillSlots(dir, i, lo, n, p, rw, pl), t)
    ensures Same(s, t)
  {
    var f := Frame(s.mem[dir][i]);
    assert DirEntryOk(s.g.layout, s.mem[dir][i], i);
    ChunkThroughTable(s.mem, s.g.layout, dir, i, f, lo, n, p, rw, pl, t.mem);
  }

  lemma NewTableKeeps(s: PagingState, dir: nat, i: nat, f: nat, lo: nat, n: Count, p: PageNo, rw: bv8, pl: bv8,
                      t: PagingState)
    requires Ok(s) && Does(s, NewTable(dir, i, f, lo, n, p, rw, pl), t)
    ensures Same(s, t)
  {
    ChunkThroughNewTable(s.mem, s.g.layout, dir, i, f, lo, n, p, rw, pl);
  }

  lemma ClearKeeps(s: PagingState, dir: nat, i: nat, lo: nat, n: Count, t: PagingState)
    requires Ok(s) && Does(s, ClearSlots(dir, i, lo, n), t)
    ensures Same(s, t)
  {
    var f := Frame(s.mem[dir][i]);
    assert DirEntryOk(s.g.layout, s.mem[dir][i], i);
    ClearThroughTable(s.mem, s.g.layout, dir, i, f, lo, n, t.mem);
  }

  // Freeing a table keeps order exactly if no other directory uses it. Otherwise that directory is left with
  // an entry for a frame that is free.
  lemma FreeKeeps(s: PagingState, dir: nat, i: nat)
    requires Ok(s) && dir in s.g.layout.dirs && i < 1024 && i != 768 && Tabled(s.mem[dir][i])
    ensures Ok(TableFreed(s, dir, i)) <==> !UsedElsewhere(s.mem, s.g.layout.dirs, dir, i)
    ensures !UsedElsewhere(s.mem, s.g.layout.dirs, dir, i) ==> Same(s, TableFreed(s, dir, i))
  {
    var f, L, t := Frame(s.mem[dir][i]), s.g.layout, TableFreed(s, dir, i);
    assert DirEntryOk(L, s.mem[dir][i], i);
    if UsedElsewhere(s.mem, L.dirs, dir, i) {
      var d :| d in L.dirs && d != dir && Sees(s.mem, d, dir, i);
      StaleEntry(s, dir, i, d);
    } else {
      ClearAndUnlink(s.mem, L, dir, i, f, s.mem[f := ClearRange(s.mem[f], 0, 1024)], t.mem);
    }
  }

  lemma StaleEntry(s: PagingState, dir: nat, i: nat, d: nat)
    requires Ok(s) && dir in s.g.layout.dirs && i < 1024 && Tabled(s.mem[dir][i])
    requires d in s.g.layout.dirs && d != dir && Sees(s.mem, d, dir, i)
    ensures
      var t := TableFreed(s, dir, i);
      !Ok(t) && Tabled(t.mem[d][i]) && Frame(t.mem[d][i]) in t.g.avail
  {
    var t := TableFreed(s, dir, i);
    assert DirEntryOk(s.g.layout, s.mem[dir][i], i);
    assert t.mem[d] == s.mem[d];
    assert FramesSeparate(t.g.layout) ==> !DirEntryOk(t.g.layout, t.mem[d][i], i);
  }

  // A sequence of effects es leads through the states of path.
  ghost predicate Path(path: seq<PagingState>, es: seq<Effect>)
  {
    |path| == |es| + 1 && forall k :: 0 <= k < |es| ==> Does(path[k], es[k], path[k + 1])
  }

  // None of the effects frees a table that is used elsewhere, and none works on a directory in keep.
  ghost predicate Sparing(path: seq<PagingState>, es: seq<Effect>, keep: set<nat>)
    requires |path| == |es| + 1
  {
    forall k :: 0 <= k < |es| ==> !FreesShared(path[k], es[k]) && Target(es[k]) !! keep
  }

  // State t comes about from s by effects that spare the directories in keep.
  ghost predicate Reaches(s: PagingState, t: PagingState, keep: set<nat>)
  {
    exists path, es :: Path(path, es) && path[0] == s && path[|es|] == t && Sparing(path, es, keep)
  }

  lemma ReachesSelf(s: PagingState, keep: set<nat>)
    ensures Reaches(s, s, keep)
  {
    assert Path([s], []) && Sparing([s], [], keep);
  }

  lemma ReachesBy(s: PagingState, e: Effect, t: PagingState, keep: set<nat>)
    requires Does(s, e, t) && !FreesShared(s, e) && Target(e) !! keep
    ensures Reaches(s, t, keep)
  {
    hide Does, FreesShared, Target;
    assert Path([s, t], [e]) && Sparing([s, t], [e], keep);
  }

  lemma ReachesLess(s: PagingState, t: PagingState, keep: set<nat>, less: set<nat>)
    requires Reaches(s, t, keep) && less <= keep
    ensures Reaches(s, t, less)
  {
    hide Does, FreesShared, Target;
    var path, es :| Path(path, es) && path[0] == s && path[|es|] == t && Sparing(path, es, keep);
    assert Sparing(path, es, less);
  }

  lemma ReachesTransitive(s: PagingState, t: PagingState, u: PagingState, keep: set<nat>)
    requires Reaches(s, t, keep) && Reaches(t, u, keep)
    ensures Reaches(s, u, keep)
  {
    hide Does, FreesShared, Target;
    var path, es :| Path(path, es) && path[0] == s && path[|es|] == t && Sparing(path, es, keep);
    var path', es' :| Path(path', es') && path'[0] == t && path'[|es'|] == u && Sparing(path', es', keep);
    var both := path + path'[1..];
    forall k | 0 <= k < |es + es'|
      ensures Does(both[k], (es + es')[k], both[k + 1])
      ensures !FreesShared(both[k], (es + es')[k]) && Target((es + es')[k]) !! keep
    {
      if k >= |es| {
        assert both[k] == path'[k - |es|] && both[k + 1] == path'[k + 1 - |es|];
      }
    }
    assert Path(both, es + es') && Sparing(both, es + es', keep);
  }

  // Along a sequence of effects everything stays in order as long as no table is freed that is used
  // elsewhere.
  lemma {:induction false} PathKeeps(path: seq<PagingState>, es: seq<Effect>, k: nat)
    requires Path(path, es) && Ok(path[0]) && k <= |es|
    requires forall j :: 0 <= j < k ==> !FreesShared(path[j], es[j])
    ensures Same(path[0], path[k])
  {
    hide Does, WellFormed, FreesShared;
    if k == 0 {
      OkSame(path[0]);
    } else {
      PathKeeps(path, es, k - 1);
      EffectKeeps(path[k - 1], es[k - 1], path[k]);
    }
  }

  lemma OkSame(s: PagingState)
    requires Ok(s)
    ensures Same(s, s)
  {
  }

  lemma ReachKeeps(s: PagingState, t: PagingState, keep: set<nat>)
    requires Ok(s) && Reaches(s, t, keep)
    ensures Same(s, t)
  {
    hide Does, Same;
    var path, es :| Path(path, es) && path[0] == s && path[|es|] == t && Sparing(path, es, keep);
    PathKeeps(path, es, |es|);
  }

  // The same, for memory and ledger given apart.
  ghost predicate Leads(mem0: Memory, g0: Ledger, mem: Memory, g: Ledger, keep: set<nat>)
  {
    Reaches(PagingState(mem0, g0), PagingState(mem, g), keep)
  }

  lemma LeadsSelf(mem: Memory, g: Ledger, keep: set<nat>)
    ensures Leads(mem, g, mem, g, keep)
  {
    ReachesSelf(PagingState(mem, g), keep);
  }

  lemma LeadsBy(mem0: Memory, g0: Ledger, e: Effect, mem: Memory, g: Ledger, keep: set<nat>)
    requires Does(PagingState(mem0, g0), e, PagingState(mem, g))
    requires !FreesShared(PagingState(mem0, g0), e) && Target(e) !! keep
    ensures Leads(mem0, g0, mem, g, keep)
  {
    ReachesBy(PagingState(mem0, g0), e, PagingState(mem, g), keep);
  }

  lemma LeadsLess(mem0: Memory, g0: Ledger, mem: Memory, g: Ledger, keep: set<nat>, less: set<nat>)
    requires Leads(mem0, g0, mem, g, keep) && less <= keep
    ensures Leads(mem0, g0, mem, g, less)
  {
    ReachesLess(PagingState(mem0, g0), PagingState(mem, g), keep, less);
  }

  lemma LeadsTransitive(mem0: Memory, g0: Ledger, mem1: Memory, g1: Ledger, mem2: Memory, g2: Ledger, keep: set<nat>)
    requires Leads(mem0, g0, mem1, g1, keep) && Leads(mem1, g1, mem2, g2, keep)
    ensures Leads(mem0, g0, mem2, g2, keep)
  {
    ReachesTransitive(PagingState(mem0, g0), PagingState(mem1, g1), PagingState(mem2, g2), keep);
  }
}
