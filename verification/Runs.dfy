// Whole runs of the kernel's calls on its page tables: who holds which frame, and what a process can see.
module Runs {
  import opened Machine
  import opened PageTables
  import opened AddressSpace
  import opened MapSteps
  import opened Directories
  import opened Effects
  import opened Ledgers

  // Mapping or unmapping pages in a directory, loading a directory, and what takes frames and maps for the
  // kernel, besides for a directory of its own: kmalloc, pdt_create and process_create.
  datatype Operation =
    | Mapping(dir: nat, v: PageNo, p: PageNo, m: Count, rw: bv8, pl: bv8)
    | Unmapping(dir: nat, vp: PageNo, N: Count)
    | Loading(dir: nat)
    | Extending(own: nat)

  // The outcomes that the kernel's methods promise.
  ghost predicate Performs(s: PagingState, op: Operation, t: PagingState)
    requires Ok(s)
  {
    var L := s.g.layout;
    match op
    case Mapping(dir, v, p, m, rw, pl) => dir in L.dirs && MapOutcome(s.mem, s.g, t.mem, t.g, dir, v, p, m, rw, pl)
    case Unmapping(dir, vp, N) => dir in L.dirs && Unmaps(s.mem, s.g, t.mem, t.g, dir, vp, N)
    case Loading(dir) => dir in L.dirs && t == PagingState(s.mem[dir := Loaded(s.mem[dir], s.mem[L.kernelPdt])], s.g)
    case Extending(own) => ExtendsFor(s.mem, s.g, t.mem, t.g, own)
  }

  function WorksOn(op: Operation, kernelPdt: nat): set<nat>
  {
    match op
    case Mapping(dir, _, _, _, _, _) => {dir}
    case Unmapping(dir, _, _) => {dir}
    case Loading(dir) => {dir}
    case Extending(own) => {kernelPdt, own}
  }

  // The one case in which a call breaks the order of frames: it frees a table that another directory uses.
  ghost predicate Breaks(s: PagingState, op: Operation)
    requires Ok(s)
  {
    op.Unmapping? && op.dir in s.g.layout.dirs && ReleasesShared(s.mem, s.g.layout, op.dir, op.vp, op.N)
  }

  // A call is a sequence of effects on the directories it works on alone.
  lemma OperationReaches(s: PagingState, op: Operation, t: PagingState)
    requires Ok(s) && Performs(s, op, t) && !Breaks(s, op)
    ensures Reaches(s, t, s.g.layout.dirs - WorksOn(op, s.g.layout.kernelPdt))
  {
    hide Reaches;
    match op
    case Mapping(_, _, _, _, _, _) =>
    case Unmapping(_, _, _) =>
    case Loading(dir) => ReachesBy(s, LoadDir(dir), t, s.g.layout.dirs - {dir});
    case Extending(_) =>
  }

  lemma OperationKeeps(s: PagingState, op: Operation, t: PagingState)
    requires Ok(s) && Performs(s, op, t)
    ensures Ok(t) <==> !Breaks(s, op)
    ensures !Breaks(s, op) ==> Same(s, t)
  {
    hide Reaches, MapOutcome, UnmapOutcome, ExtendsFor;
    if Breaks(s, op) {
      FreeKeeps(s, op.dir, op.vp / 1024);
    } else {
      OperationReaches(s, op, t);
      ReachKeeps(s, t, s.g.layout.dirs - WorksOn(op, s.g.layout.kernelPdt));
    }
  }

  // The states between calls. Nothing is said of calls on a state that is not in order.
  ghost predicate Run(run: seq<PagingState>, ops: seq<Operation>)
  {
    |run| == |ops| + 1 && forall j :: 0 <= j < |ops| && Ok(run[j]) ==> Performs(run[j], ops[j], run[j + 1])
  }

  // None of the first k calls frees a table that another directory uses.
  ghost predicate Orderly(run: seq<PagingState>, ops: seq<Operation>, k: nat)
    requires |run| == |ops| + 1 && k <= |ops|
  {
    forall j :: 0 <= j < k && Ok(run[j]) ==> !Breaks(run[j], ops[j])
  }

  lemma {:induction false} OrderlyKeeps(run: seq<PagingState>, ops: seq<Operation>, k: nat)
    requires Run(run, ops) && Ok(run[0]) && k <= |ops| && Orderly(run, ops, k)
    ensures Same(run[0], run[k])
  {
    hide Performs, Breaks, WellFormed;
    if k == 0 {
      OkSame(run[0]);
    } else {
      OrderlyKeeps(run, ops, k - 1);
      OperationKeeps(run[k - 1], ops[k - 1], run[k]);
    }
  }

  // Ownership over runs. Every state up to the k-th is in order - each frame is at most one of free,
  // directory, page table or data, and tables are shared only by the kernel's entries for them - if and
  // only if no call frees a table that another directory uses. Then the frames in use are the same ones
  // throughout, so that a frame of the bitmap or of the kernel image never comes into use.
  lemma OwnershipOverRuns(run: seq<PagingState>, ops: seq<Operation>, k: nat)
    requires Run(run, ops) && Ok(run[0]) && k <= |ops|
    ensures (forall j :: 0 <= j <= k ==> Ok(run[j])) <==> Orderly(run, ops, k)
    ensures Orderly(run, ops, k) ==> Same(run[0], run[k])
    ensures Orderly(run, ops, k) ==> forall f :: f !in run[0].g.Owned() ==>
      f !in run[k].g.avail && f !in run[k].g.layout.dirs && f !in run[k].g.layout.tables && f !in run[k].g.data
  {
    hide Performs, Breaks, WellFormed;
    if Orderly(run, ops, k) {
      forall j | 0 <= j <= k
        ensures Same(run[0], run[j])
      {
        OrderlyKeeps(run, ops, j);
      }
    } else {
      var j :| 0 <= j < k && Ok(run[j]) && Breaks(run[j], ops[j]);
      OperationKeeps(run[j], ops[j], run[j + 1]);
    }
  }

  // An effect on another directory changes no translation of directory d in entries 1 to 767.
  lemma EffectIsolated(s: PagingState, e: Effect, t: PagingState, d: nat, vp: nat)
    requires Ok(s) && Does(s, e, t) && !FreesShared(s, e) && d in s.g.layout.dirs && d !in Target(e)
    requires 1024 <= vp < 768 * 1024
    ensures d < PAGES && Walk(t.mem, d, vp) == Walk(s.mem, d, vp)
  {
    var mem, L := s.mem, s.g.layout;
    match e
    case FillSlots(dir, i, lo, n, p, rw, pl) =>
      assert DirEntryOk(L, mem[dir][i], i) && SharedAsKernel(mem, L.kernelPdt, d, dir, i);
      ChunkThroughTable(mem, L, dir, i, Frame(mem[dir][i]), lo, n, p, rw, pl, t.mem);
    case NewTable(dir, i, f, lo, n, p, rw, pl) =>
      assert SharedAsKernel(mem, L.kernelPdt, d, dir, i);
      ChunkThroughNewTable(mem, L, dir, i, f, lo, n, p, rw, pl);
    case ClearSlots(dir, i, lo, n) =>
      assert SharedAsKernel(mem, L.kernelPdt, d, dir, i);
      ClearThroughTable(mem, L, dir, i, Frame(mem[dir][i]), lo, n, t.mem);
    case FreeTable(dir, i) =>
      var f := Frame(mem[dir][i]);
      ClearAndUnlink(mem, L, dir, i, f, mem[f := ClearRange(mem[f], 0, 1024)], t.mem);
    case NewDir(d') => AddDirectory(mem, L, d', t.mem);
    case LoadDir(d') => LoadCoherence(mem, L, d', t.mem);
    case TakeFrames(run) =>
    case GiveFrame(f) =>
    case WriteFrame(f, contents) => RewriteOther(mem, L, f, contents);
  }

  lemma {:induction false} PathIsolated(path: seq<PagingState>, es: seq<Effect>, k: nat, keep: set<nat>, d: nat,
                                        vp: nat)
    requires Path(path, es) && Sparing(path, es, keep) && Ok(path[0]) && k <= |es|
    requires d in keep && d in path[0].g.layout.dirs && 1024 <= vp < 768 * 1024
    ensures d < PAGES && d in path[k].g.layout.dirs && Walk(path[k].mem, d, vp) == Walk(path[0].mem, d, vp)
  {
    hide Does, FreesShared, Target, Walk, DirsOk, TablesOk, SharingOk, WindowOk;
    if k > 0 {
      PathIsolated(path, es, k - 1, keep, d, vp);
      PathKeeps(path, es, k - 1);
      EffectKeeps(path[k - 1], es[k - 1], path[k]);
      EffectIsolated(path[k - 1], es[k - 1], path[k], d, vp);
    }
  }

  lemma OperationIsolated(s: PagingState, op: Operation, t: PagingState, d: nat, vp: nat)
    requires Ok(s) && Performs(s, op, t) && !Breaks(s, op)
    requires d in s.g.layout.dirs && d !in WorksOn(op, s.g.layout.kernelPdt) && 1024 <= vp < 768 * 1024
    ensures d < PAGES && d in t.g.layout.dirs && Walk(t.mem, d, vp) == Walk(s.mem, d, vp)
  {
    hide Does, FreesShared, Target, Walk, WorksOn, Performs, Breaks;
    var keep := s.g.layout.dirs - WorksOn(op, s.g.layout.kernelPdt);
    OperationReaches(s, op, t);
    var path, es :| Path(path, es) && path[0] == s && path[|es|] == t && Sparing(path, es, keep);
    PathIsolated(path, es, |es|, keep, d, vp);
  }

  // Isolation over runs: whatever calls the kernel makes for itself and for other processes, directory d
  // goes on translating everything between 4 MB and the kernel's part as before.
  lemma {:induction false} Isolation(run: seq<PagingState>, ops: seq<Operation>, k: nat, d: nat, vp: nat)
    requires Run(run, ops) && Ok(run[0]) && k <= |ops| && Orderly(run, ops, k)
    requires forall j :: 0 <= j < k ==> d !in WorksOn(ops[j], run[0].g.layout.kernelPdt)
    requires d in run[0].g.layout.dirs && 1024 <= vp < 768 * 1024
    ensures d < PAGES && d in run[k].g.layout.dirs && Walk(run[k].mem, d, vp) == Walk(run[0].mem, d, vp)
  {
    hide Performs, Breaks, WorksOn, Walk, DirsOk, TablesOk, SharingOk, WindowOk;
    if k > 0 {
      Isolation(run, ops, k - 1, d, vp);
      OrderlyKeeps(run, ops, k - 1);
      OperationIsolated(run[k - 1], ops[k - 1], run[k], d, vp);
    }
  }
}
