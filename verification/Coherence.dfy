// A loaded process and the kernel: when they go on agreeing on the kernel's part of the address space.
module Coherence {
  import opened Machine
  import opened PageTables
  import opened AddressSpace
  import opened MapSteps
  import opened Directories
  import opened Effects
  import opened Ledgers
  import opened Runs

  // Directory d translates every page under a present kernel entry as the kernel does.
  ghost predicate WalksAlike(mem: Memory, k: nat, d: nat)
    requires k < PAGES && d < PAGES
  {
    forall vp :: 768 * 1024 <= vp < PAGES && Present(mem[k][vp / 1024]) ==> Walk(mem, d, vp) == Walk(mem, k, vp)
  }

  lemma AgreesWalksAlike(mem: Memory, L: Layout, d: nat)
    requires d < PAGES && L.kernelPdt < PAGES && Agrees(mem, L, d)
    ensures WalksAlike(mem, L.kernelPdt, d)
  {
    forall vp | 768 * 1024 <= vp < PAGES && Present(mem[L.kernelPdt][vp / 1024])
      ensures Walk(mem, d, vp) == Walk(mem, L.kernelPdt, vp)
    {
      AgreementTranslates(mem, L, d, vp);
    }
  }

  // The kernel's mapping of a range adds no entry to its part of the address space.
  ghost predicate NoKernelEntryAdded(mem0: Memory, k: nat, v: PageNo, m: Count)
    requires k < PAGES
  {
    forall i :: i in Missing(mem0, k, v, m) ==> i < 768
  }

  // A process that agrees with the kernel goes on agreeing after the kernel maps m pages exactly if none
  // of the entries they touch in the kernel's part had to be added; and then it sees the new pages.
  lemma AgreementAfterMap(mem0: Memory, g0: Ledger, mem: Memory, g: Ledger, v: PageNo, p: PageNo, m: Count, rw: bv8,
                          pl: bv8, d: nat)
    requires WellFormed(mem0, g0.layout) && d in g0.layout.dirs && d != g0.layout.kernelPdt
      && Agrees(mem0, g0.layout, d)
    requires MapOutcome(mem0, g0, mem, g, g0.layout.kernelPdt, v, p, m, rw, pl)
    ensures Agrees(mem, g.layout, d) <==> NoKernelEntryAdded(mem0, g0.layout.kernelPdt, v, m)
    ensures NoKernelEntryAdded(mem0, g0.layout.kernelPdt, v, m) ==> WalksAlike(mem, g0.layout.kernelPdt, d)
  {
    var k := g0.layout.kernelPdt;
    if NoKernelEntryAdded(mem0, k, v, m) {
      forall i | 768 <= i < 1024 && Present(mem[k][i])
        ensures mem[d][i] == mem[k][i]
      {
        assert i !in Missing(mem0, k, v, m);
      }
      AgreesWalksAlike(mem, g.layout, d);
    } else {
      var i :| i in Missing(mem0, k, v, m) && 768 <= i;
      EntryAdded(mem0, g0, mem, g, v, p, m, rw, pl, d, i);
    }
  }

  // An added entry is not in any other directory.
  lemma EntryAdded(mem0: Memory, g0: Ledger, mem: Memory, g: Ledger, v: PageNo, p: PageNo, m: Count, rw: bv8, pl: bv8,
                   d: nat, i: nat)
    requires WellFormed(mem0, g0.layout) && d in g0.layout.dirs && d != g0.layout.kernelPdt
    requires MapOutcome(mem0, g0, mem, g, g0.layout.kernelPdt, v, p, m, rw, pl)
    requires i in Missing(mem0, g0.layout.kernelPdt, v, m)
    ensures Tabled(mem[g0.layout.kernelPdt][i]) && mem[d][i] != mem[g0.layout.kernelPdt][i]
  {
    var k := g0.layout.kernelPdt;
    var q: nat :| q < m && PageAt(v, q) / 1024 == i;
    assert Tabled(mem[k][PageAt(v, q) / 1024]);
    assert !Sees(mem0, d, k, i);
    assert Sees(mem, d, k, i) <==> Sees(mem0, d, k, i);
  }

  // After the kernel unmaps pages a process still agrees on what is left. But a whole table of the kernel's
  // part that is there is also the table of every process that agrees, and it is freed: the process is left
  // with an entry for a frame that is free.
  lemma AgreementAfterUnmap(s: PagingState, vp: PageNo, N: Count, t: PagingState, d: nat)
    requires Ok(s) && d in s.g.layout.dirs && d != s.g.layout.kernelPdt && Agrees(s.mem, s.g.layout, d)
    requires Unmaps(s.mem, s.g, t.mem, t.g, s.g.layout.kernelPdt, vp, N)
    ensures Agrees(t.mem, s.g.layout, d) && WalksAlike(t.mem, s.g.layout.kernelPdt, d)
    ensures N == 1024 && 768 < vp / 1024 && Tabled(s.mem[s.g.layout.kernelPdt][vp / 1024]) ==>
      !Ok(t) && Tabled(t.mem[d][vp / 1024]) && Frame(t.mem[d][vp / 1024]) in t.g.avail
  {
    var k, i := s.g.layout.kernelPdt, vp / 1024;
    if ReleasesShared(s.mem, s.g.layout, k, vp, N) {
      assert DirEntryOk(s.g.layout, s.mem[k][i], i);
      assert t.mem[d] == s.mem[d] && t.mem[k] == s.mem[k][i := ZERO_ENTRY];
    }
    AgreesWalksAlike(t.mem, s.g.layout, d);
    if N == 1024 && 768 < i && Tabled(s.mem[k][i]) {
      assert Sees(s.mem, d, k, i);
      StaleTable(s, i, d);
    }
  }

  // Freeing a whole table of the kernel's part while a process agrees.
  lemma StaleTable(s: PagingState, i: nat, d: nat)
    requires Ok(s) && d in s.g.layout.dirs && d != s.g.layout.kernelPdt && Agrees(s.mem, s.g.layout, d)
    requires 768 < i < 1024 && Tabled(s.mem[s.g.layout.kernelPdt][i])
    ensures
      var t := TableFreed(s, s.g.layout.kernelPdt, i);
      !Ok(t) && Tabled(t.mem[d][i]) && Frame(t.mem[d][i]) in t.g.avail
  {
    assert Sees(s.mem, d, s.g.layout.kernelPdt, i);
    StaleEntry(s, s.g.layout.kernelPdt, i, d);
  }

  // A call of the kernel on its own directory that adds no entry to its part and frees no table that a
  // process uses.
  ghost predicate Undisturbing(s: PagingState, op: Operation)
    requires Ok(s)
  {
    match op
    case Mapping(dir, v, _, m, _, _) => dir < PAGES && NoKernelEntryAdded(s.mem, dir, v, m)
    case Unmapping(_, _, _) => !Breaks(s, op)
    case _ => true
  }

  ghost predicate KernelRun(run: seq<PagingState>, ops: seq<Operation>)
  {
    && Run(run, ops)
    && forall j :: 0 <= j < |ops| ==>
         (ops[j].Mapping? || ops[j].Unmapping?) && ops[j].dir == run[0].g.layout.kernelPdt
  }

  // A state in order in which process d agrees with the kernel.
  ghost predicate InStep(s: PagingState, kernelPdt: nat, d: nat)
  {
    && Ok(s) && s.g.layout.kernelPdt == kernelPdt && d in s.g.layout.dirs && d != kernelPdt
    && Agrees(s.mem, s.g.layout, d)
  }

  lemma KernelStep(s: PagingState, op: Operation, t: PagingState, d: nat)
    requires InStep(s, s.g.layout.kernelPdt, d) && Performs(s, op, t)
    requires (op.Mapping? || op.Unmapping?) && op.dir == s.g.layout.kernelPdt
    ensures InStep(t, s.g.layout.kernelPdt, d) <==> Undisturbing(s, op)
  {
    match op
    case Mapping(_, v, p, m, rw, pl) =>
      AgreementAfterMap(s.mem, s.g, t.mem, t.g, v, p, m, rw, pl, d);
    case Unmapping(_, vp, N) =>
      AgreementAfterUnmap(s, vp, N, t, d);
      OperationKeeps(s, op, t);
  }

  lemma {:induction false} StaysInStep(run: seq<PagingState>, ops: seq<Operation>, k: nat, d: nat)
    requires KernelRun(run, ops) && k <= |ops| && InStep(run[0], run[0].g.layout.kernelPdt, d)
    requires forall j :: 0 <= j < k && Ok(run[j]) ==> Undisturbing(run[j], ops[j])
    ensures InStep(run[k], run[0].g.layout.kernelPdt, d)
  {
    hide Performs, Undisturbing, InStep;
    if k > 0 {
      StaysInStep(run, ops, k - 1, d);
      InStepIsOk(run[k - 1], run[0].g.layout.kernelPdt, d);
      KernelStep(run[k - 1], ops[k - 1], run[k], d);
    }
  }

  lemma InStepIsOk(s: PagingState, kernelPdt: nat, d: nat)
    requires InStep(s, kernelPdt, d)
    ensures Ok(s) && s.g.layout.kernelPdt == kernelPdt < PAGES && d < PAGES && WalksAlike(s.mem, kernelPdt, d)
  {
    AgreesWalksAlike(s.mem, s.g.layout, d);
  }

  // Over any run of kernel maps and unmaps after a process was loaded, every state up to the k-th is in
  // order with the process agreeing if and only if no call adds an entry to the kernel's part and none frees
  // a table that a process uses. Then the process translates the kernel's part as the kernel does.
  lemma AgreementOverRuns(run: seq<PagingState>, ops: seq<Operation>, k: nat, d: nat)
    requires KernelRun(run, ops) && k <= |ops| && InStep(run[0], run[0].g.layout.kernelPdt, d)
    ensures (forall j :: 0 <= j <= k ==> InStep(run[j], run[0].g.layout.kernelPdt, d)) <==>
      (forall j :: 0 <= j < k && Ok(run[j]) ==> Undisturbing(run[j], ops[j]))
    ensures InStep(run[k], run[0].g.layout.kernelPdt, d) ==>
      d < PAGES && run[0].g.layout.kernelPdt < PAGES && WalksAlike(run[k].mem, run[0].g.layout.kernelPdt, d)
  {
    hide Performs, Undisturbing, InStep, WalksAlike;
    var kernelPdt := run[0].g.layout.kernelPdt;
    if InStep(run[k], kernelPdt, d) {
      InStepIsOk(run[k], kernelPdt, d);
    }
    if forall j :: 0 <= j < k && Ok(run[j]) ==> Undisturbing(run[j], ops[j]) {
      forall j | 0 <= j <= k
        ensures InStep(run[j], kernelPdt, d)
      {
        StaysInStep(run, ops, j, d);
      }
    } else {
      var j :| 0 <= j < k && Ok(run[j]) && !Undisturbing(run[j], ops[j]);
      if InStep(run[j], kernelPdt, d) {
        InStepIsOk(run[j], kernelPdt, d);
        KernelStep(run[j], ops[j], run[j + 1], d);
      }
    }
  }
}
