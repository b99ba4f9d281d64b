// The run queue: a singly linked list of elements on the kernel heap, and the round-robin scheduler.
module Scheduling {
  import opened Machine
  import opened MemoryMap
  import opened FrameScan
  import opened PageTables
  import opened AddressSpace
  import opened Directories
  import opened Effects
  import opened Ledgers
  import opened Paging
  import opened HeapState
  import opened Heap
  import opened RunQueue
  import opened Processes

  // What follows position i of a list.
  function After(spine: seq<ProcessListElement>, i: nat): ProcessListElement?
  {
    if i + 1 < |spine| then spine[i + 1] else null
  }

  // No element occurs twice.
  ghost predicate NoneTwice(spine: seq<ProcessListElement>)
  {
    forall i, j :: 0 <= i < j < |spine| ==> spine[i] != spine[j]
  }

  lemma NoneTwiceLonger(spine: seq<ProcessListElement>, e: ProcessListElement)
    requires NoneTwice(spine) && e !in spine
    ensures NoneTwice(spine + [e])
    ensures forall i :: 0 <= i < |spine| - 1 ==> spine[i] != spine[|spine| - 1]
  {
  }

  lemma NoneTwiceTurned(spine: seq<ProcessListElement>)
    requires NoneTwice(spine) && |spine| > 1
    ensures NoneTwice(Rotated(spine))
    ensures forall i :: 0 < i < |spine| ==> spine[i] != spine[0]
    ensures forall i :: 0 <= i < |spine| - 1 ==> spine[i] != spine[|spine| - 1]
  {
  }

  class ProcessListElement {
    var next: ProcessListElement?
    var ps: Process?

    constructor (ps: Process?)
      ensures this.ps == ps && next == null
    {
      this.ps, next := ps, null;
    }
  }

  function Slot(p: Process?): Option<Process>
  {
    if p == null then None else Some(p)
  }

  // The identifiers in a queue.
  ghost function IdsOf(q: seq<Option<Process>>): seq<u32>
    decreases |q|
  {
    if q == [] then []
    else IdsOf(q[..|q| - 1]) + if q[|q| - 1].Some? then [q[|q| - 1].value.f.id] else []
  }

  // The processes in a queue.
  ghost function Members(q: seq<Option<Process>>): set<Process>
  {
    set e | e in q && e.Some? :: e.value
  }

  // A directory known by address pdt can be loaded: its page is mapped for the kernel, it holds a
  // directory, and that is not the kernel's own.
  ghost predicate PdtLoadable(mem: Memory, L: Layout, pdt: u32, pdtPaddr: u32)
    requires WellFormed(mem, L)
  {
    var d := pdtPaddr / 0x1000;
    && d in L.dirs && d != L.kernelPdt
    && exists w, u :: Walk(mem, L.kernelPdt, pdt / 0x1000) == Mapped(d, w, u)
  }

  ghost predicate Loadable(mem: Memory, L: Layout, p: Process)
    requires WellFormed(mem, L)
  {
    PdtLoadable(mem, L, p.f.pdt, p.f.pdtPaddr)
  }

  // The directory in frame d, not the kernel's own, has been loaded with the kernel's part.
  ghost predicate PdtLoaded(mem0: Memory, mem: Memory, L: Layout, d: nat)
    requires WellFormed(mem, L)
  {
    && d in L.dirs && d != L.kernelPdt && Agrees(mem, L, d)
    && mem == mem0[d := Loaded(mem0[d], mem0[L.kernelPdt])]
  }

  class Scheduler {
    const heap: Allocator
    var start: ProcessListElement?
    var end: ProcessListElement?
    // The task state segment, and the directory the processor uses.
    var tss: Tss
    var cr3: u32

    // The elements from start on, and what they hold.
    ghost var spine: seq<ProcessListElement>
    ghost var queue: seq<Option<Process>>

    ghost predicate ListOk()
      reads this`start, this`end, this`spine, this`queue, spine
    {
      && |queue| == |spine|
      && NoneTwice(spine)
      && (forall i :: 0 <= i < |spine| ==> Slot(spine[i].ps) == queue[i])
      && (forall i :: 0 <= i < |spine| ==> spine[i].next == After(spine, i))
      && start == (if spine == [] then null else spine[0])
      && end == (if spine == [] then null else spine[|spine| - 1])
    }

    ghost predicate Valid()
      reads this`start, this`end, this`spine, this`queue, spine, heap, heap.mmu, heap.mmu.pfa, heap.mmu.pfa.start
    {
      && ListOk() && heap.Valid()
      && forall p :: p in Members(queue) ==> Loadable(heap.mmu.mem, heap.mmu.layout, p)
    }

    constructor (heap: Allocator, tss: Tss, cr3: u32)
      requires heap.Valid()
      ensures Valid() && queue == [] && this.heap == heap && this.tss == tss && this.cr3 == cr3
    {
      this.heap, this.tss, this.cr3 := heap, tss, cr3;
      start, end := null, null;
      spine, queue := [], [];
    }

    // One more than the largest identifier in the queue.
    method NextPid() returns (pid: u32)
      requires ListOk()
      ensures pid == RunQueue.NextPid(IdsOf(queue))
    {
      hide IdsOf, Largest, NoneTwice;
      NoIds(queue);
      var maxPid: u32 := 0;
      var p := start;
      ghost var k := 0;
      while p != null
        invariant ListOk() && 0 <= k <= |spine|
        invariant p == if k < |spine| then spine[k] else null
        invariant maxPid == Largest(IdsOf(queue[..k]))
        decreases |spine| - k
      {
        IdsUpTo(queue, k);
        if p.ps != null && p.ps.f.id > maxPid {
          maxPid := p.ps.f.id;
        }
        p := p.next;
        k := k + 1;
      }
      assert queue[..k] == queue;
      return Wrap(maxPid as int + 1);
    }

    // Appends a process, or an empty entry, if the heap has room for the element.
    method AddProcess(p: Process?) returns (r: int)
      requires Valid() && (p != null ==> Loadable(heap.mmu.mem, heap.mmu.layout, p))
      modifies this, spine, heap, heap.mmu, heap.mmu.pfa, heap.mmu.pfa.start
      ensures Valid()
      ensures r == 0 || r == -1
      ensures r == -1 <==>
        Refuses(old(heap.h), heap.mmu.pfa.mmap, old(heap.mmu.pfa.free), old(heap.mmu.mem), old(heap.mmu.Books()), 2)
      ensures (exists i :: 0 <= i < |old(heap.h.free)| && old(heap.h.free)[i].size >= 2) ==> r == 0
      ensures r == -1 ==> queue == old(queue) && heap.h == old(heap.h)
      ensures r == 0 ==> queue == old(queue) + [Slot(p)]
      ensures r == 0 ==>
        exists a: nat, grown :: Allocated(heap.base, old(heap.hdr), old(heap.h), heap.hdr, heap.h, a, 2, grown)
      ensures Extends(old(heap.mmu.mem), old(heap.mmu.Books()), heap.mmu.mem, heap.mmu.Books())
      ensures cr3 == old(cr3) && tss == old(tss)
    {
      hide Extends, ExtendsFor, Grows, Loadable, ArenaMapped, BaseMapped, Allocated, HeapOk, View, FreeFrames, Regular,
           WellFormed, NoneTwice, After, Refuses, UnitsFor;
      ghost var mem0, g0, members := heap.mmu.mem, heap.mmu.Books(), Members(queue + [Slot(p)]);
      var at;
      ghost var grown;
      ElementUnits();
      SmallRequests(mem0, g0, heap.h, 2);
      FitsNotRefused(heap.h, heap.mmu.pfa.mmap, heap.mmu.pfa.free, mem0, g0, 2);
      at, grown := heap.Kmalloc(8);
      ghost var mem1, g1 := heap.mmu.mem, heap.mmu.Books();
      ExtendsGrows(mem0, g0, mem1, g1);
      LoadableKept(mem0, g0, mem1, g1, members);
      if at == 0 {
        return -1;
      }
      Append(p);
      return 0;
    }

    // Links a new element behind the last one.
    method Append(p: Process?)
      requires ListOk()
      modifies this`start, this`end, this`spine, this`queue, spine
      ensures ListOk() && queue == old(queue) + [Slot(p)]
      ensures |spine| == |old(spine)| + 1 && spine[..|old(spine)|] == old(spine) && fresh(spine[|old(spine)|])
    {
      hide Loadable, NoneTwice;
      var e := new ProcessListElement(p);
      NoneTwiceLonger(spine, e);
      spine, queue := spine + [e], queue + [Slot(p)];
      if start == null {
        start, end := e, e;
        return;
      }
      end.next := e;
      end := e;
    }

    // Turns the queue and loads the process now at its head. Nothing but the turn happens when the head
    // is empty.
    method Schedule() returns (dispatched: Option<Process>, entered: bool)
      requires Valid()
      modifies this, spine, heap.mmu`mem
      ensures Valid()
      ensures queue == Next(old(queue)) && dispatched == Dispatched(old(queue))
      ensures heap.mmu.Books() == old(heap.mmu.Books())
      ensures dispatched.None? ==>
        !entered && heap.mmu.mem == old(heap.mmu.mem) && cr3 == old(cr3)
        && tss == old(tss)
      ensures dispatched.Some? ==>
        var p := dispatched.value;
        && tss == Tss(p.f.kernelStackStartVaddr, 0x10) && cr3 == p.f.pdtPaddr
        && (entered <==> p.f.current.cs != 0x08)
        && PdtLoaded(old(heap.mmu.mem), heap.mmu.mem, heap.mmu.layout, p.f.pdtPaddr / 0x1000)
        && Leads(old(heap.mmu.mem), old(heap.mmu.Books()), heap.mmu.mem, heap.mmu.Books(),
                 heap.mmu.layout.dirs - {p.f.pdtPaddr / 0x1000})
    {
      hide Loadable, PdtLoaded, ArenaMapped, BaseMapped, HeapOk, View, FreeFrames, Regular, Sane, NoneTwice, Members,
           After, WellFormed;
      if start == null || start.ps == null {
        return None, false;
      }
      Turn();
      var p := start.ps;
      assert Slot(p) == queue[0];
      if p == null {
        return None, false;
      }
      HeadMember(queue);
      entered := Load(p);
      return Some(p), entered;
    }

    // Loads a process of the queue: its kernel stack, its directory with the kernel's part of the
    // address space copied in, and the processor's directory. A process in kernel mode is not entered.
    method Load(p: Process) returns (entered: bool)
      requires Valid() && p in Members(queue)
      modifies this`cr3, this`tss, heap.mmu`mem
      ensures Valid() && heap.mmu.Books() == old(heap.mmu.Books())
      ensures tss == Tss(p.f.kernelStackStartVaddr, 0x10) && cr3 == p.f.pdtPaddr
      ensures entered <==> p.f.current.cs != 0x08
      ensures PdtLoaded(old(heap.mmu.mem), heap.mmu.mem, heap.mmu.layout, p.f.pdtPaddr / 0x1000)
      ensures Leads(old(heap.mmu.mem), old(heap.mmu.Books()), heap.mmu.mem, heap.mmu.Books(),
                    heap.mmu.layout.dirs - {p.f.pdtPaddr / 0x1000})
    {
      hide PdtLoaded, Loadable, HeapOk, ArenaMapped, BaseMapped, Sane, View, FreeFrames, Regular, NoneTwice, After,
           WellFormed;
      TssSetKernelStack(SEGSEL_KERNEL_DS, p.f.kernelStackStartVaddr);
      LoadPdt(heap, p, Members(queue));
      cr3 := p.f.pdtPaddr;
      return p.f.current.cs != SEGSEL_KERNEL_CS;
    }

    method TssSetKernelStack(segsel: u32, vaddr: u32)
      modifies this`tss
      ensures tss == Tss(vaddr, segsel)
    {
      tss := Tss(vaddr, segsel);
    }

    // pdt_load_process_pdt on the page of the process's directory.
    static method LoadPdt(heap: Allocator, p: Process, ghost ps: set<Process>)
      requires heap.Valid() && Loadable(heap.mmu.mem, heap.mmu.layout, p)
      modifies heap.mmu`mem
      ensures heap.Valid()
      ensures PdtLoaded(old(heap.mmu.mem), heap.mmu.mem, heap.mmu.layout, p.f.pdtPaddr / 0x1000)
      ensures Leads(old(heap.mmu.mem), old(heap.mmu.Books()), heap.mmu.mem, heap.mmu.Books(),
                    heap.mmu.layout.dirs - {p.f.pdtPaddr / 0x1000})
      ensures forall q :: q in ps && Loadable(old(heap.mmu.mem), heap.mmu.layout, q) ==>
        Loadable(heap.mmu.mem, heap.mmu.layout, q)
    {
      ghost var mem0, L := heap.mmu.mem, heap.mmu.layout;
      var d := heap.mmu.FrameBehind(p.f.pdt);
      assert d == p.f.pdtPaddr / 0x1000;
      heap.mmu.PdtLoadProcessPdt(d);
      ghost var mem1 := heap.mmu.mem;
      LoadKeepsKernel(mem0, mem1, L, d, ps, heap.base, heap.h.arena);
    }

    // Moves the head to the end of a list of more than one element.
    method Turn()
      requires ListOk() && queue != []
      modifies this`start, this`end, this`spine, this`queue, spine
      ensures ListOk() && queue == Rotated(old(queue)) && Members(queue) == Members(old(queue))
    {
      var e := start;
      RotatedMembers(queue);
      ghost var before, n := spine, |spine|;
      assert e.next == After(spine, 0);
      if e.next != null {
        NoneTwiceTurned(spine);
        start := e.next;
        e.next := null;
        end.next := e;
        end := e;
        spine, queue := Rotated(spine), Rotated(queue);
        assert forall i :: 0 <= i < n ==> spine[i] == if i + 1 < n then before[i + 1] else e;
        assert forall i :: 0 <= i < n - 1 ==> After(before, i + 1) == if i + 2 < n then After(spine, i) else null;
      }
    }
  }

  lemma ElementUnits()
    ensures UnitsFor(8) == 2
  {
  }

  lemma FitsNotRefused(h: State, rs: seq<Region>, free: seq<bool>, mem: Memory, g: Ledger, n: u32)
    requires WellFormed(mem, g.layout)
    ensures (exists i :: 0 <= i < |h.free| && h.free[i].size >= n) ==> !Refuses(h, rs, free, mem, g, n)
  {
  }

  lemma RotatedMembers(q: seq<Option<Process>>)
    ensures Members(Rotated(q)) == Members(q)
  {
    assert |q| > 1 ==> q == [q[0]] + q[1..];
    assert forall e :: e in Rotated(q) <==> e in q;
  }

  lemma NoIds(q: seq<Option<Process>>)
    ensures IdsOf(q[..0]) == [] && Largest(IdsOf(q[..0])) == 0
  {
  }

  lemma HeadMember(q: seq<Option<Process>>)
    requires q != [] && q[0].Some?
    ensures q[0].value in Members(q)
  {
  }

  lemma IdsUpTo(q: seq<Option<Process>>, k: nat)
    requires k < |q|
    ensures IdsOf(q[..k + 1]) == IdsOf(q[..k]) + if q[k].Some? then [q[k].value.f.id] else []
    ensures Largest(IdsOf(q[..k + 1])) ==
      if q[k].Some? && q[k].value.f.id > Largest(IdsOf(q[..k])) then q[k].value.f.id else Largest(IdsOf(q[..k]))
  {
    assert q[..k + 1][..k] == q[..k];
    if q[k].Some? {
      var ids := IdsOf(q[..k]) + [q[k].value.f.id];
      assert ids[..|ids| - 1] == IdsOf(q[..k]);
    } else {
      assert IdsOf(q[..k]) + [] == IdsOf(q[..k]);
    }
  }

  lemma {:induction false} IdsOfFull(q: seq<Option<Process>>)
    requires forall i :: 0 <= i < |q| ==> q[i].Some?
    ensures |IdsOf(q)| == |q| && forall i :: 0 <= i < |q| ==> IdsOf(q)[i] == q[i].value.f.id
    decreases |q|
  {
    if q != [] {
      IdsOfFull(q[..|q| - 1]);
    }
  }

  lemma IdsOfAdded(q: seq<Option<Process>>, p: Process)
    ensures IdsOf(q + [Some(p)]) == IdsOf(q) + [p.f.id]
  {
    var longer := q + [Some(p)];
    assert longer[..|longer| - 1] == q;
  }

  lemma IdsOfTurned(q: seq<Option<Process>>)
    requires forall i :: 0 <= i < |q| ==> q[i].Some?
    ensures IdsOf(Next(q)) == Rotated(IdsOf(q))
  {
    hide IdsOf;
    IdsOfFull(q);
    IdsOfFull(Next(q));
    if q != [] {
      var n, ids, turned := |q|, IdsOf(q), IdsOf(Next(q));
      assert forall i :: 0 <= i < n ==> Next(q)[i] == q[if i + 1 < n then i + 1 else 0];
      assert forall i :: 0 <= i < n ==> turned[i] == Rotated(ids)[i];
    }
  }

  // The scheduler's operations on a queue without empty entries are the events of process identifiers:
  // creating hands out the next one, adding appends it, and a schedule turns the queue.
  lemma EventsOfQueue(q: seq<Option<Process>>, pending: seq<u32>, p: Process)
    requires forall i :: 0 <= i < |q| ==> q[i].Some?
    ensures AfterEvent(Pids(IdsOf(q), pending), Created) == Pids(IdsOf(q), pending + [RunQueue.NextPid(IdsOf(q))])
    ensures AfterEvent(Pids(IdsOf(q), [p.f.id] + pending), Added) == Pids(IdsOf(q + [Some(p)]), pending)
    ensures AfterEvent(Pids(IdsOf(q), pending), Turned) == Pids(IdsOf(Next(q)), pending)
  {
    hide IdsOf, RunQueue.NextPid, Next;
    IdsOfAdded(q, p);
    IdsOfTurned(q);
    assert ([p.f.id] + pending)[1..] == pending;
  }

  // Growth keeps every directory that could be loaded.
  lemma LoadableKept(mem0: Memory, g0: Ledger, mem: Memory, g: Ledger, ps: set<Process>)
    requires WellFormed(mem0, g0.layout) && Grows(mem0, g0, mem, g)
    ensures forall p :: p in ps && Loadable(mem0, g0.layout, p) ==> Loadable(mem, g.layout, p)
  {
    forall p | p in ps && Loadable(mem0, g0.layout, p)
      ensures Loadable(mem, g.layout, p)
    {
      assert Walk(mem, g.layout.kernelPdt, p.f.pdt / 0x1000) == Walk(mem0, g0.layout.kernelPdt, p.f.pdt / 0x1000);
    }
  }

  // Loading a process directory leaves the kernel's translations, and so the heap and the pages of all
  // directories, where they were.
  lemma LoadKeepsKernel(mem0: Memory, mem: Memory, L: Layout, d: nat, ps: set<Process>, base: nat, arena: set<nat>)
    requires WellFormed(mem0, L) && d in L.dirs && d != L.kernelPdt
    requires mem == mem0[d := Loaded(mem0[d], mem0[L.kernelPdt])]
    ensures WellFormed(mem, L) && Agrees(mem, L, d)
    ensures forall p :: p in ps && Loadable(mem0, L, p) ==> Loadable(mem, L, p)
    ensures ArenaMapped(mem0, L.kernelPdt, arena) ==> ArenaMapped(mem, L.kernelPdt, arena)
    ensures BaseMapped(mem0, L.kernelPdt, base) ==> BaseMapped(mem, L.kernelPdt, base)
  {
    LoadDirectory(mem0, L, d);
    LoadCoherence(mem0, L, d, mem);
    forall p | p in ps && Loadable(mem0, L, p)
      ensures Loadable(mem, L, p)
    {
      assert Walk(mem, L.kernelPdt, p.f.pdt / 0x1000) == Walk(mem0, L.kernelPdt, p.f.pdt / 0x1000);
    }
  }
}
