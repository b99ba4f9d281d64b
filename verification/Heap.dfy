// kmalloc and kfree: a next-fit allocator over a circular free list, grown by whole pages.
module Heap {
  import opened Machine
  import opened MemoryMap
  import opened FrameScan
  import opened PageTables
  import opened AddressSpace
  import opened MapSteps
  import opened Effects
  import opened Ledgers
  import opened MapLoops
  import opened Placement
  import opened Paging
  import opened FreeList
  import opened HeapModel
  import opened HeapState

  const UNITS: nat := 0x2000_0000
  const MIN_BLOCK_SIZE: u32 := 1024

  // Header units requested for a payload of nbytes, one of them for the header.
  function UnitsFor(nbytes: u32): (n: nat)
    ensures n > 0
  {
    Wrap(nbytes as int + 7) / 8 + 1
  }

  // The payload is large enough exactly when adding the rounding does not wrap.
  lemma PayloadFits(nbytes: u32)
    ensures 8 * (UnitsFor(nbytes) - 1) >= nbytes <==> nbytes <= 0xFFFF_FFF8
  {
  }

  // Nor is it larger than need be: one unit for the header and as few as hold the payload.
  lemma UnitsTight(nbytes: u32)
    requires 0 < nbytes <= 0xFFFF_FFF8
    ensures 8 * (UnitsFor(nbytes) - 2) < nbytes <= 8 * (UnitsFor(nbytes) - 1)
  {
  }

  // The circle's position t steps after position pos, for at most one lap.
  function Ahead(pos: nat, t: nat, n: nat): int
  {
    if pos + t < n then pos + t else pos + t - n
  }

  // Next fit: node j of the circle is the first one after position pos, going round, that holds n units.
  ghost predicate NextFit(c: seq<Block>, pos: nat, t: nat, n: nat)
  {
    && pos < |c| && 1 <= t <= |c| && c[Ahead(pos, t, |c|)].size >= n
    && forall s: nat :: 1 <= s < t ==> c[Ahead(pos, s, |c|)].size < n
  }

  // Every acquired unit, and every kernel page up to that of base, is mapped.
  ghost predicate ArenaMapped(mem: Memory, dir: nat, arena: set<nat>)
    requires dir < PAGES
  {
    forall u :: u in arena ==> u < UNITS && Walk(mem, dir, u / 512) != Unmapped
  }

  ghost predicate BaseMapped(mem: Memory, dir: nat, base: nat)
    requires dir < PAGES
  {
    0xC_0000 <= base / 512 < PAGES && forall vp :: 0xC_0000 <= vp <= base / 512 ==> Walk(mem, dir, vp) != Unmapped
  }

  // Outcome of an allocation of n units: header address a, cut out of the free units, which are
  // first extended by the region grown (empty unless no free block was large enough). Cells outside
  // the free units, the region and base are as before.
  ghost predicate Allocated(base: nat, hdr0: seq<Header>, h0: State, hdr: seq<Header>, h: State, a: nat, n: nat,
                            grown: Block)
  {
    && a !in h0.live && h.live == h0.live[a := n]
    && Span(Block(a, n)) <= Units(h0.free) + Span(grown)
    && Units(h.free) == Units(h0.free) + Span(grown) - Span(Block(a, n))
    && h.arena == h0.arena + Span(grown) && Span(grown) !! h0.arena
    && (grown.size > 0 ==> NoFit(h0.free, n))
    && |hdr| == |hdr0|
    && forall x :: 0 <= x < |hdr| && x !in Units(h0.free) && x !in Span(grown) && x != base ==> hdr[x] == hdr0[x]
  }

  // Outcome of freeing live block a: its units are free again, the list is the canonical list of the
  // free units, and cells outside the free units and base are as before.
  ghost predicate Freed(base: nat, hdr0: seq<Header>, h0: State, hdr: seq<Header>, h: State, a: nat)
  {
    && a in h0.live && h.live == h0.live - {a} && h.arena == h0.arena
    && Canonical(h.free, base) && Units(h.free) == Units(h0.free) + Span(Block(a, h0.live[a]))
    && |hdr| == |hdr0| && forall x :: 0 <= x < |hdr| && x !in Units(h.free) && x != base ==> hdr[x] == hdr0[x]
  }

  ghost predicate OnCircle(base: nat, fs: seq<Block>, p: nat)
  {
    exists k :: 0 <= k <= |fs| && p == Circle(base, fs)[k].addr
  }

  lemma GapOfLive(hdr: seq<Header>, base: nat, h: State, a: nat)
    requires HeapOk(hdr, base, h) && a in h.live
    ensures base < a && exists g :: Gap(h.free, a, g)
  {
    LiveSpan(h.live, a);
    ApartByUnits(h.free, base, Block(a, h.live[a]));
    var g := GapExists(h.free, base, Block(a, h.live[a]));
  }

  lemma JoinReady(hdr: seq<Header>, base: nat, h: State, g: nat, bp: nat, p: nat)
    requires HeapOk(hdr, base, h) && bp in h.live && Gap(h.free, bp, g) && p == Circle(base, h.free)[g].addr
    ensures p < |hdr| && bp < |hdr| && hdr[p].next == NextIn(Circle(base, h.free), g) < |hdr|
  {
    FreeStep(hdr, base, h, bp, g);
    assert CellOk(hdr, Circle(base, h.free), base, g);
    assert Circle(base, h.free)[0].addr == base;
  }

  lemma JoinDone(hdr0: seq<Header>, base: nat, h0: State, g: nat, bp: nat, p: nat, hdr: seq<Header>)
    requires HeapOk(hdr0, base, h0) && bp in h0.live && Gap(h0.free, bp, g) && p == Circle(base, h0.free)[g].addr
    requires p < |hdr0| && bp < |hdr0| && NextIn(Circle(base, h0.free), g) < |hdr0|
    requires hdr == FreeLower(FreeUpper(hdr0, bp, NextIn(Circle(base, h0.free), g)), p, bp)
    ensures
      var h := State(Insert(h0.free, g, Block(bp, h0.live[bp])), h0.live - {bp}, h0.arena);
      HeapOk(hdr, base, h) && Freed(base, hdr0, h0, hdr, h, bp) && OnCircle(base, h.free, p)
  {
    var b := Block(bp, h0.live[bp]);
    FreeStep(hdr0, base, h0, bp, g);
    InsertKeepsNode(h0.free, base, g, b);
    NodeUnits(h0.free, base, g);
    assert bp in Span(b);
  }

  class Allocator {
    const mmu: Mmu
    const base: nat
    var freep: nat
    var hdr: seq<Header>

    ghost var h: State

    ghost predicate Valid()
      reads this, mmu, mmu.pfa, mmu.pfa.start
    {
      mmu.Valid() && HeapValid() && ArenaMapped(mmu.mem, mmu.kernelPdt, h.arena)
        && BaseMapped(mmu.mem, mmu.kernelPdt, base)
    }

    ghost predicate HeapValid()
      reads this
    {
      && |hdr| == UNITS && 0 < base < UNITS
      && if freep == 0 then h == EMPTY
         else HeapOk(hdr, base, h) && OnCircle(base, h.free, freep)
    }

    constructor (mmu: Mmu, base: nat)
      requires mmu.Valid() && 0 < base < UNITS && BaseMapped(mmu.mem, mmu.kernelPdt, base)
      ensures Valid() && h == EMPTY && freep == 0 && this.mmu == mmu && this.base == base
    {
      this.mmu, this.base, this.freep := mmu, base, 0;
      this.hdr := seq(UNITS, _ => Header(0, 0));
      this.h := EMPTY;
    }

    // The heap is not disturbed by growth of the paging state elsewhere.
    lemma StaysValid(mem0: Memory, g0: Ledger)
      requires mmu.Valid() && HeapValid() && WellFormed(mem0, g0.layout) && g0.layout.kernelPdt == mmu.kernelPdt
      requires Grows(mem0, g0, mmu.mem, mmu.Books())
      requires ArenaMapped(mem0, mmu.kernelPdt, h.arena) && BaseMapped(mem0, mmu.kernelPdt, base)
      ensures Valid()
    {
      MappingsStay(mem0, g0, mmu.mem, mmu.Books(), base, h.arena);
    }

    // Reading the node at position k of the circle.
    lemma ReadNode(k: nat)
      requires HeapValid() && freep != 0 && k <= |h.free|
      ensures
        var c := Circle(base, h.free);
        && c[k].addr < UNITS && hdr[c[k].addr] == Header(NextIn(c, k), c[k].size)
    {
      var c := Circle(base, h.free);
      assert CellOk(hdr, c, base, k);
      assert c[0].addr == base;
    }

    // The walk of kfree: from wherever freep stands it reaches the one gap of the address, in at most
    // one lap, and stops at the node before it.
    method FindGap(bp: nat) returns (p: nat, ghost g: nat)
      requires HeapValid() && freep != 0 && base < bp
      requires exists g :: Gap(h.free, bp, g)
      ensures Gap(h.free, bp, g) && p == Circle(base, h.free)[g].addr
    {
      g :| Gap(h.free, bp, g);
      ghost var c := Circle(base, h.free);
      ghost var k: nat :| k <= |h.free| && freep == c[k].addr;
      p := freep;
      ReadNode(k);
      StopAtGap(h.free, base, k, bp, g);
      while !(bp > p && bp < hdr[p].next)
        invariant k <= |h.free| && p == c[k].addr && p < UNITS
        invariant hdr[p].next == NextIn(c, k)
        decreases if k <= g then g - k else g + |c| - k
      {
        StopAtGap(h.free, base, k, bp, g);
        if p >= hdr[p].next && (bp > p || bp < hdr[p].next) {
          break;
        }
        p := hdr[p].next;
        k := if k == |h.free| then 0 else k + 1;
        ReadNode(k);
      }
      StopAtGap(h.free, base, k, bp, g);
    }

    // kfree: the block joins its neighbours at its gap, and nothing outside the list's own cells is
    // written. Address 0 is ignored.
    method Kfree(ap: nat)
      requires HeapValid() && (ap != 0 ==> freep != 0 && ap - 1 in h.live)
      modifies this`freep, this`hdr, this`h
      ensures HeapValid()
      ensures ap == 0 ==> freep == old(freep) && hdr == old(hdr) && h == old(h)
      ensures ap != 0 ==> freep != 0 && Freed(base, old(hdr), old(h), hdr, h, ap - 1)
      ensures ap != 0 ==>
        exists g: nat :: Gap(old(h.free), ap as nat - 1, g) && freep == Circle(base, old(h.free))[g].addr
    {
      if ap == 0 {
        return;
      }
      var bp := ap - 1;
      GapOfLive(hdr, base, h, bp);
      ghost var g;
      var p;
      p, g := FindGap(bp);
      JoinBlock(p, bp, g);
    }

    // Puts the block bp after node p of the list.
    method JoinBlock(p: nat, bp: nat, ghost g: nat)
      requires HeapValid() && freep != 0 && bp in h.live && Gap(h.free, bp, g) && p == Circle(base, h.free)[g].addr
      modifies this`freep, this`hdr, this`h
      ensures HeapValid() && freep == p != 0
      ensures Freed(base, old(hdr), old(h), hdr, h, bp)
    {
      ghost var hdr0 := hdr;
      JoinReady(hdr, base, h, g, bp, p);
      var next := hdr[p].next;
      if bp + hdr[bp].size == hdr[p].next {
        hdr := hdr[bp := Header(hdr[next].next, hdr[bp].size + hdr[next].size)];
      } else {
        hdr := hdr[bp := Header(next, hdr[bp].size)];
      }
      assert hdr == FreeUpper(hdr0, bp, next);
      if p + hdr[p].size == bp {
        hdr := hdr[p := Header(hdr[bp].next, hdr[p].size + hdr[bp].size)];
      } else {
        hdr := hdr[p := Header(bp, hdr[p].size)];
      }
      freep := p;
      JoinDone(hdr0, base, h, g, bp, p, hdr);
      h := State(Insert(h.free, g, Block(bp, h.live[bp])), h.live - {bp}, h.arena);
    }

    // Cuts the block out of the node p after prevp: the whole node, or its tail under a new header.
    method TakeBlock(prevp: nat, p0: nat, nunits: nat, ghost j: nat) returns (ap: nat)
      requires HeapValid() && freep != 0 && j < |h.free| && 0 < nunits <= h.free[j].size
      requires prevp == Circle(base, h.free)[j].addr && p0 == h.free[j].addr
      modifies this`freep, this`hdr, this`h
      ensures HeapValid() && freep == prevp && ap > 1
      ensures h == State(Take(old(h.free), j, nunits), old(h.live)[ap - 1 := nunits], old(h.arena))
      ensures ap - 1 == Taken(old(h.free), j, nunits).addr
      ensures Allocated(base, old(hdr), old(h), hdr, h, ap - 1, nunits, Block(0, 0))
    {
      hide HeapOk, Allocated, OnCircle, Take, Circle;
      var p := p0;
      ghost var hdr0, h0 := hdr, h;
      TakeDone(hdr, base, h, j, nunits);
      if hdr[p].size == nunits {
        hdr := hdr[prevp := Header(hdr[p].next, hdr[prevp].size)];
      } else {
        hdr := hdr[p := Header(hdr[p].next, hdr[p].size - nunits)];
        p := p + hdr[p].size;
        hdr := hdr[p := Header(hdr[p].next, nunits)];
      }
      assert hdr == TakeCells(hdr0, prevp, p0, nunits);
      freep := prevp;
      ap := p + 1;
      h := State(Take(h.free, j, nunits), h.live[p := nunits], h.arena);
    }

    // Frames for the new region, and a kernel address at which they are mapped; 0 without frames,
    // addresses or page tables. Frames that could not be mapped stay allocated, and so does what was
    // mapped before a page in the way was met.
    method MapRegion(pageFrames: u32) returns (vaddr: u32)
      requires mmu.Valid() && 0 < pageFrames <= 0x10_0000 && GrowthInRange(mmu.mem, mmu.Books(), pageFrames)
      modifies mmu, mmu.pfa, mmu.pfa.start
      ensures mmu.Valid() && Extends(old(mmu.mem), old(mmu.Books()), mmu.mem, mmu.Books())
      ensures vaddr != 0 <==> Growable(mmu.pfa.mmap, old(mmu.pfa.free), old(mmu.mem), old(mmu.Books()), pageFrames)
      ensures NoChoice(mmu.pfa.mmap, old(mmu.pfa.free), pageFrames) ==>
        mmu.mem == old(mmu.mem) && mmu.Books() == old(mmu.Books())
      ensures vaddr != 0 ==>
        && vaddr % 0x1000 == 0
        && exists f :: NewRegion(old(mmu.mem), old(mmu.Books()), mmu.mem, mmu.Books(), vaddr / 0x1000, f, pageFrames)
    {
      hide Extends, View, FreeFrames, Regular, Clear, Missing, FoundAt, Growable, MapOutcome, Leads, NoChoice,
           EntryFits, NewRegion, Mappable, Stopped, TablesOk, SharingOk, WindowOk, DirsOk;
      var bytes: u32 := Wrap(pageFrames as int * 0x1000);
      ghost var mem0, g0 := mmu.mem, mmu.Books();
      var paddr := mmu.PfaAllocate(pageFrames);
      if paddr == 0 {
        ExtendsReflexive(mem0, g0);
        NoFramesToGrow(mmu.pfa.mmap, old(mmu.pfa.free), mem0, g0, pageFrames);
        return 0;
      }
      ghost var g1, f: PageNo := mmu.Books(), paddr / 0x1000;
      RunInRange(mmu.pfa.mmap, f, pageFrames, g0.avail);
      WholeRegion(pageFrames);
      RunTaken(mem0, g0, g1, f, pageFrames);
      ghost var i, o, m;
      vaddr, i, o := mmu.PdtKernelFindNextVaddr(bytes);
      if vaddr == 0 {
        NowhereToGrow(mmu.pfa.mmap, old(mmu.pfa.free), mem0, g0, pageFrames);
        return 0;
      }
      PlaceInRange(mem0, g0.layout, i, o, pageFrames, vaddr);
      var mappedMem;
      mappedMem, m := mmu.PdtMapMemory(mmu.kernelPdt, paddr, vaddr, bytes, 1, 0);
      ghost var mem2, g2 := mmu.mem, mmu.Books();
      RegionMapped(mem0, g0, g1, mem2, g2, f, pageFrames, vaddr, i, o, m);
      GrowableAt(mmu.pfa.mmap, old(mmu.pfa.free), mem0, g0, g1, pageFrames, i, o, vaddr);
      if mappedMem < bytes {
        return 0;
      }
    }

    // Grows the heap by whole pages, at least 8 KB, mapped at a fresh kernel address; the new block is
    // entered with kfree. If there is none, the list and the totals stay.
    method AcquireMoreHeap(nunits0: u32) returns (p: nat, ghost grown: Block)
      requires Valid() && freep != 0 && 0 < nunits0 <= UNITS
      requires GrowthInRange(mmu.mem, mmu.Books(), PagesFor(nunits0))
      modifies this, mmu, mmu.pfa, mmu.pfa.start
      ensures Valid() && Extends(old(mmu.mem), old(mmu.Books()), mmu.mem, mmu.Books())
      ensures p != 0 <==> Growable(mmu.pfa.mmap, old(mmu.pfa.free), old(mmu.mem), old(mmu.Books()), PagesFor(nunits0))
      ensures p == 0 ==> h == old(h) && freep == old(freep) && hdr == old(hdr)
      ensures p != 0 ==> p == freep && grown.size >= nunits0 && Grown(base, old(hdr), old(h), hdr, h, grown)
      ensures p != 0 ==>
        GrownBy(old(mmu.mem), old(mmu.Books()), mmu.mem, mmu.Books(), grown, PagesFor(nunits0))
    {
      hide Extends, Grows, Growable, GrowthInRange, View, FreeFrames, Regular, DivCeil, Grown;
      var nunits := if nunits0 < MIN_BLOCK_SIZE then MIN_BLOCK_SIZE else nunits0;
      GrowthSize(nunits0);
      var pageFrames := DivCeil(Wrap(nunits as int * 8), 0x1000);
      grown := Block(0, 0);
      ghost var mem0, g0 := mmu.mem, mmu.Books();
      var vaddr := MapRegion(pageFrames);
      ghost var mem1, g1 := mmu.mem, mmu.Books();
      ExtendsGrows(mem0, g0, mem1, g1);
      MappingsStay(mem0, g0, mem1, g1, base, h.arena);
      if vaddr == 0 {
        return 0, grown;
      }
      var region := Block(vaddr / 8, pageFrames * 0x1000 / 8);
      ghost var v := vaddr / 0x1000;
      ghost var f :| NewRegion(mem0, g0, mem1, g1, v, f, pageFrames);
      RegionUnits(vaddr, pageFrames);
      FreshRegion(mem0, g0, mem1, g1, v, f, pageFrames, base, h.arena);
      EnterRegion(region);
      grown := region;
      p := freep;
    }

    // The new block becomes live for a moment and is freed into the list.
    method EnterRegion(b: Block)
      requires HeapValid() && freep != 0 && b.size > 0 && base < b.addr && b.addr + b.size <= UNITS
        && Span(b) !! h.arena
      modifies this`freep, this`hdr, this`h
      ensures HeapValid() && freep != 0 && Grown(base, old(hdr), old(h), hdr, h, b)
    {
      var p := b.addr;
      ghost var hdr0, h0 := hdr, h;
      GrowStep(hdr, base, h, p, b.size);
      hdr := hdr[p := Header(hdr[p].next, b.size)];
      h := State(h.free, h.live[p := b.size], h.arena + Span(b));
      ghost var hdr1, h1 := hdr, h;
      Kfree(p + 1);
      GrownFits(base, hdr0, h0, hdr1, h1, hdr, h, b);
    }

    // kmalloc: the first block round the circle that is large enough, after growing the heap at most
    // once if there is none. The result is the unit after the block's header; it is 0 exactly when nothing
    // was asked for, or no block is large enough and the heap cannot grow. The block holds the payload
    // exactly when rounding its size does not wrap. Only a heap that would have to grow past 4 GB is
    // excluded.
    method Kmalloc(nbytes: u32) returns (ap: nat, ghost grown: Block)
      requires Valid() && (nbytes > 0 ==> Servable(h, mmu.mem, mmu.Books(), UnitsFor(nbytes)))
      modifies this, mmu, mmu.pfa, mmu.pfa.start
      ensures Valid() && Extends(old(mmu.mem), old(mmu.Books()), mmu.mem, mmu.Books())
      ensures ap == 0 <==>
        nbytes == 0
        || Refuses(old(h), mmu.pfa.mmap, old(mmu.pfa.free), old(mmu.mem), old(mmu.Books()), UnitsFor(nbytes))
      ensures ap == 0 ==> h == old(h) && freep == if nbytes > 0 && old(freep) == 0 then base else old(freep)
      ensures ap != 0 ==>
        && ap > 1 && freep != 0 && (8 * (UnitsFor(nbytes) - 1) >= nbytes <==> nbytes <= 0xFFFF_FFF8)
        && Allocated(base, old(hdr), old(h), hdr, h, ap - 1, UnitsFor(nbytes), grown)
        && (grown.size == 0 ==>
             && (var from := if old(freep) == 0 then base else old(freep);
                 NextFitTaken(base, from, old(h), h, freep, UnitsFor(nbytes), ap - 1))
             && mmu.mem == old(mmu.mem) && mmu.Books() == old(mmu.Books()))
        && (grown.size > 0 ==>
             && GrownBy(old(mmu.mem), old(mmu.Books()), mmu.mem, mmu.Books(), grown, PagesFor(UnitsFor(nbytes)))
             && GrownTaken(base, old(h), grown, h, freep, UnitsFor(nbytes), ap - 1))
    {
      hide Extends, Growable, GrowthInRange, View, FreeFrames, Regular, DivCeil, ArenaMapped, BaseMapped;
      grown := Block(0, 0);
      ExtendsReflexive(mmu.mem, mmu.Books());
      if nbytes == 0 {
        return 0, grown;
      }
      if freep == 0 {
        StartList();
      }
      var nunits: u32 := UnitsFor(nbytes);
      PayloadFits(nbytes);
      ap, grown := FindOrGrow(nunits);
    }

    // The empty list: base alone, linked to itself.
    method StartList()
      requires HeapValid() && freep == 0
      modifies this`freep, this`hdr
      ensures HeapValid() && freep == base && h == old(h) == EMPTY
      ensures hdr == old(hdr)[base := Header(base, 0)]
    {
      EmptyHeapOk(hdr, base);
      freep := base;
      hdr := hdr[base := Header(base, 0)];
      assert Circle(base, [])[0].addr == base;
    }

    ghost function Now(): Snapshot
      reads this, mmu, mmu.pfa
    {
      Snapshot(hdr, h, freep, mmu.mem, mmu.Books(), mmu.pfa.mmap, mmu.pfa.free)
    }

    // kmalloc's loop invariant: the walk has come to node p in t steps from freep, and nothing has
    // changed since the start but at most one growth of the heap.
    ghost predicate SearchOk(start: Snapshot, n: u32, t: nat, prevp: nat, p: nat, grown: Block)
      reads this, mmu, mmu.pfa, mmu.pfa.start
    {
      && Valid() && freep != 0 && p < UNITS && WalkAt(hdr, base, h.free, freep, t, prevp, p, n)
      && Searched(base, start, Now(), n, grown)
    }

    lemma SearchStarts(n: u32)
      requires Valid() && freep != 0
      ensures freep < UNITS && SearchOk(Now(), n, 1, freep, hdr[freep].next, Block(0, 0))
    {
      ExtendsReflexive(mmu.mem, mmu.Books());
      WalkBegins(hdr, base, h, freep, n);
    }

    lemma SearchSteps(start: Snapshot, n: u32, t: nat, prevp: nat, p: nat, grown: Block)
      requires SearchOk(start, n, t, prevp, p, grown) && p != freep && hdr[p].size < n
      ensures SearchOk(start, n, t + 1, p, hdr[p].next, grown) && t <= |h.free|
    {
      WalkStep(hdr, base, h, freep, t, prevp, p, n);
    }

    // The loop of kmalloc. It wraps round the list, and then grows the heap, at most once: after that
    // some block is large enough, and the walk meets it before or at its wrap check.
    method FindOrGrow(nunits: u32) returns (ap: nat, ghost grown: Block)
      requires Valid() && freep != 0 && 0 < nunits <= UNITS && Servable(h, mmu.mem, mmu.Books(), nunits)
      modifies this, mmu, mmu.pfa, mmu.pfa.start
      ensures Valid() && freep != 0 && Extends(old(mmu.mem), old(mmu.Books()), mmu.mem, mmu.Books())
      ensures ap == 0 <==>
        NoFit(old(h.free), nunits) &&
          !Growable(mmu.pfa.mmap, old(mmu.pfa.free), old(mmu.mem), old(mmu.Books()), PagesFor(nunits))
      ensures ap == 0 ==> h == old(h) && hdr == old(hdr) && freep == old(freep)
      ensures ap != 0 ==> ap > 1 && Allocated(base, old(hdr), old(h), hdr, h, ap - 1, nunits, grown)
      ensures ap != 0 && grown.size == 0 ==>
        && NextFitTaken(base, old(freep), old(h), h, freep, nunits, ap - 1)
        && mmu.mem == old(mmu.mem) && mmu.Books() == old(mmu.Books())
      ensures ap != 0 && grown.size > 0 ==>
        && GrownBy(old(mmu.mem), old(mmu.Books()), mmu.mem, mmu.Books(), grown, PagesFor(nunits))
        && GrownTaken(base, old(h), grown, h, freep, nunits, ap - 1)
    {
      hide Extends, ArenaMapped, BaseMapped, Sane, HeapOk, WalkAt, NextFitTaken, Allocated, Growable, Grown, View,
           FreeFrames, Regular;
      ghost var start, t: nat := Now(), 1;
      grown := Block(0, 0);
      SearchStarts(nunits);
      var prevp: nat := freep;
      var p: nat := hdr[prevp].next;
      while hdr[p].size < nunits
        invariant SearchOk(start, nunits, t, prevp, p, grown)
        decreases grown.size == 0, |h.free| + 1 - t
      {
        if p == freep {
          p, grown := GrowAtWrap(nunits, start, t, prevp, p, grown);
          if p == 0 {
            return 0, grown;
          }
          t := 0;
        } else {
          SearchSteps(start, nunits, t, prevp, p, grown);
        }
        t := t + 1;
        prevp, p := p, hdr[p].next;
      }
      ap := TakeFound(prevp, p, nunits, start, t, grown);
    }

    // The wrap check of the loop: only an unsuccessful first lap gets here.
    method GrowAtWrap(nunits: u32, ghost start: Snapshot, ghost t: nat, ghost prevp: nat, p0: nat, ghost grown0: Block)
      returns (p: nat, ghost grown: Block)
      requires SearchOk(start, nunits, t, prevp, p0, grown0) && p0 == freep && hdr[p0].size < nunits
      requires 0 < nunits <= UNITS && WellFormed(start.mem, start.g.layout)
        && Servable(start.h, start.mem, start.g, nunits)
      modifies this, mmu, mmu.pfa, mmu.pfa.start
      ensures grown0.size == 0
      ensures p != 0 <==> Growable(start.rs, start.free, start.mem, start.g, PagesFor(nunits))
      ensures p == 0 ==>
        && Valid() && WellFormed(start.mem, start.g.layout) && Extends(start.mem, start.g, mmu.mem, mmu.Books())
        && h == start.h && hdr == start.hdr && freep == start.freep != 0 && NoFit(h.free, nunits)
      ensures p != 0 ==>
        HeapValid() && p == freep < UNITS && grown.size > 0
        && SearchOk(start, nunits, 1, p, hdr[p].next, grown)
    {
      hide Growable, Extends, ArenaMapped, BaseMapped, View, FreeFrames, Regular;
      WalkWrapped(hdr, base, h, freep, t, prevp, p0, nunits);
      NotYetGrown(base, start, Now(), nunits, grown0);
      p, grown := AcquireMoreHeap(nunits);
      if p != 0 {
        WalkBegins(hdr, base, h, freep, nunits);
      }
    }

    // The successful exit of the loop.
    method TakeFound(prevp: nat, p: nat, nunits: u32, ghost start: Snapshot, ghost t: nat, ghost grown: Block)
      returns (ap: nat)
      requires SearchOk(start, nunits, t, prevp, p, grown) && hdr[p].size >= nunits > 0
      modifies this`freep, this`hdr, this`h
      ensures HeapValid() && freep != 0 && ap > 1 && h.arena == old(h.arena)
      ensures Allocated(base, start.hdr, start.h, hdr, h, ap - 1, nunits, grown)
      ensures WellFormed(start.mem, start.g.layout)
      ensures NoFit(start.h.free, nunits) ==> Growable(start.rs, start.free, start.mem, start.g, PagesFor(nunits))
      ensures grown.size == 0 ==> NextFitTaken(base, start.freep, start.h, h, freep, nunits, ap - 1)
      ensures grown.size > 0 ==>
        && GrownBy(start.mem, start.g, mmu.mem, mmu.Books(), grown, PagesFor(nunits))
        && GrownTaken(base, start.h, grown, h, freep, nunits, ap - 1)
    {
      hide Growable, Extends, ArenaMapped, BaseMapped, GrownBy, GrownTaken, NextFitTaken, IsNextFit, Searched, HeapOk,
           Allocated, WalkAt;
      ghost var now := Now();
      ghost var j := WalkFits(hdr, base, h, freep, t, prevp, p, nunits);
      ap := TakeBlock(prevp, p, nunits, j);
      AllocatedFrom(base, start, now, hdr, h, ap - 1, nunits, grown);
      TakenFrom(base, start, now, h, freep, j, nunits, ap - 1, grown);
    }
  }

  // What kmalloc starts from, and what it has come to.
  datatype Snapshot = Snapshot(hdr: seq<Header>, h: State, freep: nat, mem: Memory, g: Ledger, rs: seq<Region>,
                               free: seq<bool>)

  // The search so far: nothing has changed, or the heap has grown because no block was large enough.
  ghost predicate Searched(base: nat, start: Snapshot, now: Snapshot, n: u32, grown: Block)
  {
    && WellFormed(start.mem, start.g.layout) && Extends(start.mem, start.g, now.mem, now.g)
    && if grown.size == 0 then now == start
       else
         && Grown(base, start.hdr, start.h, now.hdr, now.h, grown) && grown.size >= n && NoFit(start.h.free, n)
         && Growable(start.rs, start.free, start.mem, start.g, PagesFor(n))
         && GrownBy(start.mem, start.g, now.mem, now.g, grown, PagesFor(n)) && Canonical(start.h.free, base)
  }

  lemma NotYetGrown(base: nat, start: Snapshot, now: Snapshot, n: u32, grown: Block)
    requires Searched(base, start, now, n, grown) && NoFit(now.h.free, n)
    ensures grown.size == 0 && now == start
  {
  }

  // kmalloc's walk, t steps after freep: all nodes passed so far are too small.
  ghost predicate WalkAt(hdr: seq<Header>, base: nat, fs: seq<Block>, freep: nat, t: nat, prevp: nat, p: nat, n: nat)
  {
    exists pos: nat :: Walking(hdr, Circle(base, fs), freep, pos, t, prevp, p, n)
  }

  ghost predicate Walking(hdr: seq<Header>, c: seq<Block>, freep: nat, pos: nat, t: nat, prevp: nat, p: nat, n: nat)
  {
    && pos < |c| && freep == c[pos].addr && 1 <= t <= |c|
    && p == c[Ahead(pos, t, |c|)].addr && prevp == c[Ahead(pos, t - 1, |c|)].addr
    && p < |hdr| && hdr[p].size == c[Ahead(pos, t, |c|)].size
    && forall s: nat :: 1 <= s < t ==> c[Ahead(pos, s, |c|)].size < n
  }

  lemma AddressesDiffer(base: nat, fs: seq<Block>, i: nat, j: nat)
    requires Canonical(fs, base) && i <= |fs| && j <= |fs|
    ensures Circle(base, fs)[i].addr == Circle(base, fs)[j].addr ==> i == j
  {
    if i < j { CircleOrdered(base, fs, i, j); }
    if j < i { CircleOrdered(base, fs, j, i); }
  }

  lemma NodeCell(hdr: seq<Header>, base: nat, h: State, k: nat)
    requires HeapOk(hdr, base, h) && k <= |h.free|
    ensures
      var c := Circle(base, h.free);
      && c[k].addr < |hdr| && hdr[c[k].addr] == Header(NextIn(c, k), c[k].size)
  {
    var c := Circle(base, h.free);
    assert CellOk(hdr, c, base, k);
    assert c[0].addr == base;
  }

  lemma WalkBegins(hdr: seq<Header>, base: nat, h: State, freep: nat, n: nat)
    requires HeapOk(hdr, base, h) && OnCircle(base, h.free, freep)
    ensures freep < |hdr| && hdr[freep].next < |hdr| && WalkAt(hdr, base, h.free, freep, 1, freep, hdr[freep].next, n)
  {
    var c := Circle(base, h.free);
    var pos: nat :| pos <= |h.free| && freep == c[pos].addr;
    NodeCell(hdr, base, h, pos);
    NodeCell(hdr, base, h, Ahead(pos, 1, |c|));
    assert Walking(hdr, c, freep, pos, 1, freep, hdr[freep].next, n);
  }

  lemma WalkStep(hdr: seq<Header>, base: nat, h: State, freep: nat, t: nat, prevp: nat, p: nat, n: nat)
    requires HeapOk(hdr, base, h) && WalkAt(hdr, base, h.free, freep, t, prevp, p, n) && p != freep
    requires p < |hdr| && hdr[p].size < n
    ensures t <= |h.free| && hdr[p].next < |hdr| && WalkAt(hdr, base, h.free, freep, t + 1, p, hdr[p].next, n)
  {
    hide HeapOk;
    var c := Circle(base, h.free);
    var pos: nat :| Walking(hdr, c, freep, pos, t, prevp, p, n);
    var k, k' := Ahead(pos, t, |c|), Ahead(pos, t + 1, |c|);
    assert t == |c| ==> k == pos;
    NodeCell(hdr, base, h, k);
    assert NextIn(c, k) == c[k'].addr;
    NodeCell(hdr, base, h, k');
    assert Walking(hdr, c, freep, pos, t + 1, p, hdr[p].next, n);
  }

  // Back at freep every node has been tried, so no block is large enough.
  lemma WalkWrapped(hdr: seq<Header>, base: nat, h: State, freep: nat, t: nat, prevp: nat, p: nat, n: nat)
    requires HeapOk(hdr, base, h) && WalkAt(hdr, base, h.free, freep, t, prevp, p, n)
    requires p < |hdr| && hdr[p].size < n && p == freep
    ensures NoFit(h.free, n)
  {
    var c := Circle(base, h.free);
    var pos: nat :| Walking(hdr, c, freep, pos, t, prevp, p, n);
    var k := Ahead(pos, t, |c|);
    AddressesDiffer(base, h.free, k, pos);
    forall i | 0 <= i < |h.free|
      ensures h.free[i].size < n
    {
      assert c[i + 1] == h.free[i];
      var s: nat := if i + 1 > pos then i + 1 - pos else i + 1 - pos + |c|;
      assert Ahead(pos, s, |c|) == i + 1;
    }
  }

  // The node found is a free block with the node before it, and it is the next fit.
  lemma WalkFits(hdr: seq<Header>, base: nat, h: State, freep: nat, t: nat, prevp: nat, p: nat, n: nat) returns (j: nat)
    requires HeapOk(hdr, base, h) && WalkAt(hdr, base, h.free, freep, t, prevp, p, n)
    requires p < |hdr| && hdr[p].size >= n > 0
    ensures j < |h.free| && p == h.free[j].addr && prevp == Circle(base, h.free)[j].addr && h.free[j].size >= n
    ensures IsNextFit(base, h.free, freep, j, n)
  {
    var c := Circle(base, h.free);
    var pos: nat :| Walking(hdr, c, freep, pos, t, prevp, p, n);
    var k := Ahead(pos, t, |c|);
    assert c[0].size == 0;
    j := k - 1;
    assert c[k] == h.free[j];
    assert Ahead(pos, t - 1, |c|) == j;
    assert NextFit(c, pos, t, n);
  }

  // Free block j is the first one round the circle after freep that holds n units.
  ghost predicate IsNextFit(base: nat, fs: seq<Block>, freep: nat, j: nat, n: nat)
  {
    exists pos: nat, t: nat ::
      NextFit(Circle(base, fs), pos, t, n) && freep == Circle(base, fs)[pos].addr && Ahead(pos, t, |fs| + 1) == j + 1
  }

  // Taking n units from free block j: its tail, or all of it, at address a; freep is left before the block.
  ghost predicate Takes(base: nat, fs: seq<Block>, h: State, freep: nat, j: nat, n: nat, a: nat)
  {
    && j < |fs| && fs[j].size >= n
    && h.free == Take(fs, j, n) && a == fs[j].addr + (fs[j].size - n) && freep == Circle(base, fs)[j].addr
  }

  // What kmalloc took when a block was large enough: the next fit.
  ghost predicate NextFitTaken(base: nat, freep0: nat, h0: State, h: State, freep: nat, n: nat, a: nat)
  {
    exists j: nat :: Takes(base, h0.free, h, freep, j, n, a) && IsNextFit(base, h0.free, freep0, j, n)
  }

  // What it took after growth: the block of the list that the region has become part of.
  ghost predicate GrownTaken(base: nat, h0: State, grown: Block, h: State, freep: nat, n: nat, a: nat)
  {
    exists fs, j: nat ::
      && Takes(base, fs, h, freep, j, n, a) && Canonical(fs, base) && Units(fs) == Units(h0.free) + Span(grown)
      && !(Span(fs[j]) !! Span(grown))
  }

  lemma TakenFrom(base: nat, start: Snapshot, now: Snapshot, h: State, freep: nat, j: nat, n: u32, a: nat, grown: Block)
    requires Searched(base, start, now, n, grown) && Takes(base, now.h.free, h, freep, j, n, a)
    requires IsNextFit(base, now.h.free, now.freep, j, n)
    ensures grown.size == 0 ==> NextFitTaken(base, start.freep, start.h, h, freep, n, a)
    ensures grown.size > 0 ==> GrownTaken(base, start.h, grown, h, freep, n, a)
    ensures WellFormed(start.mem, start.g.layout)
    ensures grown.size > 0 ==> GrownBy(start.mem, start.g, now.mem, now.g, grown, PagesFor(n))
    ensures NoFit(start.h.free, n) ==> Growable(start.rs, start.free, start.mem, start.g, PagesFor(n))
  {
    hide Growable, GrownBy, WellFormed, Extends, IsNextFit, Takes, PagesFor;
    if grown.size == 0 {
      FitsNow(base, now.h, h, freep, j, n, a);
    } else {
      OnlyFit(base, start.h.free, now.h.free, grown, h, freep, j, n, a);
    }
  }

  // A block that holds n units after growth has taken in some of the region, if none held them before.
  lemma OnlyFit(base: nat, fs0: seq<Block>, fs: seq<Block>, grown: Block, h: State, freep: nat, j: nat, n: nat, a: nat)
    requires Canonical(fs0, base) && Canonical(fs, base) && Units(fs) == Units(fs0) + Span(grown) && NoFit(fs0, n)
    requires Takes(base, fs, h, freep, j, n, a)
    ensures j < |fs| && !(Span(fs[j]) !! Span(grown))
  {
    if Span(fs[j]) !! Span(grown) {
      forall u | u in Span(fs[j])
        ensures u in Units(fs0)
      {
        InUnits(fs, j, u);
      }
      var i := CoverFits(fs0, base, fs[j]);
    }
  }

  lemma FitsNow(base: nat, h0: State, h: State, freep: nat, j: nat, n: nat, a: nat)
    requires Takes(base, h0.free, h, freep, j, n, a)
    ensures !NoFit(h0.free, n)
  {
  }

  // Composing growth, if any, and taking the block.
  lemma AllocatedFrom(base: nat, start: Snapshot, now: Snapshot, hdr: seq<Header>, h: State, a: nat, n: u32,
                      grown: Block)
    requires Allocated(base, now.hdr, now.h, hdr, h, a, n, Block(0, 0)) && Searched(base, start, now, n, grown)
    ensures Allocated(base, start.hdr, start.h, hdr, h, a, n, grown)
  {
    hide Growable, GrownBy, WellFormed, Extends, PagesFor, Canonical;
    assert Span(Block(0, 0)) == {};
    if grown.size == 0 {
      assert Span(grown) == {};
    }
  }

  // Outcome of growth by a region: its units are acquired and free, the live blocks are untouched, and
  // some free block is as large as the region.
  ghost predicate Grown(base: nat, hdr0: seq<Header>, h0: State, hdr: seq<Header>, h: State, b: Block)
  {
    && h.live == h0.live && h.arena == h0.arena + Span(b) && Span(b) !! h0.arena
    && Units(h.free) == Units(h0.free) + Span(b) && Canonical(h.free, base)
    && (exists i :: 0 <= i < |h.free| && h.free[i].size >= b.size)
    && |hdr| == |hdr0| && forall x :: 0 <= x < |hdr| && x !in Units(h.free) && x != base ==> hdr[x] == hdr0[x]
  }

  lemma GrownFits(base: nat, hdr0: seq<Header>, h0: State, hdr1: seq<Header>, h1: State, hdr: seq<Header>, h: State,
                  b: Block)
    requires HeapOk(hdr0, base, h0) && b.size > 0 && Span(b) !! h0.arena && b.addr < |hdr0| && b.addr !in h0.live
    requires hdr1 == hdr0[b.addr := Header(hdr0[b.addr].next, b.size)]
    requires h1 == State(h0.free, h0.live[b.addr := b.size], h0.arena + Span(b))
    requires Freed(base, hdr1, h1, hdr, h, b.addr)
    ensures Grown(base, hdr0, h0, hdr, h, b)
  {
    assert h.live == h0.live;
    var i := CoverFits(h.free, base, b);
    assert b.addr in Span(b);
  }

  // The n pages from page v on, at the place the search settles on, were unmapped and now are mapped, for the
  // kernel, to the n frames from f on; those were free and now are data. Besides, only the missing tables have
  // taken frames.
  ghost predicate NewRegion(mem0: Memory, g0: Ledger, mem: Memory, g: Ledger, v: nat, f: nat, n: nat)
    requires WellFormed(mem0, g0.layout)
  {
    var k := g0.layout.kernelPdt;
    && 0xC_0000 <= v && 0 < n && v + n <= PAGES && FoundAt(mem0, k, v / 1024, v % 1024, n)
    && FrameRun(f, n) <= g0.avail && g.data == g0.data + FrameRun(f, n)
    && |g.avail| == |g0.avail| - n - |Missing(mem0, k, v, n)|
    && forall vp :: v <= vp < v + n ==>
       Walk(mem0, k, vp) == Unmapped && Walk(mem, k, vp) == Mapped(f + (vp - v), true, false)
  }

  // The block of units that lies in such pages.
  ghost predicate GrownBy(mem0: Memory, g0: Ledger, mem: Memory, g: Ledger, grown: Block, n: nat)
    requires WellFormed(mem0, g0.layout)
  {
    exists v: nat, f: nat :: NewRegion(mem0, g0, mem, g, v, f, n) && grown == Block(v * 512, n * 512)
  }

  // Page frames a request for so many units asks for when the heap grows.
  function PagesFor(nunits: u32): u32
  {
    DivCeil(Wrap((if nunits < MIN_BLOCK_SIZE then MIN_BLOCK_SIZE else nunits) as int * 8), 0x1000)
  }

  // The place the search settles on for n pages does not reach past 4 GB.
  ghost predicate PlacesFit(mem: Memory, k: nat, n: nat)
    requires k < PAGES
  {
    forall i: nat, o: nat :: FoundAt(mem, k, i, o, n) ==> i * 1024 + o + n <= PAGES
  }

  ghost predicate GrowthInRange(mem: Memory, g: Ledger, n: nat)
    requires WellFormed(mem, g.layout)
  {
    |g.avail| < n || PlacesFit(mem, g.layout.kernelPdt, n)
  }

  // A request that can be served from the list, or with growth that stays below 4 GB.
  ghost predicate Servable(h: State, mem: Memory, g: Ledger, nunits: u32)
    requires WellFormed(mem, g.layout)
  {
    !NoFit(h.free, nunits) || GrowthInRange(mem, g, PagesFor(nunits))
  }

  // The heap can grow by n pages: there is a window of n free frames, and the place the search settles on
  // is clear and leaves a frame for every missing table.
  ghost predicate Growable(rs: seq<Region>, free: seq<bool>, mem: Memory, g: Ledger, n: nat)
    requires WellFormed(mem, g.layout)
  {
    && !NoChoice(rs, free, n)
    && exists i: nat, o: nat :: FoundAt(mem, g.layout.kernelPdt, i, o, n) && GrowsAt(mem, g, i * 1024 + o, n)
  }

  // No block holds n units, and the heap cannot grow for them.
  ghost predicate Refuses(h: State, rs: seq<Region>, free: seq<bool>, mem: Memory, g: Ledger, n: u32)
    requires WellFormed(mem, g.layout)
  {
    NoFit(h.free, n) && !Growable(rs, free, mem, g, PagesFor(n))
  }

  ghost predicate GrowsAt(mem: Memory, g: Ledger, v: nat, n: nat)
    requires WellFormed(mem, g.layout)
  {
    0 < n && v + n <= PAGES && Clear(mem, g.layout.kernelPdt, v, n)
      && |Missing(mem, g.layout.kernelPdt, v, n)| + n <= |g.avail|
  }

  // Requests for up to 1024 pages can always be served or refused: their place is inside one entry.
  lemma SmallRequests(mem: Memory, g: Ledger, h: State, nunits: u32)
    requires WellFormed(mem, g.layout) && nunits <= 0x8_0000
    ensures Servable(h, mem, g, nunits)
  {
    GrowthSize(nunits);
    assert PlacesFit(mem, g.layout.kernelPdt, PagesFor(nunits));
  }

  lemma RunInRange(rs: seq<Region>, f: nat, n: nat, avail: set<nat>)
    requires Regular(rs) && OneRegion(rs, 0, f, n) && FrameRun(f, n) <= avail
    ensures f + n <= PAGES && n <= 0xF_FFFF && n <= |avail| && |avail - FrameRun(f, n)| == |avail| - n
  {
    var k :| 0 <= k < |rs| && rs[k].First() <= f && f + n <= rs[k].First() + rs[k].Count();
    RunSize(f, n);
    assert avail == FrameRun(f, n) + (avail - FrameRun(f, n));
  }

  lemma RunTaken(mem: Memory, g0: Ledger, g1: Ledger, f: PageNo, n: nat)
    requires Sane(mem, g0) && FrameRun(f, n) <= g0.avail
    requires g1 == Ledger(g0.layout, g0.avail - FrameRun(f, n), g0.data + FrameRun(f, n))
    ensures Extends(mem, g0, mem, g1)
  {
    ExtendsTaken(mem, g0, g1, FrameRun(f, n));
  }

  lemma NoFramesToGrow(rs: seq<Region>, free: seq<bool>, mem: Memory, g: Ledger, n: nat)
    requires WellFormed(mem, g.layout) && NoChoice(rs, free, n)
    ensures !Growable(rs, free, mem, g, n)
  {
  }

  lemma NowhereToGrow(rs: seq<Region>, free: seq<bool>, mem: Memory, g: Ledger, n: nat)
    requires WellFormed(mem, g.layout) && forall x :: 768 <= x < 1024 ==> !EntryFits(mem, g.layout.kernelPdt, x, n)
    ensures !Growable(rs, free, mem, g, n)
  {
    forall i: nat, o: nat | FoundAt(mem, g.layout.kernelPdt, i, o, n)
      ensures false
    {
      FoundFits(mem, g.layout.kernelPdt, i, o, n);
    }
  }

  // A place in the kernel's part that stays below 4 GB touches no large page.
  lemma PlaceInRange(mem: Memory, L: Layout, i: nat, o: nat, n: Count, vaddr: u32)
    requires WellFormed(mem, L) && FoundAt(mem, L.kernelPdt, i, o, n) && PlacesFit(mem, L.kernelPdt, n) && 0 < n
    requires vaddr == i * 0x40_0000 + o * 0x1000
    ensures vaddr % 0x1000 == 0 && vaddr / 0x1000 == i * 1024 + o && i * 1024 + o + n <= PAGES
    ensures NoLarge(mem, L.kernelPdt, vaddr / 0x1000, n)
  {
    Multiple(vaddr, i * 1024 + o);
    var v: PageNo := vaddr / 0x1000;
    forall k | 0 <= k < n
      ensures !LargePage(mem[L.kernelPdt][PageAt(v, k) / 1024])
    {
      assert PageAt(v, k) == v + k && PageAt(v, k) / 1024 >= 768;
      assert DirEntryOk(L, mem[L.kernelPdt][PageAt(v, k) / 1024], PageAt(v, k) / 1024);
    }
  }

  // What mapping the region in the kernel's directory means, whether it was mapped in full or not.
  lemma RegionMapped(mem0: Memory, g0: Ledger, g1: Ledger, mem2: Memory, g2: Ledger, f: PageNo, n: Count, vaddr: u32,
                     i: nat, o: nat, m: Count)
    requires WellFormed(mem0, g0.layout) && Extends(mem0, g0, mem0, g1) && f + n <= PAGES && FrameRun(f, n) <= g0.avail
    requires g1 == Ledger(g0.layout, g0.avail - FrameRun(f, n), g0.data + FrameRun(f, n))
      && |g1.avail| == |g0.avail| - n
    requires 0 < n && FoundAt(mem0, g0.layout.kernelPdt, i, o, n) && vaddr == i * 0x40_0000 + o * 0x1000
    requires i * 1024 + o + n <= PAGES
    requires MapOutcome(mem0, g1, mem2, g2, g0.layout.kernelPdt, vaddr / 0x1000, f, m, 1, 0)
    ensures Extends(mem0, g0, mem2, g2)
    ensures m == n ==> g2.data == g1.data ==>
      |g2.avail| == |g1.avail| - |Missing(mem0, g0.layout.kernelPdt, vaddr / 0x1000, n)| ==>
      NewRegion(mem0, g0, mem2, g2, vaddr / 0x1000, f, n)
  {
    hide Extends, SameSharing, Touches, Missing, FoundAt, FirstRun, EntryFits, Leads, Walk, DirsOk, TablesOk, SharingOk,
         WindowOk;
    var k, v: PageNo := g0.layout.kernelPdt, vaddr / 0x1000;
    KernelMapExtends(mem0, g1, mem2, g2, v, f, m, 1, 0);
    ExtendsTransitive(mem0, g0, mem0, g1, mem2, g2);
    FoundInEntry(mem0, k, i, o, n);
    PlaceSplits(i, o, vaddr);
    if m == n {
      RangeTranslated(mem0, mem2, g0.layout.dirs, k, v, f, n, 1, 0);
    }
  }

  // The mapping succeeds exactly when the heap can grow.
  lemma GrowableAt(rs: seq<Region>, free: seq<bool>, mem: Memory, g0: Ledger, g1: Ledger, n: Count, i: nat, o: nat,
                   vaddr: u32)
    requires WellFormed(mem, g0.layout) && !NoChoice(rs, free, n) && FoundAt(mem, g0.layout.kernelPdt, i, o, n) && 0 < n
    requires vaddr / 0x1000 == i * 1024 + o && i * 1024 + o + n <= PAGES && |g1.avail| == |g0.avail| - n
    ensures Growable(rs, free, mem, g0, n) <==> Mappable(mem, g1, g0.layout.kernelPdt, vaddr / 0x1000, n)
  {
    var k := g0.layout.kernelPdt;
    if i': nat, o': nat :| FoundAt(mem, k, i', o', n) && GrowsAt(mem, g0, i' * 1024 + o', n) {
      FoundOnce(mem, k, i, o, i', o', n);
    }
    if Mappable(mem, g1, k, vaddr / 0x1000, n) {
      assert FoundAt(mem, k, i, o, n) && GrowsAt(mem, g0, i * 1024 + o, n);
    }
  }

  // Rounding units up to pages covers them, even where it wraps to the whole address space.
  lemma GrowthSize(nunits: u32)
    requires nunits <= UNITS
    ensures 0 < PagesFor(nunits) <= 0x10_0000 && PagesFor(nunits) * 0x1000 / 8 >= nunits
    ensures nunits <= 0x8_0000 ==> PagesFor(nunits) <= 1024
  {
    hide DivCeil;
    var n: u32 := if nunits < MIN_BLOCK_SIZE then MIN_BLOCK_SIZE else nunits;
    if n < UNITS {
      assert Wrap(n as int * 8) == n * 8;
      DivCeilExact(n * 8);
      PagesCover(n);
    } else {
      assert Wrap(n as int * 8) == 0;
      DivCeilExact(0);
    }
  }

  // Growth asks for two pages at least, 8 KB, and otherwise for as few as hold the units.
  lemma PagesTight(nunits: u32)
    requires nunits <= UNITS
    ensures PagesFor(nunits) >= 2 && nunits <= PagesFor(nunits) * 512
    ensures PagesFor(nunits) > 2 ==> (PagesFor(nunits) - 1) * 512 < nunits
  {
    hide DivCeil;
    var n: u32 := if nunits < MIN_BLOCK_SIZE then MIN_BLOCK_SIZE else nunits;
    if n < UNITS {
      assert Wrap(n as int * 8) == n * 8;
      DivCeilExact(n * 8);
    } else {
      DivCeilExact(0);
    }
  }

  lemma PagesCover(n: nat)
    requires 0 < n < UNITS
    ensures (n * 8 + 0xFFF) / 0x1000 * 512 >= n && 0 < (n * 8 + 0xFFF) / 0x1000 <= 0x10_0000
    ensures n <= 0x8_0000 ==> (n * 8 + 0xFFF) / 0x1000 <= 1024
  {
  }

  lemma WholeRegion(pages: nat)
    requires pages <= 0xF_FFFF
    ensures PageCount(pages * 0x1000) == pages && AlignUp(pages * 0x1000, 0x1000) == pages * 0x1000
  {
  }

  lemma MappingsStay(mem0: Memory, g0: Ledger, mem: Memory, g: Ledger, base: nat, arena: set<nat>)
    requires WellFormed(mem0, g0.layout) && Grows(mem0, g0, mem, g)
    requires BaseMapped(mem0, g0.layout.kernelPdt, base) && ArenaMapped(mem0, g0.layout.kernelPdt, arena)
    ensures BaseMapped(mem, g0.layout.kernelPdt, base) && ArenaMapped(mem, g0.layout.kernelPdt, arena)
  {
  }

  // A freshly mapped region lies above base, shares no unit with the arena, and is mapped.
  lemma RegionUnits(vaddr: u32, n: nat)
    requires vaddr % 0x1000 == 0
    ensures vaddr / 8 == vaddr / 0x1000 * 512 && n * 0x1000 / 8 == n * 512
  {
    var v := vaddr / 0x1000;
    assert vaddr == v * 0x1000;
  }

  lemma FreshRegion(mem0: Memory, g0: Ledger, mem: Memory, g: Ledger, v: nat, f: nat, n: nat, base: nat,
                    arena: set<nat>)
    requires WellFormed(mem0, g0.layout) && NewRegion(mem0, g0, mem, g, v, f, n)
    requires BaseMapped(mem0, g0.layout.kernelPdt, base)
    requires ArenaMapped(mem0, g0.layout.kernelPdt, arena) && ArenaMapped(mem, g0.layout.kernelPdt, arena)
    ensures
      var b := Block(v * 512, n * 512);
      && b.size > 0 && base < b.addr && b.addr + b.size <= UNITS && Span(b) !! arena
      && ArenaMapped(mem, g0.layout.kernelPdt, arena + Span(b))
  {
    var b, k := Block(v * 512, n * 512), g0.layout.kernelPdt;
    forall u | u in Span(b)
      ensures v <= u / 512 < v + n && u !in arena
    {
      assert v <= u / 512 < v + n;
    }
    assert v <= base / 512 <==> v * 512 <= base;
    assert Walk(mem0, k, v) == Unmapped;
  }

  // Which way the walk of kfree goes at position k: it stops at the gap and nowhere else.
  lemma StopAtGap(fs: seq<Block>, base: nat, k: nat, bp: nat, g: nat)
    requires Canonical(fs, base) && k <= |fs| && Gap(fs, bp, g) && base < bp
    ensures
      var c := Circle(base, fs);
      var p, next := c[k].addr, NextIn(c, k);
      && (bp > p && bp < next <==> k == g && k < |fs|)
      && (p >= next && (bp > p || bp < next) <==> k == g && k == |fs|)
  {
    var c := Circle(base, fs);
    if k < |fs| {
      assert c[k + 1] == fs[k];
    }
    if k > 0 {
      assert c[k] == fs[k - 1];
    }
    if 0 < k < |fs| {
      assert fs[k - 1].addr + fs[k - 1].size < fs[k].addr;
    }
  }

  lemma InsertKeepsNode(fs: seq<Block>, base: nat, g: nat, b: Block)
    requires g <= |fs|
    ensures g <= |Insert(fs, g, b)| && Circle(base, Insert(fs, g, b))[g].addr == Circle(base, fs)[g].addr
  {
    var lower, r := fs[..g], AddBefore(b, fs[g..]);
    if g > 0 {
      assert Insert(fs, g, b)[g - 1].addr == fs[g - 1].addr;
    }
  }

  // Cutting n units out of free block j.
  lemma TakeDone(hdr: seq<Header>, base: nat, h: State, j: nat, n: nat)
    requires HeapOk(hdr, base, h) && 0 < base && j < |h.free| && 0 < n <= h.free[j].size
    ensures
      var p, prev, t := h.free[j].addr, Circle(base, h.free)[j].addr, Taken(h.free, j, n);
      && 0 < prev < |hdr| && p < |hdr| && hdr[p].size == h.free[j].size && t.addr > 0 && p + (hdr[p].size - n) < |hdr|
      && var hdr' := TakeCells(hdr, prev, p, n);
         var h' := State(Take(h.free, j, n), h.live[t.addr := n], h.arena);
         HeapOk(hdr', base, h') && OnCircle(base, h'.free, prev)
           && Allocated(base, hdr, h, hdr', h', t.addr, n, Block(0, 0))
  {
    hide Linked, LiveOk;
    TakeStep(hdr, base, h, j, n);
    TakenNode(h.free, base, j, n);
    assert Span(Block(0, 0)) == {};
  }

  lemma TakenNode(fs: seq<Block>, base: nat, j: nat, n: nat)
    requires j < |fs| && n <= fs[j].size
    ensures j <= |Take(fs, j, n)| && Circle(base, Take(fs, j, n))[j].addr == Circle(base, fs)[j].addr
  {
  }

  lemma NodeUnits(fs: seq<Block>, base: nat, k: nat)
    requires Canonical(fs, base) && k <= |fs|
    ensures Circle(base, fs)[k].addr == base || Circle(base, fs)[k].addr in Units(fs)
  {
    if k > 0 {
      InUnits(fs, k - 1, fs[k - 1].addr);
    }
  }
}
