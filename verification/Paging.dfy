// The paging code of the kernel: the temporary window, mapping, unmapping, and the search for
// free virtual ranges, over physical memory that the page tables themselves live in.
module Paging {
  import opened Machine
  import opened MemoryMap
  import opened FrameScan
  import opened FrameAllocator
  import opened PageTables
  import opened AddressSpace
  import opened MapSteps
  import opened Window
  import opened Directories
  import opened Effects
  import opened Ledgers
  import opened MapLoops
  import opened UnmapLoops
  import opened Placement

  class Mmu {
    // kernel_pdt and kernel_pt, named by the frames they occupy.
    const kernelPdt: nat
    const kernelPt: nat
    const pfa: Pfa

    var mem: Memory

    ghost var layout: Layout
    ghost var data: set<nat>

    ghost function Books(): Ledger
      reads this, pfa
    {
      Ledger(layout, pfa.avail, data)
    }

    ghost predicate Valid()
      reads this, pfa, pfa.start
    {
      && pfa.Valid()
      && layout.kernelPdt == kernelPdt && layout.kernelPt == kernelPt
      && Sane(mem, Books())
      && TablesHeld()
    }

    // Every page table but the one linked into the kernel image came from the allocator.
    ghost predicate TablesHeld()
      reads this
    {
      forall t :: t in layout.tables && t != kernelPt ==> Held(pfa.mmap, t)
    }

    // The paging state once the kernel's directory and table and a page-frame bitmap are in place.
    constructor (mem: Memory, pfa: Pfa, ghost layout: Layout, kernelPdt: nat, kernelPt: nat)
      requires pfa.Valid() && WellFormed(mem, layout)
      requires layout.kernelPdt == kernelPdt && layout.kernelPt == kernelPt
      requires Ledger(layout, pfa.avail, {}).Separate()
      requires forall t :: t in layout.tables && t != kernelPt ==> Held(pfa.mmap, t)
      ensures Valid()
      ensures this.mem == mem && this.pfa == pfa && this.layout == layout && data == {}
      ensures this.kernelPdt == kernelPdt && this.kernelPt == kernelPt
    {
      FreeFramesHeld(pfa.mmap, pfa.free);
      this.mem, this.pfa, this.layout, this.data := mem, pfa, layout, {};
      this.kernelPdt, this.kernelPt := kernelPdt, kernelPt;
    }

    method KernelMapTemporaryMemory(paddr: u32) returns (vaddr: u32)
      requires kernelPt < PAGES
      modifies this`mem
      ensures vaddr == KERNEL_TMP_VADDR
      ensures mem == SetWindow(old(mem), kernelPt, CreatePtEntry(paddr, 1, 0))
    {
      mem := mem[kernelPt := mem[kernelPt][KERNEL_TMP_PT_IDX := CreatePtEntry(paddr, 1, 0)]];
      return KERNEL_TMP_VADDR;
    }

    method KernelSetTemporaryEntry(entry: Entry)
      requires kernelPt < PAGES
      modifies this`mem
      ensures mem == SetWindow(old(mem), kernelPt, entry)
    {
      mem := mem[kernelPt := mem[kernelPt][KERNEL_TMP_PT_IDX := entry]];
    }

    method KernelGetTemporaryEntry() returns (entry: Entry)
      requires kernelPt < PAGES
      ensures entry == mem[kernelPt][1023]
    {
      return mem[kernelPt][KERNEL_TMP_PT_IDX];
    }

    // The frame behind a page table pointer: every access through the window goes by the walk.
    function TableFrame(pt: u32): (f: nat)
      requires kernelPdt < PAGES && pt == KERNEL_TMP_VADDR
      reads this
      ensures f == Shown(mem, kernelPdt)
    {
      Shown(mem, kernelPdt)
    }

    // Fills slots of the table shown by the window until the size is covered, the table ends, or a
    // present entry or the window's own slot is in the way.
    method PtMapMemory(pt: u32, pdtIdx: nat, paddr0: u32, vaddr: u32, size: u32, rw: bv8, pl: bv8, ghost w: nat)
      returns (mappedSize: u32)
      requires Wired(mem, kernelPdt, kernelPt) && pt == KERNEL_TMP_VADDR && size % 0x1000 == 0
      requires w == Shown(mem, kernelPdt) && w != kernelPdt && (w == kernelPt ==> pdtIdx == 768)
      modifies this`mem
      ensures mappedSize % 0x1000 == 0 && mappedSize <= size
      ensures
        var lo, n := vaddr / 0x1000 % 1024, mappedSize / 0x1000;
        && lo + n <= 1024
        && mem == old(mem)[w := MapRange(old(mem[w]), lo, n, paddr0 / 0x1000, rw, pl)]
        && (pdtIdx == 768 ==> lo + n <= 1023 || n == 0)
        && (forall j :: lo <= j < lo + n ==> !Present(old(mem[w])[j]))
        && (mappedSize < size && lo + n < 1024 ==> Present(old(mem[w])[lo + n]) || (pdtIdx == 768 && lo + n == 1023))
    {
      ghost var lo: nat, k: nat := vaddr / 0x1000 % 1024, 0;
      ghost var table := mem[w];
      var paddr := paddr0;
      var ptIdx: nat := vaddr / 0x1000 % 0x400;
      mappedSize := 0;
      EmptyRange(mem, w, lo, paddr0 / 0x1000, rw, pl);
      while mappedSize < size && ptIdx < ENTRIES
        invariant ptIdx == lo + k <= 1024 && mappedSize == k * 0x1000 <= size
        invariant paddr / 0x1000 == PageAt(paddr0 / 0x1000, k)
        invariant Wired(mem, kernelPdt, kernelPt) && Shown(mem, kernelPdt) == w
        invariant mem == old(mem)[w := MapRange(table, lo, k, paddr0 / 0x1000, rw, pl)]
        invariant pdtIdx == 768 ==> lo + k <= 1023 || k == 0
        invariant forall j :: lo <= j < lo + k ==> !Present(table[j])
      {
        assert mem[w][ptIdx] == table[ptIdx];
        if Present(mem[TableFrame(pt)][ptIdx]) {
          return;
        } else if pdtIdx == KERNEL_PT_PDT_IDX && ptIdx == KERNEL_TMP_PT_IDX {
          return;
        }
        ghost var filled := mem[w][ptIdx := CreatePtEntry(paddr, rw, pl)];
        ExtendRange(table, lo, k, paddr0 / 0x1000, rw, pl, paddr);
        WindowStays(mem, kernelPdt, kernelPt, w, filled);
        mem := mem[TableFrame(pt) := mem[TableFrame(pt)][ptIdx := CreatePtEntry(paddr, rw, pl)]];
        NextPage(paddr, paddr0 / 0x1000, k);
        paddr := Wrap(paddr as int + 0x1000);
        mappedSize := mappedSize + 0x1000;
        ptIdx := ptIdx + 1;
        k := k + 1;
      }
    }

    // Finds the table behind a directory entry, or allocates and clears one, and opens the window on it.
    method OpenTable(pdt: nat, pdtIdx: nat) returns (found: bool, ptPaddr: u32, ptVaddr: u32, ghost isNew: bool)
      requires Valid() && pdt in layout.dirs && pdtIdx < 1024 && !LargePage(mem[pdt][pdtIdx])
      modifies this`mem, pfa, pfa.start
      ensures pfa.Valid() && isNew == !Present(old(mem[pdt][pdtIdx]))
      ensures !found ==> isNew && pfa.avail == old(pfa.avail) == {} && mem == old(mem)
      ensures found ==>
        && ptVaddr == KERNEL_TMP_VADDR && ptPaddr % 0x1000 == 0
        && MapTarget(old(mem), layout, pdt, pdtIdx, ptPaddr / 0x1000, isNew)
        && mem == OpenedOn(old(mem), kernelPt, ptPaddr / 0x1000, isNew)
        && Wired(mem, kernelPdt, kernelPt) && Shown(mem, kernelPdt) == ptPaddr / 0x1000
        && ptPaddr / 0x1000 != pdt && ptPaddr / 0x1000 != kernelPdt && (ptPaddr / 0x1000 == kernelPt ==> pdtIdx == 768)
        && pfa.avail == if isNew then old(pfa.avail) - {ptPaddr / 0x1000} else old(pfa.avail)
      ensures found && isNew ==> ptPaddr / 0x1000 in old(pfa.avail) && Held(pfa.mmap, ptPaddr / 0x1000)
    {
      hide TablesOk, SharingOk, WindowOk, View, FreeFrames, Regular;
      ghost var mem0 := mem;
      assert DirEntryOk(layout, mem[pdt][pdtIdx], pdtIdx);
      WellFormedIsWired(mem, layout);
      isNew := !Present(mem[pdt][pdtIdx]);
      if !Present(mem[pdt][pdtIdx]) {
        ptPaddr := pfa.AllocateFrame();
        if ptPaddr == 0 {
          return false, 0, 0, isNew;
        }
        ptVaddr := KernelMapTemporaryMemory(ptPaddr);
        WindowOpens(mem0, kernelPdt, kernelPt, ptPaddr);
        WindowStays(mem, kernelPdt, kernelPt, ptPaddr / 0x1000, ZeroTable());
        mem := mem[TableFrame(ptVaddr) := ZeroTable()];
      } else {
        ptPaddr := GetPtPaddr(mem[pdt][pdtIdx]);
        ptVaddr := KernelMapTemporaryMemory(ptPaddr);
        WindowOpens(mem0, kernelPdt, kernelPt, ptPaddr);
      }
      found := true;
    }

    // One iteration of the mapping loop: the part of the range that lies in one page table.
    method MapOneTable(pdt: nat, paddr: u32, vaddr: u32, size: u32, rw: bv8, pl: bv8) returns (mappedSize: u32)
      requires Valid() && pdt in layout.dirs && size > 0 && size % 0x1000 == 0
      requires !LargePage(mem[pdt][vaddr / 0x1000 / 1024])
      modifies this, pfa, pfa.start
      ensures Valid()
      ensures mappedSize % 0x1000 == 0 && mappedSize <= size
      ensures MapStep(old(mem), old(Books()), mem, Books(), pdt, vaddr / 0x1000, mappedSize / 0x1000,
        paddr / 0x1000, rw, pl)
    {
      hide MapStep, DirsOk, TablesOk, SharingOk, WindowOk, MapRange, View, FreeFrames, Regular;
      var pdtIdx: nat := vaddr / 0x40_0000;
      assert pdtIdx == vaddr / 0x1000 / 1024;
      ghost var mem0, g0 := mem, Books();
      var tmpEntry := KernelGetTemporaryEntry();
      var found, ptPaddr, ptVaddr, isNew := OpenTable(pdt, pdtIdx);
      if !found {
        NoFrame(mem0, g0, pdt, vaddr / 0x1000, paddr / 0x1000, rw, pl);
        return 0;
      }
      ghost var t: nat, open := ptPaddr / 0x1000, mem;
      assert ptPaddr == t * 0x1000 && open[pdt] == mem0[pdt];
      mappedSize := PtMapMemory(ptVaddr, pdtIdx, paddr, vaddr, size, rw, pl, t);
      if mappedSize == 0 {
        KernelSetTemporaryEntry(tmpEntry);
        if isNew {
          data := data + {t};
        }
        MapBlocked(mem0, g0, pdt, vaddr / 0x1000, t, isNew, open, paddr / 0x1000, rw, pl, mem, Books());
        return 0;
      }
      assert mem[pdt] == mem0[pdt];
      if !Present(mem[pdt][pdtIdx]) {
        mem := mem[pdt := mem[pdt][pdtIdx := CreatePdtEntry(ptPaddr, 0, rw, pl)]];
      }
      if isNew {
        layout := AddTable(layout, t, pdtIdx);
      }
      assert mem == WithRun(open, pdt, pdtIdx, t, isNew, vaddr / 0x1000 % 1024, mappedSize / 0x1000,
        paddr / 0x1000, rw, pl);
      KernelSetTemporaryEntry(tmpEntry);
      MapDone(mem0, g0, pdt, vaddr / 0x1000, t, isNew, open, mappedSize / 0x1000, paddr / 0x1000, rw, pl, mem, Books());
    }

    // The loop body of pdt_map_memory: it extends the mapped prefix and advances the loop's
    // variables, or shows that the range cannot be mapped.
    method MapNext(pdt: nat, at: MapLoop, rw: bv8, pl: bv8, ghost job: MapJob) returns (next: MapLoop, ok: bool)
      requires Valid() && MapInvariant(job, at, mem, Books(), pdt, rw, pl) && at.size > 0
      modifies this, pfa, pfa.start
      ensures Valid()
      ensures ok ==> MapInvariant(job, next, mem, Books(), pdt, rw, pl) && next.size < at.size
      ensures !ok ==> MapFailure(job, at, mem, Books(), pdt, rw, pl)
    {
      ghost var mem1, g1 := mem, Books();
      MapReady(job, at, mem, Books(), pdt, rw, pl);
      var mappedSize := MapOneTable(pdt, at.paddr, at.vaddr, at.size, rw, pl);
      ok := mappedSize != 0;
      next := Advance(at, mappedSize);
      assert mappedSize == mappedSize / 0x1000 * 0x1000;
      MapIterates(job, at, next, mem1, g1, mem, Books(), pdt, mappedSize / 0x1000, rw, pl);
    }

    // Maps the pages of a range, table by table, in directory pdt.
    method PdtMapMemory(pdt: nat, paddr: u32, vaddr: u32, size: u32, rw: bv8, pl: bv8)
      returns (totalMappedSize: u32, ghost m: Count)
      requires Valid() && pdt in layout.dirs
      requires NoLarge(mem, pdt, vaddr / 0x1000, PageCount(size))
      modifies this, pfa, pfa.start
      ensures Valid()
      ensures totalMappedSize == 0 || totalMappedSize == AlignUp(size, 0x1000)
      ensures totalMappedSize > 0 <==>
        PageCount(size) > 0 && Mappable(old(mem), old(Books()), pdt, vaddr / 0x1000, PageCount(size))
      ensures m <= PageCount(size) && (totalMappedSize > 0 ==> m == PageCount(size) && data == old(data))
      ensures totalMappedSize == 0 && PageCount(size) > 0 ==>
        m < PageCount(size) && Stopped(old(mem), mem, Books(), pdt, vaddr / 0x1000, m)
      ensures totalMappedSize > 0 ==>
        |pfa.avail| == |old(pfa.avail)| - |Missing(old(mem), pdt, vaddr / 0x1000, PageCount(size))|
      ensures MapOutcome(old(mem), old(Books()), mem, Books(), pdt, vaddr / 0x1000, paddr / 0x1000, m, rw, pl)
    {
      AlignUpPage(size);
      ghost var job := MapJob(mem, Books(), vaddr / 0x1000, paddr / 0x1000, PageCount(size));
      var at := MapLoop(paddr, vaddr, AlignUp(size, 0x1000), 0);
      MapStarts(job, at, pdt, rw, pl);
      while at.size != 0
        invariant Valid()
        invariant MapInvariant(job, at, mem, Books(), pdt, rw, pl)
        decreases at.size
      {
        var next, ok := MapNext(pdt, at, rw, pl, job);
        if !ok {
          return 0, Done(at);
        }
        at := next;
      }
      MapFinishes(job, at, mem, Books(), pdt, rw, pl);
      return at.total, Done(at);
    }

    // The lowest run of usable slots in the table shown by the window, as a virtual address; 0 if there is none.
    method PtKernelFindNextVaddr(pdtIdx: nat, pt: u32, size: u32) returns (vaddr: u32, ghost o: nat)
      requires kernelPdt < PAGES && pt == KERNEL_TMP_VADDR && 768 <= pdtIdx < 1024
      ensures vaddr == 0 ==> forall x: nat :: !RunFree(mem[Shown(mem, kernelPdt)], pdtIdx, x, PageCount(size))
      ensures vaddr != 0 ==>
        && FirstRun(mem[Shown(mem, kernelPdt)], pdtIdx, o, PageCount(size))
        && vaddr == pdtIdx * 0x40_0000 + o * 0x1000
    {
      ghost var t := mem[Shown(mem, kernelPdt)];
      var numToFind: nat := AlignUp(size, 0x1000) / 0x1000;
      var i, numFound: nat, orgI: nat := 0, 0, 0;
      while i < ENTRIES
        invariant 0 <= i <= 1024 && numFound <= i && (numFound > 0 ==> orgI == i - numFound)
        invariant numToFind > 0 ==> numFound < numToFind
        invariant forall j :: i - numFound <= j < i ==> SlotFree(t, pdtIdx, j)
        invariant numFound == i || !SlotFree(t, pdtIdx, i - numFound - 1)
        invariant forall x: nat :: x + numToFind <= i ==> !RunFree(t, pdtIdx, x, numToFind)
      {
        if Present(mem[TableFrame(pt)][i]) || (pdtIdx == KERNEL_PT_PDT_IDX && i == KERNEL_TMP_PT_IDX) {
          numFound := 0;
        } else {
          if numFound == 0 {
            orgI := i;
          }
          numFound := numFound + 1;
          if numFound == numToFind {
            return pdtIdx * 0x40_0000 + orgI * 0x1000, orgI;
          }
        }
        i := i + 1;
      }
      return 0, 0;
    }

    // The first place in the kernel's part of the address space that can hold size bytes; the window
    // is used for every table inspected and left as it was.
    method PdtKernelFindNextVaddr(size: u32) returns (vaddr: u32, ghost i: nat, ghost o: nat)
      requires Valid()
      modifies this`mem
      ensures Valid() && mem == old(mem)
      ensures vaddr == 0 ==> forall x :: 768 <= x < 1024 ==> !EntryFits(mem, kernelPdt, x, PageCount(size))
      ensures vaddr != 0 ==>
        FoundAt(mem, kernelPdt, i, o, PageCount(size)) && vaddr == i * 0x40_0000 + o * 0x1000
    {
      ghost var N := PageCount(size);
      var pdtIdx: nat := KERNEL_START_VADDR / 0x40_0000;
      WellFormedIsWired(mem, layout);
      while pdtIdx < ENTRIES
        invariant 768 <= pdtIdx <= 1024 && mem == old(mem)
        invariant forall x :: 768 <= x < pdtIdx ==> !EntryFits(mem, kernelPdt, x, N)
      {
        assert DirEntryOk(layout, mem[kernelPdt][pdtIdx], pdtIdx);
        if Present(mem[kernelPdt][pdtIdx]) {
          vaddr, o := SearchTable(pdtIdx, size);
        } else {
          vaddr, o := pdtIdx * 0x40_0000, 0;
        }
        if vaddr != 0 {
          return vaddr, pdtIdx, o;
        }
        pdtIdx := pdtIdx + 1;
      }
      return 0, 0, 0;
    }

    // The search of one present entry, inside an opened and restored window.
    method SearchTable(pdtIdx: nat, size: u32) returns (vaddr: u32, ghost o: nat)
      requires Wired(mem, kernelPdt, kernelPt) && 768 <= pdtIdx < 1024 && Tabled(mem[kernelPdt][pdtIdx])
      requires Frame(mem[kernelPdt][pdtIdx]) == kernelPt ==> pdtIdx == 768
      modifies this`mem
      ensures mem == old(mem)
      ensures
        var t, N := mem[Frame(mem[kernelPdt][pdtIdx])], PageCount(size);
        && (vaddr == 0 ==> forall x: nat :: !RunFree(t, pdtIdx, x, N))
        && (vaddr != 0 ==> FirstRun(t, pdtIdx, o, N) && vaddr == pdtIdx * 0x40_0000 + o * 0x1000)
    {
      ghost var mem0, w := mem, Frame(mem[kernelPdt][pdtIdx]);
      var tmpEntry := KernelGetTemporaryEntry();
      var ptPaddr := GetPtPaddr(mem[kernelPdt][pdtIdx]);
      var ptVaddr := KernelMapTemporaryMemory(ptPaddr);
      WindowOpens(mem0, kernelPdt, kernelPt, ptPaddr);
      ghost var e := mem[kernelPt][1023];
      vaddr, o := PtKernelFindNextVaddr(pdtIdx, ptVaddr, size);
      KernelSetTemporaryEntry(tmpEntry);
      WindowCloses(mem0, kernelPt, e);
      if w == kernelPt {
        forall x: nat
          ensures RunFree(mem0[w][1023 := e], pdtIdx, x, PageCount(size)) <==>
            RunFree(mem0[w], pdtIdx, x, PageCount(size))
        {
          RunsThroughWindow(mem0[w], pdtIdx, x, PageCount(size), e);
        }
      }
    }

    // Clears the present slots of the table shown by the window until the size is covered, the table
    // ends, or the window's own slot is reached.
    method PtUnmapMemory(pt: u32, pdtIdx: nat, vaddr: u32, size: u32, ghost w: nat) returns (freedSize: u32)
      requires Wired(mem, kernelPdt, kernelPt) && pt == KERNEL_TMP_VADDR && size % 0x1000 == 0
      requires pdtIdx == vaddr / 0x1000 / 1024
      requires w == Shown(mem, kernelPdt) && w != kernelPdt && (w == kernelPt ==> pdtIdx == 768)
      modifies this`mem
      ensures freedSize == UnmapRun(vaddr / 0x1000, size / 0x1000) * 0x1000
      ensures mem == old(mem)[w := ClearRange(old(mem[w]), vaddr / 0x1000 % 1024, freedSize / 0x1000)]
    {
      ghost var lo: nat, k: nat := vaddr / 0x1000 % 1024, 0;
      ghost var table := mem[w];
      var ptIdx: nat := vaddr / 0x1000 % 0x400;
      freedSize := 0;
      EmptyClear(mem, w, lo);
      Multiple(size, size / 0x1000);
      while freedSize < size && ptIdx < ENTRIES
        invariant ptIdx == lo + k && k <= UnmapRun(vaddr / 0x1000, size / 0x1000) && freedSize == k * 0x1000
        invariant Wired(mem, kernelPdt, kernelPt) && Shown(mem, kernelPdt) == w
        invariant mem == old(mem)[w := ClearRange(table, lo, k)]
      {
        if pdtIdx == KERNEL_PT_PDT_IDX && ptIdx == KERNEL_TMP_PT_IDX {
          return;
        }
        ExtendClearRange(table, lo, k);
        assert mem[w][ptIdx] == table[ptIdx];
        if Present(mem[TableFrame(pt)][ptIdx]) {
          WindowStays(mem, kernelPdt, kernelPt, w, mem[w][ptIdx := ZERO_ENTRY]);
          mem := mem[TableFrame(pt) := mem[TableFrame(pt)][ptIdx := ZERO_ENTRY]];
        }
        freedSize := freedSize + 0x1000;
        ptIdx := ptIdx + 1;
        k := k + 1;
      }
    }

    // One iteration of the unmapping loop on a linked table: clears a run of the table's slots.
    method UnmapOneTable(pdt: nat, vaddr: u32, size: u32) returns (freedSize: u32, ptPaddr: u32)
      requires Valid() && pdt in layout.dirs && size % 0x1000 == 0
      requires Tabled(mem[pdt][vaddr / 0x1000 / 1024])
      modifies this`mem
      ensures
        var vp: PageNo, n := vaddr / 0x1000, UnmapRun(vaddr / 0x1000, size / 0x1000);
        var t := Frame(old(mem[pdt])[vp / 1024]);
        && freedSize == n * 0x1000 && ptPaddr == t * 0x1000
        && mem == old(mem)[t := ClearRange(old(mem)[t], vp % 1024, n)]
    {
      hide View, FreeFrames, Regular, TablesOk, SharingOk;
      ghost var mem0 := mem;
      var pdtIdx: nat := vaddr / 0x40_0000;
      assert pdtIdx == vaddr / 0x1000 / 1024;
      assert DirEntryOk(layout, mem[pdt][pdtIdx], pdtIdx);
      WellFormedIsWired(mem, layout);
      ptPaddr := GetPtPaddr(mem[pdt][pdtIdx]);
      var tmpEntry := KernelGetTemporaryEntry();
      var ptVaddr := KernelMapTemporaryMemory(ptPaddr);
      WindowOpens(mem0, kernelPdt, kernelPt, ptPaddr);
      ghost var e, t := mem[kernelPt][1023], ptPaddr / 0x1000;
      freedSize := PtUnmapMemory(ptVaddr, pdtIdx, vaddr, size, t);
      KernelSetTemporaryEntry(tmpEntry);
      ClearThroughWindow(mem0, kernelPt, e, t, vaddr / 0x1000 % 1024, freedSize / 0x1000);
    }

    // The loop body on a present entry. A table emptied as a whole goes back to the allocator and its
    // entry is cleared, unless it is the kernel's own.
    method UnmapIteration(pdt: nat, vaddr: u32, size: u32) returns (freedSize: u32)
      requires Valid() && pdt in layout.dirs && size % 0x1000 == 0 && Tabled(mem[pdt][vaddr / 0x1000 / 1024])
      modifies this, pfa, pfa.start
      ensures pfa.Valid() && freedSize == UnmapRun(vaddr / 0x1000, size / 0x1000) * 0x1000
      ensures freedSize == 0 ==> Valid() && mem == old(mem) && Books() == old(Books())
      ensures freedSize > 0 ==>
        && Unmaps(old(mem), old(Books()), mem, Books(), pdt, vaddr / 0x1000, freedSize / 0x1000)
        && (Valid() <==> !ReleasesShared(old(mem), old(layout), pdt, vaddr / 0x1000, freedSize / 0x1000))
    {
      hide Unmaps, ReleasesShared, View, FreeFrames, Regular;
      ghost var mem0, g0, vp: PageNo := mem, Books(), vaddr / 0x1000;
      var pdtIdx: nat := vaddr / 0x40_0000;
      assert pdtIdx == vp / 1024;
      var ptPaddr: u32;
      freedSize, ptPaddr := UnmapOneTable(pdt, vaddr, size);
      ghost var mem1, t, n: nat := mem, Frame(mem0[pdt][pdtIdx]), UnmapRun(vp, size / 0x1000);
      Multiple(freedSize, n);
      TableToRelease(mem0, g0, pdt, pdtIdx);
      if n == 0 {
        EmptyClear(mem0, t, vp % 1024);
      }
      if freedSize == 0x40_0000 {
        if pdtIdx != KERNEL_PT_PDT_IDX {
          assert ptPaddr / 0x1000 == t;
          pfa.Free(ptPaddr);
          mem := mem[pdt := mem[pdt][pdtIdx := ZERO_ENTRY]];
          layout := RemoveTable(layout, t);
        }
      }
      if n > 0 {
        UnmapDone(mem0, g0, mem1, mem, Books(), pdt, vp, n);
      }
    }

    // The loop body of pdt_unmap_memory, for any address and size: where the address moves to, and what is
    // cleared.
    method UnmapNext(pdt: nat, vaddr: u32, size: u32, freedSize0: u32) returns (next: u32, freedSize: u32)
      requires Valid() && pdt in layout.dirs && size % 0x1000 == 0 && !LargePage(mem[pdt][vaddr / 0x1000 / 1024])
      modifies this, pfa, pfa.start
      ensures pfa.Valid() && next == UnmapAdvance(old(mem), pdt, vaddr, size / 0x1000)
      ensures
        var vp, n := vaddr / 0x1000, UnmapRun(vaddr / 0x1000, size / 0x1000);
        if Present(old(mem)[pdt][vp / 1024]) then
          && freedSize == n * 0x1000
          && (n == 0 ==> Valid() && mem == old(mem) && Books() == old(Books()))
          && (n > 0 ==>
               && Unmaps(old(mem), old(Books()), mem, Books(), pdt, vp, n)
               && (Valid() <==> !ReleasesShared(old(mem), old(layout), pdt, vp, n)))
        else Valid() && mem == old(mem) && Books() == old(Books()) && freedSize == freedSize0
    {
      hide Unmaps, ReleasesShared, View, FreeFrames, Regular;
      var pdtIdx: nat := vaddr / 0x40_0000;
      assert pdtIdx == vaddr / 0x1000 / 1024;
      assert DirEntryOk(layout, mem[pdt][pdtIdx], pdtIdx);
      if !Present(mem[pdt][pdtIdx]) {
        return AlignUp(vaddr, 0x40_0000), freedSize0;
      }
      freedSize := UnmapIteration(pdt, vaddr, size);
      Multiple(freedSize, UnmapRun(vaddr / 0x1000, size / 0x1000));
      next := Wrap(vaddr as int + freedSize as int);
    }

    // Unmaps a range that lies in one directory entry and avoids the window. A range whose end reaches
    // 4 GB has, after wrapping, an end that is not above its start, and nothing is done; an absent entry
    // is skipped. A whole table is freed whoever else uses it; the state is in order afterwards exactly if
    // no other directory does.
    method PdtUnmapMemory(pdt: nat, vaddr0: u32, size0: u32) returns (freedSize: u32)
      requires Valid() && pdt in layout.dirs
      requires UnmapReturns(mem, layout, pdt, vaddr0, PageCount(size0))
      modifies this, pfa, pfa.start
      ensures pfa.Valid()
      ensures
        if UnmapStarts(vaddr0, PageCount(size0)) && Present(old(mem[pdt])[vaddr0 / 0x1000 / 1024]) then
          && freedSize == AlignUp(size0, 0x1000)
          && Unmaps(old(mem), old(Books()), mem, Books(), pdt, vaddr0 / 0x1000, PageCount(size0))
          && (Valid() <==> !ReleasesShared(old(mem), old(layout), pdt, vaddr0 / 0x1000, PageCount(size0)))
        else Valid() && mem == old(mem) && Books() == old(Books()) && freedSize == 0
    {
      hide Unmaps, ReleasesShared;
      var vaddr, size := vaddr0, AlignUp(size0, 0x1000);
      AlignUpPage(size0);
      ghost var mem0, g0, N := mem, Books(), PageCount(size0);
      ghost var present := Present(mem[pdt][vaddr0 / 0x1000 / 1024]);
      Multiple(size, N);
      freedSize := 0;
      var endVaddr := Wrap(vaddr as int + size as int);
      RangeEnd(vaddr0, N);
      while vaddr < endVaddr
        invariant pfa.Valid()
        invariant
          if vaddr != vaddr0 && present then
            freedSize == size && vaddr == endVaddr && UnmapStarts(vaddr0, N)
            && Unmaps(mem0, g0, mem, Books(), pdt, vaddr0 / 0x1000, N)
            && (Valid() <==> !ReleasesShared(mem0, g0.layout, pdt, vaddr0 / 0x1000, N))
          else
            Valid() && mem == mem0 && Books() == g0 && freedSize == 0 && (vaddr == vaddr0 || vaddr >= endVaddr)
        decreases endVaddr as int - vaddr as int
      {
        NextReturns(mem0, g0.layout, pdt, vaddr0, N);
        vaddr, freedSize := UnmapNext(pdt, vaddr, size, freedSize);
      }
    }

    // pfa_allocate for a caller that will use the frames for data.
    method PfaAllocate(numPageFrames: u32) returns (paddr: u32)
      requires Valid()
      modifies this, pfa, pfa.start
      ensures Valid() && mem == old(mem) && layout == old(layout)
      ensures paddr == 0 <==> NoChoice(pfa.mmap, old(pfa.free), numPageFrames)
      ensures Allocates(pfa.mmap, old(pfa.free), numPageFrames, pfa.free, paddr / 0x1000)
      ensures paddr == 0 ==> Books() == old(Books())
      ensures paddr != 0 ==>
        var run := FrameRun(paddr / 0x1000, numPageFrames);
        && paddr % 0x1000 == 0 && OneRegion(pfa.mmap, 0, paddr / 0x1000, numPageFrames)
        && run <= old(pfa.avail) && pfa.avail == old(pfa.avail) - run && data == old(data) + run
      ensures Leads(old(mem), old(Books()), mem, Books(), layout.dirs)
    {
      hide View, FreeFrames, Allocates, NoChoice;
      ghost var g0, run := Books(), {};
      paddr := pfa.Allocate(numPageFrames);
      if paddr != 0 {
        run := FrameRun(paddr / 0x1000, numPageFrames);
        data := data + run;
      }
      LeadsBy(mem, g0, TakeFrames(run), mem, Books(), layout.dirs);
    }

    // Copies the kernel's part of the address space into a process directory, and its entry 0.
    method PdtLoadProcessPdt(pdt: nat)
      requires Valid() && pdt in layout.dirs
      modifies this`mem
      ensures Valid()
      ensures mem == old(mem)[pdt := Loaded(old(mem[pdt]), old(mem[kernelPdt]))]
      ensures Leads(old(mem), old(Books()), mem, Books(), layout.dirs - {pdt})
    {
      ghost var mem0, t, k := mem, mem[pdt], mem[kernelPdt];
      mem := mem[pdt := mem[pdt][0 := mem[kernelPdt][0]]];
      var i: nat := KERNEL_START_VADDR / 0x40_0000;
      assert mem[pdt] == LoadedUpTo(t, k, 768);
      while i < ENTRIES
        invariant 768 <= i <= 1024 && pdt in layout.dirs
        invariant mem == mem0[pdt := LoadedUpTo(t, k, i)]
      {
        CopyEntry(t, k, i, pdt == kernelPdt);
        if Present(mem[kernelPdt][i]) {
          mem := mem[pdt := mem[pdt][i := mem[kernelPdt][i]]];
        }
        i := i + 1;
      }
      assert LoadedUpTo(t, k, 1024) == Loaded(t, k);
      LoadDirectory(mem0, layout, pdt);
      LeadsBy(mem0, Books(), LoadDir(pdt), mem, Books(), layout.dirs - {pdt});
    }

    // The frame a kernel virtual address leads to.
    function FrameBehind(vaddr: u32): (f: nat)
      requires kernelPdt < PAGES
      reads this
      ensures f < PAGES
    {
      match Walk(mem, kernelPdt, vaddr / 0x1000)
      case Mapped(f, _, _) => if f < PAGES then f else 0
      case Unmapped => 0
    }

    // The search for kernel addresses followed by mapping at the place found, for at most one table's
    // worth of pages.
    method FindAndMap(paddr: u32, size: u32, rw: bv8, pl: bv8)
      returns (vaddr: u32, mappedSize: u32, ghost i: nat, ghost o: nat)
      requires Valid() && 0 < PageCount(size) <= 1024
      modifies this, pfa, pfa.start
      ensures Valid()
      ensures Placed(old(mem), old(Books()), mem, Books(), vaddr, mappedSize, i, o, size, paddr / 0x1000, rw, pl)
    {
      hide Placed, FoundAt, EntryFits, Mappable, MapOutcome, NoLarge, Clear, Stopped, Missing;
      ghost var mem0, g0, N, m := mem, Books(), PageCount(size), 0;
      vaddr, i, o := PdtKernelFindNextVaddr(size);
      if vaddr == 0 {
        NoPlace(mem0, g0, i, o, size, paddr / 0x1000, rw, pl);
        return 0, 0, i, o;
      }
      FoundPage(mem0, layout, i, o, N, vaddr);
      mappedSize, m := PdtMapMemory(kernelPdt, paddr, vaddr, size, rw, pl);
      ghost var mem1, g1 := mem, Books();
      PlaceMapped(mem0, g0, mem1, g1, vaddr, mappedSize, i, o, size, paddr / 0x1000, m, rw, pl);
    }

    // Allocates a frame for a directory, maps it at the first free kernel page, and clears it through
    // that mapping. Without a frame for a missing page table the directory's frame is given back and
    // there is no directory. When no frame is free at all, frame 0 is mapped and cleared in its place.
    method PdtCreate() returns (r: PdtResult)
      requires Valid()
      modifies this, pfa, pfa.start
      ensures r.Undefined? <==> !CanPlacePage(old(mem), kernelPdt, |old(pfa.avail)|)
      ensures !r.Undefined? ==> Valid() && CreateOutcome(old(mem), old(Books()), mem, Books(), r)
    {
      hide CanPlacePage, DirectoryMapped, Extends, MappedTo, Clear, View, FreeFrames, Regular;
      ghost var mem0, g0 := mem, Books();
      var pdt, pdtPaddr, size := MapDirectory();
      if pdt == 0 {
        return Undefined;
      } else if size < 0x1000 {
        if pdtPaddr == 0 {
          return Undefined;
        }
        pfa.Free(pdtPaddr);
        data := data - {pdtPaddr / 0x1000};
        return NoPdt;
      }
      ghost var mem1, g1 := mem, Books();
      BehindDirectory(mem0, g0, mem1, g1, pdt, pdtPaddr);
      ClearDirectory(pdt, pdtPaddr);
      ghost var mem2, g2 := mem, Books();
      DirectoryMade(mem0, g0, mem1, g1, mem2, g2, pdt, pdtPaddr);
      return NewPdt(pdt, pdtPaddr);
    }

    // The allocation and the mapping of pdt_create.
    method MapDirectory() returns (pdt: u32, pdtPaddr: u32, size: u32)
      requires Valid()
      modifies this, pfa, pfa.start
      ensures Valid() && (size == 0 || size == 0x1000)
      ensures CanPlacePage(old(mem), kernelPdt, |old(pfa.avail)|) <==> pdt != 0 && (size == 0 ==> pdtPaddr != 0)
      ensures size < 0x1000 ==> mem == old(mem)
      ensures size < 0x1000 && pdtPaddr != 0 ==>
        var d: PageNo := pdtPaddr / 0x1000;
        && d in old(pfa.avail) && Held(pfa.mmap, d)
           && (pdt != 0 ==> old(pfa.avail) == {d} && !CanPlacePage(old(mem), kernelPdt, 0))
        && Books() == Ledger(old(layout), old(pfa.avail) - {d}, old(data) + {d})
      ensures size == 0x1000 ==> DirectoryMapped(old(mem), old(Books()), mem, Books(), pdt, pdtPaddr)
    {
      hide Placed, CanPlacePage, DirectoryMapped;
      ghost var mem0, g0 := mem, Books();
      pdtPaddr := pfa.AllocateFrame();
      if pdtPaddr != 0 {
        data := data + {pdtPaddr / 0x1000};
      }
      ghost var i, o;
      assert PageCount(0x1000) == 1;
      pdt, size, i, o := FindAndMap(pdtPaddr, 0x1000, 1, 0);
      CreateIsSafe(mem0, g0, mem, Books(), pdt, size, i, o, pdtPaddr);
    }

    // The memset of pdt_create, through the mapping just made: the frame behind it becomes an empty
    // directory, unless it is frame 0.
    method ClearDirectory(pdt: u32, pdtPaddr: u32)
      requires Valid() && Walk(mem, kernelPdt, pdt / 0x1000) == Mapped(pdtPaddr / 0x1000, true, false)
      requires pdtPaddr % 0x1000 == 0 && (pdtPaddr != 0 ==> pdtPaddr / 0x1000 in data)
      modifies this`mem, this`layout, this`data
      ensures Valid() && mem == old(mem)[pdtPaddr / 0x1000 := ZeroTable()]
      ensures pdtPaddr == 0 ==> Books() == old(Books())
      ensures pdtPaddr != 0 ==>
        var d := pdtPaddr / 0x1000;
        Books() == Ledger(AddDir(old(layout), d), old(pfa.avail), old(data) - {d})
    {
      ghost var d, mem1, L := pdtPaddr / 0x1000, mem, layout;
      mem := mem[FrameBehind(pdt) := ZeroTable()];
      if pdtPaddr != 0 {
        layout := AddDir(layout, d);
        data := data - {d};
        AddDirectory(mem1, L, d, mem);
      } else {
        RewriteOther(mem1, L, 0, ZeroTable());
      }
    }
  }
}
