// Laws of the heap over several calls: freeing what was allocated restores the heap, the order of
// frees does not matter, and no unit is lost.
module HeapLaws {
  import opened FreeList
  import opened HeapState
  import opened Heap

  // kfree after a kmalloc that did not grow the heap restores the free list, the live blocks and the
  // arena; only the position of freep may differ.
  lemma AllocateFreeRoundTrip(base: nat, hdr0: seq<Header>, h0: State, hdr1: seq<Header>, h1: State, hdr2: seq<Header>,
                              h2: State, a: nat, n: nat)
    requires Canonical(h0.free, base) && Allocated(base, hdr0, h0, hdr1, h1, a, n, Block(0, 0))
    requires Freed(base, hdr1, h1, hdr2, h2, a)
    ensures h2 == h0
  {
    assert Span(Block(0, 0)) == {};
    assert Units(h2.free) == Units(h0.free);
    CanonicalUnique(h2.free, h0.free, base);
    assert h2.live == h0.live;
  }

  // How many free blocks start below address a.
  function GapOf(fs: seq<Block>, a: nat): (g: nat)
    ensures g <= |fs|
  {
    if fs == [] || a <= fs[0].addr then 0 else 1 + GapOf(fs[1..], a)
  }

  lemma {:induction false} GapOfIsGap(fs: seq<Block>, base: nat, b: Block)
    requires Canonical(fs, base) && b.size > 0 && Span(b) !! Units(fs)
    ensures Gap(fs, b.addr, GapOf(fs, b.addr))
  {
    if fs != [] {
      UnitsTail(fs, base);
      GapOfIsGap(fs[1..], base, b);
      ApartByUnits(fs, base, b);
    }
  }

  // Freeing blocks one after the other.
  function FreeAll(fs: seq<Block>, bs: seq<Block>): seq<Block>
    decreases |bs|
  {
    if bs == [] then fs else FreeAll(Insert(fs, GapOf(fs, bs[0].addr), bs[0]), bs[1..])
  }

  // Blocks that can be freed in any order: not empty, above base, disjoint from the list and from each other.
  ghost predicate Freeable(fs: seq<Block>, bs: seq<Block>, base: nat)
  {
    && (forall i :: 0 <= i < |bs| ==> bs[i].size > 0 && base < bs[i].addr && Span(bs[i]) !! Units(fs))
    && (forall i, j :: 0 <= i < j < |bs| ==> Span(bs[i]) !! Span(bs[j]))
  }

  // Freeing a set of blocks gives the canonical list of the old free units and the blocks' units.
  lemma {:induction false} FreeAllUnits(fs: seq<Block>, bs: seq<Block>, base: nat)
    requires Canonical(fs, base) && Freeable(fs, bs, base)
    ensures Canonical(FreeAll(fs, bs), base) && Units(FreeAll(fs, bs)) == Units(fs) + Units(bs)
    decreases |bs|
  {
    if bs == [] {
      assert Units(bs) == {};
    } else {
      var b, g := bs[0], GapOf(fs, bs[0].addr);
      GapOfIsGap(fs, base, b);
      ApartByUnits(fs, base, b);
      InsertCanonical(fs, base, g, b);
      var fs' := Insert(fs, g, b);
      assert Freeable(fs', bs[1..], base) by {
        assert forall i :: 0 <= i < |bs[1..]| ==> bs[1..][i] == bs[i + 1];
      }
      FreeAllUnits(fs', bs[1..], base);
      UnitsConcat([b], bs[1..]);
      UnitsOne(b);
      assert bs == [b] + bs[1..];
    }
  }

  lemma UnitsOfMultiset(bs: seq<Block>, cs: seq<Block>)
    requires multiset(bs) == multiset(cs)
    ensures Units(bs) <= Units(cs)
  {
    forall u | u in Units(bs)
      ensures u in Units(cs)
    {
      var i: nat :| i < |bs| && u in Span(bs[i]);
      assert bs[i] in multiset(cs);
      var j: nat :| j < |cs| && cs[j] == bs[i];
      InUnits(cs, j, u);
    }
  }

  // Confluence: any two orders of freeing the same blocks end in the same list.
  lemma FreeOrderIrrelevant(fs: seq<Block>, bs: seq<Block>, cs: seq<Block>, base: nat)
    requires Canonical(fs, base) && Freeable(fs, bs, base) && Freeable(fs, cs, base)
    requires multiset(bs) == multiset(cs)
    ensures FreeAll(fs, bs) == FreeAll(fs, cs)
  {
    FreeAllUnits(fs, bs, base);
    FreeAllUnits(fs, cs, base);
    UnitsOfMultiset(bs, cs);
    UnitsOfMultiset(cs, bs);
    CanonicalUnique(FreeAll(fs, bs), FreeAll(fs, cs), base);
  }

  // One call of kfree is one step of FreeAll.
  lemma FreedIsInsert(base: nat, hdr0: seq<Header>, h0: State, hdr: seq<Header>, h: State, a: nat)
    requires HeapOk(hdr0, base, h0) && Freed(base, hdr0, h0, hdr, h, a)
    ensures h.free == FreeAll(h0.free, [Block(a, h0.live[a])])
  {
    var b := Block(a, h0.live[a]);
    LiveSpan(h0.live, a);
    FreeAllUnits(h0.free, [b], base);
    UnitsOne(b);
    CanonicalUnique(h.free, FreeAll(h0.free, [b]), base);
  }

  // Conservation: free and live units always add up to the units acquired.
  lemma Conservation(hdr: seq<Header>, base: nat, h: State)
    requires HeapOk(hdr, base, h)
    ensures |Units(h.free)| + |LiveUnits(h.live)| == |h.arena|
  {
    DisjointCardinality(Units(h.free), LiveUnits(h.live));
  }

  lemma DisjointCardinality(a: set<nat>, b: set<nat>)
    requires a !! b
    ensures |a + b| == |a| + |b|
  {
  }

  // The free list lists exactly the maximal runs of free units: every free unit lies in one block, and
  // the units on either side of a block are not free.
  lemma ListIsMaximalRuns(hdr: seq<Header>, base: nat, h: State)
    requires HeapOk(hdr, base, h)
    ensures forall u :: u in Units(h.free) <==> exists i :: 0 <= i < |h.free| && u in Span(h.free[i])
    ensures forall i :: 0 <= i < |h.free| ==>
      h.free[i].addr - 1 !in Units(h.free) && h.free[i].addr + h.free[i].size !in Units(h.free)
  {
    forall i | 0 <= i < |h.free|
      ensures h.free[i].addr - 1 !in Units(h.free) && h.free[i].addr + h.free[i].size !in Units(h.free)
    {
      BlocksAreMaximalRuns(h.free, base, i);
    }
  }
}
