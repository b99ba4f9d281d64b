// The state of the heap, and the steps of allocation, freeing and growth on it.
module HeapState {
  import opened Machine
  import opened FreeList
  import opened HeapModel

  // The free list, the live blocks by header address, and every unit acquired so far.
  datatype State = State(free: seq<Block>, live: map<nat, nat>, arena: set<nat>)

  const EMPTY: State := State([], map[], {})

  ghost function LiveUnits(live: map<nat, nat>): set<nat>
  {
    set a, u | a in live && u in Span(Block(a, live[a])) :: u
  }

  ghost predicate LiveOk(hdr: seq<Header>, base: nat, live: map<nat, nat>)
  {
    && (forall a :: a in live ==> live[a] > 0 && base < a && a + live[a] <= |hdr| && hdr[a].size == live[a])
    && (forall a, b :: a in live && b in live && a != b ==> a + live[a] <= b || b + live[b] <= a)
  }

  // The list is canonical and linked in memory; the live blocks are disjoint from it and from each
  // other; and free and live units together are exactly the units acquired.
  ghost predicate HeapOk(hdr: seq<Header>, base: nat, h: State)
  {
    && base < |hdr| && Canonical(h.free, base) && Linked(hdr, base, h.free)
    && (forall i :: 0 <= i < |h.free| ==> h.free[i].addr + h.free[i].size <= |hdr|)
    && LiveOk(hdr, base, h.live)
    && Units(h.free) !! LiveUnits(h.live) && h.arena == Units(h.free) + LiveUnits(h.live)
  }

  ghost predicate NoFit(fs: seq<Block>, n: nat)
  {
    forall i :: 0 <= i < |fs| ==> fs[i].size < n
  }

  lemma EmptyHeapOk(hdr: seq<Header>, base: nat)
    requires base < |hdr|
    ensures HeapOk(hdr[base := Header(base, 0)], base, EMPTY)
  {
    SegOne(hdr[base := Header(base, 0)], Block(base, 0), base);
    assert Circle(base, []) == [Block(base, 0)];
  }

  lemma LiveSpan(live: map<nat, nat>, a: nat)
    requires a in live
    ensures Span(Block(a, live[a])) <= LiveUnits(live)
  {
  }

  lemma LiveUnitsAdd(live: map<nat, nat>, a: nat, n: nat)
    requires a !in live
    ensures LiveUnits(live[a := n]) == LiveUnits(live) + Span(Block(a, n))
  {
    var live' := live[a := n];
    forall u | u in LiveUnits(live) + Span(Block(a, n))
      ensures u in LiveUnits(live')
    {
      if u in Span(Block(a, n)) {
        assert u in Span(Block(a, live'[a]));
      } else {
        var b :| b in live && u in Span(Block(b, live[b]));
        assert b in live' && u in Span(Block(b, live'[b]));
      }
    }
  }

  lemma LiveUnitsRemove(hdr: seq<Header>, base: nat, live: map<nat, nat>, a: nat)
    requires LiveOk(hdr, base, live) && a in live
    ensures LiveUnits(live - {a}) == LiveUnits(live) - Span(Block(a, live[a]))
  {
    var live' := live - {a};
    assert live == live'[a := live[a]];
    LiveUnitsAdd(live', a, live[a]);
    forall u | u in LiveUnits(live')
      ensures u !in Span(Block(a, live[a]))
    {
      var b :| b in live' && u in Span(Block(b, live'[b]));
      assert b in live && b != a;
    }
  }

  lemma DisjointSpans(a: Block, b: Block)
    requires a.size > 0 && b.size > 0 && Span(a) !! Span(b)
    ensures a.addr + a.size <= b.addr || b.addr + b.size <= a.addr
  {
    var u := if a.addr <= b.addr then b.addr else a.addr;
    assert !(u in Span(a) && u in Span(b));
  }

  // A block is apart from the list if it shares no unit with it.
  lemma ApartByUnits(fs: seq<Block>, base: nat, b: Block)
    requires Canonical(fs, base) && b.size > 0 && Span(b) !! Units(fs)
    ensures Apart(fs, b)
  {
    forall i | 0 <= i < |fs|
      ensures fs[i].addr + fs[i].size <= b.addr || b.addr + b.size <= fs[i].addr
    {
      BlocksAreMaximalRuns(fs, base, i);
      DisjointSpans(fs[i], b);
    }
  }

  // Freeing live block a, with g the number of free blocks below it.
  lemma FreeStep(hdr: seq<Header>, base: nat, h: State, a: nat, g: nat)
    requires HeapOk(hdr, base, h) && a in h.live && Gap(h.free, a, g)
    ensures
      var b, c := Block(a, h.live[a]), Circle(base, h.free);
      var p, next := c[g].addr, NextIn(c, g);
      && p < |hdr| && next < |hdr| && Apart(h.free, b)
      && var hdr' := FreeLower(FreeUpper(hdr, a, next), p, a);
         var h' := State(Insert(h.free, g, b), h.live - {a}, h.arena);
         && HeapOk(hdr', base, h') && Units(h'.free) == Units(h.free) + Span(b)
         && forall x :: 0 <= x < |hdr| && x != p && x != a ==> hdr'[x] == hdr[x]
  {
    var b, c := Block(a, h.live[a]), Circle(base, h.free);
    LiveSpan(h.live, a);
    ApartByUnits(h.free, base, b);
    FreeLinks(hdr, base, h.free, g, b);
    InsertCanonical(h.free, base, g, b);
    LiveUnitsRemove(hdr, base, h.live, a);
    var p, next := c[g].addr, NextIn(c, g);
    var hdr' := FreeLower(FreeUpper(hdr, a, next), p, a);
    FreeBounds(hdr, base, h, g, b);
    NodeNotLive(hdr, base, h, g);
    assert forall x :: x in h.live - {a} ==> hdr'[x] == hdr[x];
  }

  lemma NodeNotLive(hdr: seq<Header>, base: nat, h: State, k: nat)
    requires HeapOk(hdr, base, h) && k <= |h.free|
    ensures Circle(base, h.free)[k].addr !in h.live
  {
    if k > 0 {
      var x := h.free[k - 1].addr;
      assert Circle(base, h.free)[k] == h.free[k - 1];
      InUnits(h.free, k - 1, x);
      if x in h.live {
        LiveSpan(h.live, x);
      }
    }
  }

  lemma FreeBounds(hdr: seq<Header>, base: nat, h: State, g: nat, b: Block)
    requires HeapOk(hdr, base, h) && b.size > 0 && b.addr + b.size <= |hdr| && base < b.addr
    requires Apart(h.free, b) && Gap(h.free, b.addr, g)
    ensures forall i :: 0 <= i < |Insert(h.free, g, b)| ==>
      Insert(h.free, g, b)[i].addr + Insert(h.free, g, b)[i].size <= |hdr|
  {
    var r := Insert(h.free, g, b);
    InsertCanonical(h.free, base, g, b);
    forall i | 0 <= i < |r|
      ensures r[i].addr + r[i].size <= |hdr|
    {
      var u := r[i].addr + r[i].size - 1;
      InUnits(r, i, u);
      if u !in Span(b) {
        var j: nat :| j < |h.free| && u in Span(h.free[j]);
      }
    }
  }

  // Allocating n units from free block j.
  lemma TakeStep(hdr: seq<Header>, base: nat, h: State, j: nat, n: nat)
    requires HeapOk(hdr, base, h) && j < |h.free| && 0 < n <= h.free[j].size
    ensures
      var c, t := Circle(base, h.free), Taken(h.free, j, n);
      && c[j].addr < |hdr| && hdr[h.free[j].addr].size == h.free[j].size
      && t.addr !in h.live && Span(t) <= Units(h.free)
      && var hdr' := TakeCells(hdr, c[j].addr, h.free[j].addr, n);
         var h' := State(Take(h.free, j, n), h.live[t.addr := n], h.arena);
         && HeapOk(hdr', base, h') && Units(h'.free) == Units(h.free) - Span(t)
         && forall x :: 0 <= x < |hdr| && x !in Units(h.free) && x != base ==> hdr'[x] == hdr[x]
  {
    var c, t := Circle(base, h.free), Taken(h.free, j, n);
    TakeLinks(hdr, base, h.free, j, n);
    TakeCanonical(h.free, base, j, n);
    TakeUnits(h.free, base, j, n);
    assert t.addr in Span(t);
    if t.addr in h.live {
      LiveSpan(h.live, t.addr);
    }
    LiveUnitsAdd(h.live, t.addr, n);
    TakeFrame(hdr, base, h, j, n);
    TakeApart(hdr, base, h, t);
  }

  lemma TakeFrame(hdr: seq<Header>, base: nat, h: State, j: nat, n: nat)
    requires HeapOk(hdr, base, h) && j < |h.free| && 0 < n <= h.free[j].size
    requires Circle(base, h.free)[j].addr < |hdr| && hdr[h.free[j].addr].size == h.free[j].size
    ensures forall x :: 0 <= x < |hdr| && x !in Units(h.free) && x != base ==>
      TakeCells(hdr, Circle(base, h.free)[j].addr, h.free[j].addr, n)[x] == hdr[x]
  {
    var c := Circle(base, h.free);
    InUnits(h.free, j, h.free[j].addr);
    InUnits(h.free, j, h.free[j].addr + (h.free[j].size - n));
    if j > 0 {
      assert c[j] == h.free[j - 1];
      InUnits(h.free, j - 1, h.free[j - 1].addr);
    }
  }

  // A block cut out of the free units stays clear of every live block.
  lemma TakeApart(hdr: seq<Header>, base: nat, h: State, t: Block)
    requires HeapOk(hdr, base, h) && t.size > 0 && Span(t) <= Units(h.free)
    ensures forall a :: a in h.live ==> a + h.live[a] <= t.addr || t.addr + t.size <= a
    ensures forall a :: a in h.live ==> a !in Units(h.free)
  {
    forall a | a in h.live
      ensures a + h.live[a] <= t.addr || t.addr + t.size <= a
      ensures a !in Units(h.free)
    {
      LiveSpan(h.live, a);
      assert a in Span(Block(a, h.live[a]));
      DisjointSpans(Block(a, h.live[a]), t);
    }
  }

  // A fresh region enters the heap as one live block.
  lemma GrowStep(hdr: seq<Header>, base: nat, h: State, v: nat, len: nat)
    requires HeapOk(hdr, base, h) && len > 0 && base < v && v + len <= |hdr| && Span(Block(v, len)) !! h.arena
    ensures v !in h.live
    ensures HeapOk(hdr[v := Header(hdr[v].next, len)], base,
                   State(h.free, h.live[v := len], h.arena + Span(Block(v, len))))
  {
    var b, hdr' := Block(v, len), hdr[v := Header(hdr[v].next, len)];
    assert v in Span(b);
    if v in h.live {
      LiveSpan(h.live, v);
    }
    LiveUnitsAdd(h.live, v, len);
    forall i | 0 <= i <= |h.free|
      ensures Circle(base, h.free)[i].addr != v
    {
      if i > 0 { InUnits(h.free, i - 1, h.free[i - 1].addr); }
    }
    SegFrame(hdr, Circle(base, h.free), base, v, hdr'[v]);
    forall a | a in h.live
      ensures a + h.live[a] <= v || v + len <= a
    {
      LiveSpan(h.live, a);
      DisjointSpans(Block(a, h.live[a]), b);
    }
  }

  // A canonical list that covers a block has a block at least as large.
  lemma {:induction false} CoverFits(fs: seq<Block>, base: nat, b: Block) returns (i: nat)
    requires Canonical(fs, base) && b.size > 0 && Span(b) <= Units(fs)
    ensures i < |fs| && fs[i].size >= b.size
  {
    assert b.addr in Span(b);
    i :| i < |fs| && b.addr in Span(fs[i]);
    var u := fs[i].addr + fs[i].size;
    if u < b.addr + b.size {
      assert u in Span(b);
      BlocksAreMaximalRuns(fs, base, i);
      assert false;
    }
  }
}
