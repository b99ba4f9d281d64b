// The heap's free list as a value: the free blocks in address order, and the memory cells of their
// headers linked in a circle through the zero-size block `base`. Addresses count header units.
module FreeList {

  datatype Block = Block(addr: nat, size: nat)

  datatype Header = Header(next: nat, size: nat)

  ghost function Span(b: Block): (s: set<nat>)
    ensures forall u: nat :: u in s <==> b.addr <= u < b.addr + b.size
  {
    set u: nat | u < b.addr + b.size && AtLeast(u, b.addr)
  }

  predicate AtLeast(u: nat, a: nat)
  {
    a <= u
  }

  // The units covered by a list of blocks.
  ghost function Units(fs: seq<Block>): (s: set<nat>)
  {
    set i: nat, u: nat | i < |fs| && u in Span(fs[i]) :: u
  }

  // Blocks above base, in address order, none empty, no two touching.
  ghost predicate Canonical(fs: seq<Block>, base: nat)
  {
    && (forall i :: 0 <= i < |fs| ==> fs[i].size > 0 && base < fs[i].addr)
    && (forall i, j :: 0 <= i < j < |fs| ==> fs[i].addr + fs[i].size < fs[j].addr)
  }

  lemma InUnits(fs: seq<Block>, i: nat, u: nat)
    requires i < |fs| && fs[i].addr <= u < fs[i].addr + fs[i].size
    ensures u in Units(fs)
  {
    assert u in Span(fs[i]);
  }

  lemma UnitsConcat(a: seq<Block>, b: seq<Block>)
    ensures Units(a + b) == Units(a) + Units(b)
  {
    forall u | u in Units(a + b)
      ensures u in Units(a) + Units(b)
    {
      var i: nat :| i < |a + b| && u in Span((a + b)[i]);
      if i < |a| { InUnits(a, i, u); } else { InUnits(b, i - |a|, u); }
    }
    forall u | u in Units(a) + Units(b)
      ensures u in Units(a + b)
    {
      if u in Units(a) {
        var i: nat :| i < |a| && u in Span(a[i]);
        InUnits(a + b, i, u);
      } else {
        var i: nat :| i < |b| && u in Span(b[i]);
        InUnits(a + b, |a| + i, u);
      }
    }
  }

  lemma UnitsOne(b: Block)
    ensures Units([b]) == Span(b)
  {
    forall u | u in Span(b)
      ensures u in Units([b])
    {
      InUnits([b], 0, u);
    }
  }

  lemma SplitCanonical(fs: seq<Block>, base: nat, g: nat)
    requires Canonical(fs, base) && g <= |fs|
    ensures Canonical(fs[..g], base) && Canonical(fs[g..], base)
    ensures fs == fs[..g] + fs[g..] && Units(fs) == Units(fs[..g]) + Units(fs[g..])
    ensures 0 < g < |fs| ==> fs[g - 1].addr + fs[g - 1].size < fs[g].addr
  {
    assert fs == fs[..g] + fs[g..];
    UnitsConcat(fs[..g], fs[g..]);
  }

  lemma ConcatCanonical(a: seq<Block>, b: seq<Block>, base: nat)
    requires Canonical(a, base) && Canonical(b, base)
    requires a == [] || b == [] || a[|a| - 1].addr + a[|a| - 1].size < b[0].addr
    ensures Canonical(a + b, base)
  {
    forall i, j | 0 <= i < j < |a + b|
      ensures (a + b)[i].addr + (a + b)[i].size < (a + b)[j].addr
    {
      if i < |a| <= j {
        assert i < |a| - 1 ==> a[i].addr + a[i].size < a[|a| - 1].addr;
        assert j > |a| ==> b[0].addr + b[0].size < b[j - |a|].addr;
      }
    }
  }

  // A canonical list is exactly the list of the maximal runs of the units it covers, so two canonical
  // lists that cover the same units are the same list.
  lemma {:induction false} CanonicalUnique(a: seq<Block>, b: seq<Block>, base: nat)
    requires Canonical(a, base) && Canonical(b, base) && Units(a) == Units(b)
    ensures a == b
    decreases |a|
  {
    if a == [] || b == [] {
      if |a| > 0 { InUnits(a, 0, a[0].addr); }
      if |b| > 0 { InUnits(b, 0, b[0].addr); }
    } else {
      FirstBlock(a, b, base);
      FirstBlock(b, a, base);
      assert a[0] == b[0];
      UnitsTail(a, base);
      UnitsTail(b, base);
      CanonicalUnique(a[1..], b[1..], base);
    }
  }

  lemma FirstBlock(a: seq<Block>, b: seq<Block>, base: nat)
    requires Canonical(a, base) && Canonical(b, base) && Units(a) == Units(b) && a != [] && b != []
    ensures a[0].addr <= b[0].addr
    ensures a[0].addr == b[0].addr ==> a[0].size >= b[0].size
  {
    InUnits(b, 0, b[0].addr);
    if a[0].addr == b[0].addr && a[0].size < b[0].size {
      var u := a[0].addr + a[0].size;
      InUnits(b, 0, u);
      var i: nat :| i < |a| && u in Span(a[i]);
      assert false;
    }
  }

  lemma UnitsTail(a: seq<Block>, base: nat)
    requires Canonical(a, base) && a != []
    ensures Canonical(a[1..], base) && Units(a[1..]) == Units(a) - Span(a[0])
  {
    forall u | u in Units(a) && u !in Span(a[0])
      ensures u in Units(a[1..])
    {
      var i: nat :| i < |a| && u in Span(a[i]);
      assert u in Span(a[1..][i - 1]);
    }
    forall u | u in Units(a[1..])
      ensures u in Units(a) && u !in Span(a[0])
    {
      var i: nat :| i < |a[1..]| && u in Span(a[1..][i]);
      assert u in Span(a[i + 1]);
    }
  }

  // Two units of the same block, and no block, bound a maximal run: the block's neighbours are not covered.
  lemma BlocksAreMaximalRuns(fs: seq<Block>, base: nat, i: nat)
    requires Canonical(fs, base) && i < |fs|
    ensures Span(fs[i]) <= Units(fs)
    ensures fs[i].addr - 1 !in Units(fs) && fs[i].addr + fs[i].size !in Units(fs)
  {
    forall u | u in Span(fs[i])
      ensures u in Units(fs)
    {
      InUnits(fs, i, u);
    }
    assert forall j :: 0 <= j < |fs| ==> fs[i].addr - 1 !in Span(fs[j]) && fs[i].addr + fs[i].size !in Span(fs[j]);
  }

  // The gap of address a: how many blocks start below it.
  ghost predicate Gap(fs: seq<Block>, a: nat, g: nat)
  {
    g <= |fs| && (forall i :: 0 <= i < g ==> fs[i].addr < a) && (forall i :: g <= i < |fs| ==> a < fs[i].addr)
  }

  ghost predicate Apart(fs: seq<Block>, b: Block)
  {
    forall i :: 0 <= i < |fs| ==> fs[i].addr + fs[i].size <= b.addr || b.addr + b.size <= fs[i].addr
  }

  // Every block that is apart from the list has exactly one gap.
  lemma {:induction false} GapExists(fs: seq<Block>, base: nat, b: Block) returns (g: nat)
    requires Canonical(fs, base) && b.size > 0 && Apart(fs, b)
    ensures Gap(fs, b.addr, g)
  {
    g := 0;
    while g < |fs| && fs[g].addr < b.addr
      invariant g <= |fs| && forall i :: 0 <= i < g ==> fs[i].addr < b.addr
    {
      g := g + 1;
    }
  }

  lemma GapUnique(fs: seq<Block>, a: nat, g: nat, h: nat)
    requires Gap(fs, a, g) && Gap(fs, a, h)
    ensures g == h
  {
    var m := if g < h then g else h;
    if m < |fs| {
      assert fs[m].addr < a || a <= fs[m].addr;
    }
  }

  // kfree's result: the block joins its upper neighbour if they touch, and then its lower one.
  predicate Touch(a: Block, b: Block)
  {
    a.addr + a.size == b.addr
  }

  function Join(a: Block, b: Block): Block
  {
    Block(a.addr, a.size + b.size)
  }

  function AddBefore(b: Block, upper: seq<Block>): (r: seq<Block>)
    ensures r != [] && r[0].addr == b.addr
  {
    if upper != [] && Touch(b, upper[0]) then [Join(b, upper[0])] + upper[1..] else [b] + upper
  }

  function AddAfter(lower: seq<Block>, r: seq<Block>): seq<Block>
    requires r != []
  {
    if lower != [] && Touch(lower[|lower| - 1], r[0]) then
      lower[..|lower| - 1] + ([Join(lower[|lower| - 1], r[0])] + r[1..])
    else lower + r
  }

  function Insert(fs: seq<Block>, g: nat, b: Block): seq<Block>
    requires g <= |fs|
  {
    AddAfter(fs[..g], AddBefore(b, fs[g..]))
  }

  lemma AddBeforeCanonical(b: Block, upper: seq<Block>, base: nat)
    requires Canonical(upper, base) && b.size > 0 && base < b.addr
    requires upper != [] ==> b.addr + b.size <= upper[0].addr
    ensures Canonical(AddBefore(b, upper), base) && Units(AddBefore(b, upper)) == Span(b) + Units(upper)
  {
    UnitsOne(b);
    if upper != [] && Touch(b, upper[0]) {
      SplitCanonical(upper, base, 1);
      ConcatCanonical([Join(b, upper[0])], upper[1..], base);
      UnitsConcat([Join(b, upper[0])], upper[1..]);
      UnitsOne(Join(b, upper[0]));
      UnitsOne(upper[0]);
      assert upper[..1] == [upper[0]];
      assert Span(Join(b, upper[0])) == Span(b) + Span(upper[0]);
    } else {
      ConcatCanonical([b], upper, base);
      UnitsConcat([b], upper);
    }
  }

  lemma AddAfterCanonical(lower: seq<Block>, r: seq<Block>, base: nat)
    requires Canonical(lower, base) && Canonical(r, base) && r != []
    requires lower != [] ==> lower[|lower| - 1].addr + lower[|lower| - 1].size <= r[0].addr
    ensures Canonical(AddAfter(lower, r), base)
  {
    if lower != [] && Touch(lower[|lower| - 1], r[0]) {
      var last := lower[|lower| - 1];
      SplitCanonical(lower, base, |lower| - 1);
      SplitCanonical(r, base, 1);
      ConcatCanonical([Join(last, r[0])], r[1..], base);
      ConcatCanonical(lower[..|lower| - 1], [Join(last, r[0])] + r[1..], base);
    } else {
      ConcatCanonical(lower, r, base);
    }
  }

  lemma AddAfterUnits(lower: seq<Block>, r: seq<Block>)
    requires r != []
    ensures Units(AddAfter(lower, r)) == Units(lower) + Units(r)
  {
    if lower != [] && Touch(lower[|lower| - 1], r[0]) {
      var last, init, rest := lower[|lower| - 1], lower[..|lower| - 1], r[1..];
      UnitsConcat(init, [Join(last, r[0])] + rest);
      UnitsConcat([Join(last, r[0])], rest);
      UnitsConcat(init, [last]);
      UnitsConcat([r[0]], rest);
      assert lower == init + [last] && r == [r[0]] + rest;
      UnitsOne(last);
      UnitsOne(r[0]);
      UnitsOne(Join(last, r[0]));
      JoinSpans(last, r[0]);
      UnionMiddle(Units(init), Span(last), Span(r[0]), Units(rest));
    } else {
      UnitsConcat(lower, r);
    }
  }

  lemma JoinSpans(a: Block, b: Block)
    requires Touch(a, b)
    ensures Span(Join(a, b)) == Span(a) + Span(b)
  {
  }

  lemma UnionMiddle(a: set<nat>, b: set<nat>, c: set<nat>, d: set<nat>)
    ensures a + ((b + c) + d) == (a + b) + (c + d)
  {
  }

  lemma UnionSwap(a: set<nat>, b: set<nat>, c: set<nat>)
    ensures a + (b + c) == (a + c) + b
  {
  }

  lemma Neighbours(fs: seq<Block>, base: nat, g: nat, b: Block)
    requires Canonical(fs, base) && b.size > 0 && Apart(fs, b) && Gap(fs, b.addr, g)
    ensures 0 < g ==> fs[..g] != [] && fs[..g][|fs[..g]| - 1] == fs[g - 1] && fs[g - 1].addr + fs[g - 1].size <= b.addr
    ensures g < |fs| ==> fs[g..] != [] && fs[g..][0] == fs[g] && b.addr + b.size <= fs[g].addr
    ensures g == 0 ==> fs[..g] == []
    ensures g == |fs| ==> fs[g..] == []
  {
  }

  // Inserting a block at its gap keeps the list canonical and adds exactly the block's units.
  lemma InsertCanonical(fs: seq<Block>, base: nat, g: nat, b: Block)
    requires Canonical(fs, base) && b.size > 0 && base < b.addr && Apart(fs, b) && Gap(fs, b.addr, g)
    ensures Canonical(Insert(fs, g, b), base) && Units(Insert(fs, g, b)) == Units(fs) + Span(b)
  {
    var lower, upper := fs[..g], fs[g..];
    SplitCanonical(fs, base, g);
    Neighbours(fs, base, g, b);
    AddBeforeCanonical(b, upper, base);
    AddAfterCanonical(lower, AddBefore(b, upper), base);
    AddAfterUnits(lower, AddBefore(b, upper));
    UnionSwap(Units(lower), Span(b), Units(upper));
  }

  // kmalloc's result: the tail of block j, or all of it.
  function Take(fs: seq<Block>, j: nat, n: nat): seq<Block>
    requires j < |fs| && n <= fs[j].size
  {
    if fs[j].size == n then fs[..j] + fs[j + 1..] else fs[j := Block(fs[j].addr, fs[j].size - n)]
  }

  function Taken(fs: seq<Block>, j: nat, n: nat): Block
    requires j < |fs| && n <= fs[j].size
  {
    Block(fs[j].addr + (fs[j].size - n), n)
  }

  lemma TakeCanonical(fs: seq<Block>, base: nat, j: nat, n: nat)
    requires Canonical(fs, base) && j < |fs| && 0 < n <= fs[j].size
    ensures Canonical(Take(fs, j, n), base)
    ensures Apart(Take(fs, j, n), Taken(fs, j, n))
  {
    var r := Take(fs, j, n);
    if fs[j].size == n {
      assert forall i :: 0 <= i < |r| ==> r[i] == if i < j then fs[i] else fs[i + 1];
    }
  }

  lemma TakeUnits(fs: seq<Block>, base: nat, j: nat, n: nat)
    requires Canonical(fs, base) && j < |fs| && 0 < n <= fs[j].size
    ensures Units(Take(fs, j, n)) == Units(fs) - Span(Taken(fs, j, n))
    ensures Span(Taken(fs, j, n)) <= Units(fs)
  {
    var t, rest := Taken(fs, j, n), Block(fs[j].addr, fs[j].size - n);
    var lower, upper := fs[..j], fs[j + 1..];
    UnitsAround(lower, fs[j], upper);
    assert fs == lower + ([fs[j]] + upper);
    JoinSpans(rest, t);
    assert Join(rest, t) == fs[j];
    OthersApart(fs, base, j);
    DropPart(Units(lower), Span(rest), Span(t), Units(upper));
    if fs[j].size == n {
      UnitsConcat(lower, upper);
      assert Span(rest) == {};
    } else {
      assert Take(fs, j, n) == lower + ([rest] + upper);
      UnitsAround(lower, rest, upper);
    }
  }

  lemma UnitsAround(lower: seq<Block>, b: Block, upper: seq<Block>)
    ensures Units(lower + ([b] + upper)) == Units(lower) + (Span(b) + Units(upper))
  {
    UnitsConcat(lower, [b] + upper);
    UnitsConcat([b], upper);
    UnitsOne(b);
  }

  lemma DropPart(l: set<nat>, r: set<nat>, t: set<nat>, u: set<nat>)
    requires t !! l && t !! r && t !! u
    ensures (l + ((r + t) + u)) - t == l + (r + u)
    ensures r == {} ==> l + (r + u) == l + u
  {
  }

  lemma OthersApart(fs: seq<Block>, base: nat, j: nat)
    requires Canonical(fs, base) && j < |fs|
    ensures Units(fs[..j]) !! Span(fs[j]) && Units(fs[j + 1..]) !! Span(fs[j])
  {
    forall u | u in Units(fs[..j])
      ensures u !in Span(fs[j])
    {
      var i: nat :| i < |fs[..j]| && u in Span(fs[..j][i]);
      assert fs[i].addr + fs[i].size < fs[j].addr;
    }
    forall u | u in Units(fs[j + 1..])
      ensures u !in Span(fs[j])
    {
      var i: nat :| i < |fs[j + 1..]| && u in Span(fs[j + 1..][i]);
      assert fs[j].addr + fs[j].size < fs[j + 1 + i].addr;
    }
  }
}
