// The heap as a value: the memory cells of its headers, the free list threaded through them, the live
// blocks, and the units acquired so far; and what the two halves of malloc and free do to it.
module HeapModel {
  import opened FreeList

  // The header of block i of s is in its cell, and links to the next block, or to address z from the last.
  ghost predicate CellOk(hdr: seq<Header>, s: seq<Block>, z: nat, i: nat)
    requires i < |s|
  {
    s[i].addr < |hdr| && hdr[s[i].addr] == Header(NextAfter(s, z, i), s[i].size)
  }

  function NextAfter(s: seq<Block>, z: nat, i: nat): nat
    requires i < |s|
  {
    if i + 1 < |s| then s[i + 1].addr else z
  }

  ghost predicate Seg(hdr: seq<Header>, s: seq<Block>, z: nat)
  {
    forall i :: 0 <= i < |s| ==> CellOk(hdr, s, z, i)
  }

  // The circle: base, then the free blocks in address order.
  function Circle(base: nat, fs: seq<Block>): (c: seq<Block>)
    ensures |c| == |fs| + 1
  {
    [Block(base, 0)] + fs
  }

  function NextIn(c: seq<Block>, k: nat): nat
    requires k < |c|
  {
    if k + 1 < |c| then c[k + 1].addr else c[0].addr
  }

  ghost predicate Linked(hdr: seq<Header>, base: nat, fs: seq<Block>)
  {
    Seg(hdr, Circle(base, fs), base)
  }

  lemma CircleOrdered(base: nat, fs: seq<Block>, i: nat, j: nat)
    requires Canonical(fs, base) && i < j <= |fs|
    ensures Circle(base, fs)[i].addr + Circle(base, fs)[i].size < Circle(base, fs)[j].addr
  {
  }

  lemma SegConcat(hdr: seq<Header>, a: seq<Block>, b: seq<Block>, z: nat)
    requires b != []
    ensures Seg(hdr, a + b, z) <==> Seg(hdr, a, b[0].addr) && Seg(hdr, b, z)
  {
    var c := a + b;
    assert forall i :: 0 <= i < |a| ==> (CellOk(hdr, c, z, i) <==> CellOk(hdr, a, b[0].addr, i)) by {
      forall i | 0 <= i < |a|
        ensures CellOk(hdr, c, z, i) <==> CellOk(hdr, a, b[0].addr, i)
      {
        assert c[i] == a[i] && NextAfter(c, z, i) == NextAfter(a, b[0].addr, i);
      }
    }
    forall i | 0 <= i < |b|
      ensures CellOk(hdr, c, z, |a| + i) <==> CellOk(hdr, b, z, i)
    {
      assert c[|a| + i] == b[i] && NextAfter(c, z, |a| + i) == NextAfter(b, z, i);
    }
    if Seg(hdr, a, b[0].addr) && Seg(hdr, b, z) {
      forall i | 0 <= i < |c|
        ensures CellOk(hdr, c, z, i)
      {
        if i >= |a| {
          assert CellOk(hdr, b, z, i - |a|);
        }
      }
    }
    if Seg(hdr, c, z) {
      forall i | 0 <= i < |b|
        ensures CellOk(hdr, b, z, i)
      {
        assert CellOk(hdr, c, z, |a| + i);
      }
    }
  }

  lemma SegOne(hdr: seq<Header>, b: Block, z: nat)
    ensures Seg(hdr, [b], z) <==> b.addr < |hdr| && hdr[b.addr] == Header(z, b.size)
  {
    assert CellOk(hdr, [b], z, 0) <==> b.addr < |hdr| && hdr[b.addr] == Header(z, b.size);
  }

  // Writing a cell that is not the header of a block of s leaves s linked.
  lemma SegFrame(hdr: seq<Header>, s: seq<Block>, z: nat, p: nat, h: Header)
    requires Seg(hdr, s, z) && p < |hdr| && forall i :: 0 <= i < |s| ==> s[i].addr != p
    ensures Seg(hdr[p := h], s, z)
  {
    var hdr' := hdr[p := h];
    forall i | 0 <= i < |s|
      ensures CellOk(hdr', s, z, i)
    {
      assert CellOk(hdr, s, z, i);
    }
  }

  // Joining the first block of a segment to the block before it.
  lemma SegJoin(hdr: seq<Header>, a: Block, r: seq<Block>, z: nat)
    requires r != [] && Seg(hdr, r[1..], z) && a.addr < |hdr|
    requires hdr[a.addr] == Header(NextAfter(r, z, 0), a.size + r[0].size)
    ensures Seg(hdr, [Join(a, r[0])] + r[1..], z)
  {
    SegOne(hdr, Join(a, r[0]), NextAfter(r, z, 0));
    if r[1..] == [] {
      assert [Join(a, r[0])] + r[1..] == [Join(a, r[0])];
    } else {
      SegConcat(hdr, [Join(a, r[0])], r[1..], z);
    }
  }

  lemma SegTail(hdr: seq<Header>, r: seq<Block>, z: nat)
    requires r != [] && Seg(hdr, r, z)
    ensures Seg(hdr, r[1..], z) && r[0].addr < |hdr| && hdr[r[0].addr] == Header(NextAfter(r, z, 0), r[0].size)
  {
    assert CellOk(hdr, r, z, 0);
    if r[1..] != [] {
      assert r == [r[0]] + r[1..];
      SegConcat(hdr, [r[0]], r[1..], z);
    }
  }

  // The first half of kfree: the freed block's header, joined to its upper neighbour if they touch.
  function FreeUpper(hdr: seq<Header>, bp: nat, next: nat): seq<Header>
    requires bp < |hdr| && next < |hdr|
  {
    if bp + hdr[bp].size == next then hdr[bp := Header(hdr[next].next, hdr[bp].size + hdr[next].size)]
    else hdr[bp := Header(next, hdr[bp].size)]
  }

  // The second half: the lower neighbour absorbs the block if they touch, or links to it.
  function FreeLower(hdr: seq<Header>, p: nat, bp: nat): seq<Header>
    requires p < |hdr| && bp < |hdr|
  {
    if p + hdr[p].size == bp then hdr[p := Header(hdr[bp].next, hdr[p].size + hdr[bp].size)]
    else hdr[p := Header(bp, hdr[p].size)]
  }

  lemma FreeUpperLinks(hdr: seq<Header>, b: Block, upper: seq<Block>, base: nat)
    requires Seg(hdr, upper, base) && b.addr < |hdr| && base < b.addr && base < |hdr| && hdr[b.addr].size == b.size
      && b.size > 0
    requires forall i :: 0 <= i < |upper| ==> b.addr < upper[i].addr
    ensures
      var next := if upper == [] then base else upper[0].addr;
      next < |hdr| && Seg(FreeUpper(hdr, b.addr, next), AddBefore(b, upper), base)
  {
    if upper == [] {
      SegOne(FreeUpper(hdr, b.addr, base), b, base);
      assert AddBefore(b, upper) == [b];
    } else {
      SegTail(hdr, upper, base);
      var hdr' := FreeUpper(hdr, b.addr, upper[0].addr);
      if Touch(b, upper[0]) {
        SegFrame(hdr, upper[1..], base, b.addr, hdr'[b.addr]);
        SegJoin(hdr', b, upper, base);
      } else {
        SegFrame(hdr, upper, base, b.addr, hdr'[b.addr]);
        SegOne(hdr', b, upper[0].addr);
        SegConcat(hdr', [b], upper, base);
      }
    }
  }

  lemma FreeLowerLinks(hdr: seq<Header>, init: seq<Block>, last: Block, z: nat, r: seq<Block>, base: nat)
    requires r != [] && Seg(hdr, init + [last], z) && Seg(hdr, r, base)
    requires forall i :: 0 <= i < |init| ==> init[i].addr != last.addr
    requires forall j :: 0 <= j < |r| ==> last.addr != r[j].addr
    ensures last.addr < |hdr| && r[0].addr < |hdr|
    ensures Seg(FreeLower(hdr, last.addr, r[0].addr), AddAfter(init + [last], r), base)
  {
    SegConcat(hdr, init, [last], z);
    SegOne(hdr, last, z);
    SegTail(hdr, r, base);
    var hdr' := FreeLower(hdr, last.addr, r[0].addr);
    SegFrame(hdr, init, last.addr, last.addr, hdr'[last.addr]);
    var lower := init + [last];
    assert lower[|lower| - 1] == last && lower[..|lower| - 1] == init;
    if Touch(last, r[0]) {
      SegFrame(hdr, r[1..], base, last.addr, hdr'[last.addr]);
      SegJoin(hdr', last, r, base);
      SegConcat(hdr', init, [Join(last, r[0])] + r[1..], base);
    } else {
      SegFrame(hdr, r, base, last.addr, hdr'[last.addr]);
      SegOne(hdr', last, r[0].addr);
      SegConcat(hdr', [last], r, base);
      SegConcat(hdr', init, [last] + r, base);
      assert lower + r == init + ([last] + r);
    }
  }

  // kfree on the cells: with p the node before the gap, the circle of the new list is linked.
  lemma FreeLinks(hdr: seq<Header>, base: nat, fs: seq<Block>, g: nat, b: Block)
    requires Canonical(fs, base) && Linked(hdr, base, fs) && base < |hdr|
    requires b.size > 0 && base < b.addr < |hdr| && hdr[b.addr].size == b.size && Apart(fs, b) && Gap(fs, b.addr, g)
    ensures
      var c := Circle(base, fs);
      var p, next := c[g].addr, NextIn(c, g);
      && p < |hdr| && next < |hdr|
      && Linked(FreeLower(FreeUpper(hdr, b.addr, next), p, b.addr), base, Insert(fs, g, b))
  {
    var c := Circle(base, fs);
    var lower, upper := c[..g + 1], c[g + 1..];
    var next := NextIn(c, g);
    assert c == lower + upper && upper == fs[g..] && lower == [Block(base, 0)] + fs[..g];
    if upper != [] {
      SegConcat(hdr, lower, upper, base);
    } else {
      assert c == lower;
    }
    FreeUpperLinks(hdr, b, upper, base);
    var hdr1 := FreeUpper(hdr, b.addr, next);
    var r := AddBefore(b, upper);
    SegFrame(hdr, lower, next, b.addr, hdr1[b.addr]);
    AddressesBelow(base, fs, g, b);
    assert lower == c[..g] + [c[g]];
    FreeLowerLinks(hdr1, c[..g], c[g], next, r, base);
    CircleInsert(base, fs, g, b);
  }

  lemma AddressesBelow(base: nat, fs: seq<Block>, g: nat, b: Block)
    requires Canonical(fs, base) && base < b.addr && g <= |fs| && Gap(fs, b.addr, g)
    ensures
      var lower, r := Circle(base, fs)[..g + 1], AddBefore(b, fs[g..]);
      && (forall i, j :: 0 <= i < j < |lower| ==> lower[i].addr < lower[j].addr)
      && (forall i, j :: 0 <= i < |lower| && 0 <= j < |r| ==> lower[i].addr < r[j].addr)
  {
    var lower, upper := Circle(base, fs)[..g + 1], fs[g..];
    var r := AddBefore(b, upper);
    forall j | 0 <= j < |r|
      ensures r[j].addr >= b.addr
    {
      if j > 0 {
        assert r[j] == upper[if Touch(b, upper[0]) then j else j - 1];
      }
    }
    forall i | 0 <= i < |lower|
      ensures lower[i].addr < b.addr
    {
      assert i > 0 ==> lower[i] == fs[i - 1];
    }
  }

  lemma CircleInsert(base: nat, fs: seq<Block>, g: nat, b: Block)
    requires g <= |fs| && base < b.addr
    ensures AddAfter(Circle(base, fs)[..g + 1], AddBefore(b, fs[g..])) == Circle(base, Insert(fs, g, b))
  {
    var lower, r := fs[..g], AddBefore(b, fs[g..]);
    assert Circle(base, fs)[..g + 1] == [Block(base, 0)] + lower;
    AddAfterCons(Block(base, 0), lower, r);
  }

  lemma AddAfterCons(x: Block, lower: seq<Block>, r: seq<Block>)
    requires r != [] && (lower == [] ==> !Touch(x, r[0]))
    ensures AddAfter([x] + lower, r) == [x] + AddAfter(lower, r)
  {
    var c := [x] + lower;
    if lower == [] {
      assert c == [x];
    } else {
      assert c[|c| - 1] == lower[|lower| - 1];
      if Touch(lower[|lower| - 1], r[0]) {
        assert c[..|c| - 1] == [x] + lower[..|lower| - 1];
      } else {
        assert c + r == [x] + (lower + r);
      }
    }
  }

  // kmalloc on the cells: an exact fit is unlinked from the node before it, a larger block gives its tail.
  function TakeCells(hdr: seq<Header>, prev: nat, p: nat, n: nat): seq<Header>
    requires prev < |hdr| && p < |hdr| && n <= hdr[p].size && p + (hdr[p].size - n) < |hdr|
  {
    if hdr[p].size == n then hdr[prev := Header(hdr[p].next, hdr[prev].size)]
    else
      var shrunk := hdr[p := Header(hdr[p].next, hdr[p].size - n)];
      shrunk[p + shrunk[p].size := Header(shrunk[p + shrunk[p].size].next, n)]
  }

  lemma TakeLinks(hdr: seq<Header>, base: nat, fs: seq<Block>, j: nat, n: nat)
    requires Canonical(fs, base) && Linked(hdr, base, fs)
    requires j < |fs| && 0 < n <= fs[j].size && fs[j].addr + fs[j].size <= |hdr|
    ensures
      var c := Circle(base, fs);
      && c[j].addr < |hdr| && hdr[fs[j].addr].size == fs[j].size
      && var hdr' := TakeCells(hdr, c[j].addr, fs[j].addr, n);
         Linked(hdr', base, Take(fs, j, n)) && hdr'[Taken(fs, j, n).addr].size == n
  {
    var c := Circle(base, fs);
    assert CellOk(hdr, c, base, j) && CellOk(hdr, c, base, j + 1);
    if fs[j].size == n {
      ExactLinks(hdr, base, fs, j);
    } else {
      TailLinks(hdr, base, fs, j, n);
    }
  }

  lemma ExactLinks(hdr: seq<Header>, base: nat, fs: seq<Block>, j: nat)
    requires Canonical(fs, base) && Linked(hdr, base, fs)
    requires j < |fs| && fs[j].addr + fs[j].size <= |hdr|
    requires Circle(base, fs)[j].addr < |hdr| && hdr[fs[j].addr].size == fs[j].size
    ensures Linked(TakeCells(hdr, Circle(base, fs)[j].addr, fs[j].addr, fs[j].size), base, Take(fs, j, fs[j].size))
  {
    var c := Circle(base, fs);
    CircleApart(base, fs, j);
    CircleSplit(base, fs, j, fs[j]);
    TakeExact(hdr, c[..j], c[j], fs[j], c[j + 2..], base, Circle(base, Take(fs, j, fs[j].size)));
  }

  lemma TailLinks(hdr: seq<Header>, base: nat, fs: seq<Block>, j: nat, n: nat)
    requires Canonical(fs, base) && Linked(hdr, base, fs)
    requires j < |fs| && 0 < n < fs[j].size && fs[j].addr + fs[j].size <= |hdr|
    requires Circle(base, fs)[j].addr < |hdr| && hdr[fs[j].addr].size == fs[j].size
    ensures Linked(TakeCells(hdr, Circle(base, fs)[j].addr, fs[j].addr, n), base, Take(fs, j, n))
  {
    CircleApart(base, fs, j);
    CircleSplit(base, fs, j, Block(fs[j].addr, fs[j].size - n));
    TakeTail(hdr, Circle(base, fs), base, j, n, Circle(base, Take(fs, j, n)));
  }

  lemma CircleSplit(base: nat, fs: seq<Block>, j: nat, b: Block)
    requires j < |fs|
    ensures
      var c := Circle(base, fs);
      && c == c[..j] + ([c[j]] + ([fs[j]] + c[j + 2..]))
      && Circle(base, fs[..j] + fs[j + 1..]) == c[..j] + ([c[j]] + c[j + 2..])
      && Circle(base, fs[j := b]) == c[j + 1 := b]
  {
  }

  lemma CircleApart(base: nat, fs: seq<Block>, j: nat)
    requires Canonical(fs, base) && j < |fs|
    ensures var c := Circle(base, fs);
      && (forall i :: 0 <= i < |c| && i != j ==> c[i].addr != c[j].addr)
      && (forall i :: 0 <= i < |c| && i != j + 1 ==> !(c[j + 1].addr <= c[i].addr < c[j + 1].addr + c[j + 1].size))
  {
    var c := Circle(base, fs);
    forall i | 0 <= i < |c|
      ensures i != j ==> c[i].addr != c[j].addr
      ensures i != j + 1 ==> !(c[j + 1].addr <= c[i].addr < c[j + 1].addr + c[j + 1].size)
    {
      if i < j { CircleOrdered(base, fs, i, j); }
      if j < i { CircleOrdered(base, fs, j, i); }
      if i < j + 1 { CircleOrdered(base, fs, i, j + 1); }
      if j + 1 < i { CircleOrdered(base, fs, j + 1, i); }
    }
  }

  // Unlinking block b after block x.
  lemma TakeExact(hdr: seq<Header>, init: seq<Block>, x: Block, b: Block, rest: seq<Block>, base: nat,
                  taken: seq<Block>)
    requires Seg(hdr, init + ([x] + ([b] + rest)), base)
    requires x.addr < |hdr| && b.addr < |hdr| && b.addr + (hdr[b.addr].size - b.size) < |hdr|
      && hdr[b.addr].size == b.size
    requires (forall i :: 0 <= i < |init| ==> init[i].addr != x.addr)
      && (forall i :: 0 <= i < |rest| ==> rest[i].addr != x.addr)
    requires taken == init + ([x] + rest)
    ensures Seg(TakeCells(hdr, x.addr, b.addr, b.size), taken, base)
  {
    var hdr' := TakeCells(hdr, x.addr, b.addr, b.size);
    SegConcat(hdr, init, [x] + ([b] + rest), base);
    SegConcat(hdr, [x], [b] + rest, base);
    SegOne(hdr, x, b.addr);
    SegTail(hdr, [b] + rest, base);
    assert ([b] + rest)[1..] == rest;
    SegFrame(hdr, init, x.addr, x.addr, hdr'[x.addr]);
    SegFrame(hdr, rest, base, x.addr, hdr'[x.addr]);
    SegOne(hdr', x, NextAfter([b] + rest, base, 0));
    if rest == [] {
      assert [x] + rest == [x];
    } else {
      SegConcat(hdr', [x], rest, base);
    }
    SegConcat(hdr', init, [x] + rest, base);
  }

  // Shrinking block j + 1 of the circle and writing a header into the part cut off.
  lemma TakeTail(hdr: seq<Header>, c: seq<Block>, base: nat, j: nat, n: nat, taken: seq<Block>)
    requires Seg(hdr, c, base) && j + 1 < |c| && 0 < n < c[j + 1].size && c[j + 1].addr + c[j + 1].size <= |hdr|
    requires forall i :: 0 <= i < |c| && i != j + 1 ==> !(c[j + 1].addr <= c[i].addr < c[j + 1].addr + c[j + 1].size)
    requires c[j].addr < |hdr| && c[j + 1].addr < |hdr| && hdr[c[j + 1].addr].size == c[j + 1].size
    requires taken == c[j + 1 := Block(c[j + 1].addr, c[j + 1].size - n)]
    ensures Seg(TakeCells(hdr, c[j].addr, c[j + 1].addr, n), taken, base)
  {
    var r := taken;
    var hdr' := TakeCells(hdr, c[j].addr, c[j + 1].addr, n);
    forall i | 0 <= i < |r|
      ensures CellOk(hdr', r, base, i)
    {
      assert CellOk(hdr, c, base, i);
      assert NextAfter(r, base, i) == NextAfter(c, base, i);
    }
  }
}
