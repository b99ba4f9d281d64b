// The list of physical memory regions and the numbering of the page frames in them:
// frame indices count the frames of all regions in list order.
module MemoryMap {
  import opened Machine

  datatype Region = Region(addr: u32, len: u32) {
    function First(): nat { addr / 0x1000 }

    function Count(): nat { len / 0x1000 }

    predicate Has(f: nat) { First() <= f < First() + Count() }
  }

  // What the allocator relies on once frames_init has aligned the regions: they are made of
  // whole frames, lie above the first megabyte, end below 4 GB, and are sorted and disjoint.
  ghost predicate Regular(rs: seq<Region>)
  {
    && (forall k :: 0 <= k < |rs| ==>
          && rs[k].addr % 0x1000 == 0 && rs[k].len % 0x1000 == 0
          && 0x10_0000 < rs[k].addr && rs[k].addr + rs[k].len < 0x1_0000_0000)
    && (forall j, k :: 0 <= j < k < |rs| ==> rs[j].addr + rs[j].len <= rs[k].addr)
  }

  // Number of frames in the regions from position i on.
  function TotalFrom(rs: seq<Region>, i: nat): (n: nat)
    requires i <= |rs|
    decreases |rs| - i
  {
    if i == |rs| then 0 else rs[i].Count() + TotalFrom(rs, i + 1)
  }

  function Total(rs: seq<Region>): nat
  {
    TotalFrom(rs, 0)
  }

  // The frame with a given index among the frames of the regions from position i on.
  function FrameFrom(rs: seq<Region>, i: nat, idx: nat): (f: nat)
    requires i <= |rs| && idx < TotalFrom(rs, i)
    decreases |rs| - i
  {
    if rs[i].Count() <= idx then FrameFrom(rs, i + 1, idx - rs[i].Count()) else rs[i].First() + idx
  }

  function FrameAt(rs: seq<Region>, idx: nat): (f: nat)
    requires idx < Total(rs)
  {
    FrameFrom(rs, 0, idx)
  }

  ghost predicate HeldFrom(rs: seq<Region>, i: nat, f: nat)
    requires i <= |rs|
  {
    exists k :: i <= k < |rs| && rs[k].Has(f)
  }

  ghost predicate Held(rs: seq<Region>, f: nat)
  {
    HeldFrom(rs, 0, f)
  }

  // The index of a held frame.
  function IndexFrom(rs: seq<Region>, i: nat, f: nat): (idx: nat)
    requires Regular(rs) && i <= |rs| && HeldFrom(rs, i, f)
    decreases |rs| - i
  {
    if f < rs[i].First() + rs[i].Count() then
      assert forall k :: i < k < |rs| ==> rs[i].First() + rs[i].Count() <= rs[k].First();
      f - rs[i].First()
    else
      rs[i].Count() + IndexFrom(rs, i + 1, f)
  }

  function IndexOf(rs: seq<Region>, f: nat): (idx: nat)
    requires Regular(rs) && Held(rs, f)
  {
    IndexFrom(rs, 0, f)
  }

  // Whether n frames from index idx on stay inside one region.
  predicate FitsFrom(rs: seq<Region>, i: nat, idx: nat, n: nat)
    requires i <= |rs|
    decreases |rs| - i
  {
    i < |rs| &&
    if rs[i].Count() <= idx then FitsFrom(rs, i + 1, idx - rs[i].Count(), n) else idx + n <= rs[i].Count()
  }

  predicate Fits(rs: seq<Region>, idx: nat, n: nat)
  {
    FitsFrom(rs, 0, idx, n)
  }

  ghost predicate OneRegion(rs: seq<Region>, i: nat, f: nat, n: nat)
  {
    exists k :: i <= k < |rs| && rs[k].First() <= f && f + n <= rs[k].First() + rs[k].Count()
  }

  lemma {:induction false} TotalBound(rs: seq<Region>, i: nat)
    requires Regular(rs) && i <= |rs|
    ensures i < |rs| ==> rs[i].First() + TotalFrom(rs, i) <= 0xF_FFFF
    ensures TotalFrom(rs, i) <= 0xF_FFFF - 0x100
    decreases |rs| - i
  {
    if i + 1 < |rs| {
      TotalBound(rs, i + 1);
      assert rs[i].addr + rs[i].len <= rs[i + 1].addr;
    }
  }

  // The frame of an index is held, and its index is the index it came from.
  lemma {:induction false} FrameThenIndex(rs: seq<Region>, i: nat, idx: nat)
    requires Regular(rs) && i <= |rs| && idx < TotalFrom(rs, i)
    ensures HeldFrom(rs, i, FrameFrom(rs, i, idx))
    ensures IndexFrom(rs, i, FrameFrom(rs, i, idx)) == idx
    decreases |rs| - i
  {
    if rs[i].Count() <= idx {
      FrameThenIndex(rs, i + 1, idx - rs[i].Count());
      var f := FrameFrom(rs, i, idx);
      var k :| i + 1 <= k < |rs| && rs[k].Has(f);
      assert rs[i].addr + rs[i].len <= rs[k].addr;
    } else {
      assert rs[i].Has(FrameFrom(rs, i, idx));
    }
  }

  // The index of a held frame is below the total, and its frame is the frame it came from.
  lemma {:induction false} IndexThenFrame(rs: seq<Region>, i: nat, f: nat)
    requires Regular(rs) && i <= |rs| && HeldFrom(rs, i, f)
    ensures IndexFrom(rs, i, f) < TotalFrom(rs, i)
    ensures FrameFrom(rs, i, IndexFrom(rs, i, f)) == f
    decreases |rs| - i
  {
    if f < rs[i].First() + rs[i].Count() {
      assert forall k :: i < k < |rs| ==> rs[i].First() + rs[i].Count() <= rs[k].First();
    } else {
      IndexThenFrame(rs, i + 1, f);
    }
  }

  // Frame numbers grow strictly with indices.
  lemma {:induction false} FrameMonotone(rs: seq<Region>, i: nat, a: nat, b: nat)
    requires Regular(rs) && i <= |rs| && a < b < TotalFrom(rs, i)
    ensures FrameFrom(rs, i, a) < FrameFrom(rs, i, b)
    decreases |rs| - i
  {
    if rs[i].Count() <= a {
      FrameMonotone(rs, i + 1, a - rs[i].Count(), b - rs[i].Count());
    } else if rs[i].Count() <= b {
      FrameThenIndex(rs, i + 1, b - rs[i].Count());
      var k :| i + 1 <= k < |rs| && rs[k].Has(FrameFrom(rs, i, b));
      assert rs[i].addr + rs[i].len <= rs[k].addr;
    }
  }

  // The numbering is an order isomorphism between the indices and the held frames.
  lemma Bijection(rs: seq<Region>)
    requires Regular(rs)
    ensures forall idx :: 0 <= idx < Total(rs) ==> Held(rs, FrameAt(rs, idx)) && IndexOf(rs, FrameAt(rs, idx)) == idx
    ensures forall f: nat :: Held(rs, f) ==> IndexOf(rs, f) < Total(rs) && FrameAt(rs, IndexOf(rs, f)) == f
    ensures forall a, b :: 0 <= a < b < Total(rs) ==> FrameAt(rs, a) < FrameAt(rs, b)
    ensures forall f: nat, g: nat :: Held(rs, f) && Held(rs, g) && f < g ==> IndexOf(rs, f) < IndexOf(rs, g)
  {
    forall idx | 0 <= idx < Total(rs)
      ensures Held(rs, FrameAt(rs, idx)) && IndexOf(rs, FrameAt(rs, idx)) == idx
    {
      FrameThenIndex(rs, 0, idx);
    }
    forall f: nat | Held(rs, f)
      ensures IndexOf(rs, f) < Total(rs) && FrameAt(rs, IndexOf(rs, f)) == f
    {
      IndexThenFrame(rs, 0, f);
    }
    forall a, b | 0 <= a < b < Total(rs)
      ensures FrameAt(rs, a) < FrameAt(rs, b)
    {
      FrameMonotone(rs, 0, a, b);
    }
    forall f: nat, g: nat | Held(rs, f) && Held(rs, g) && f < g
      ensures IndexOf(rs, f) < IndexOf(rs, g)
    {
      assert IndexOf(rs, f) != IndexOf(rs, g);
    }
  }

  // A run that fits is a run of contiguous frames inside one region.
  lemma {:induction false} FittingRun(rs: seq<Region>, i: nat, idx: nat, n: nat)
    requires Regular(rs) && i <= |rs| && n > 0 && FitsFrom(rs, i, idx, n)
    ensures idx + n <= TotalFrom(rs, i)
    ensures OneRegion(rs, i, FrameFrom(rs, i, idx), n)
    ensures forall j :: idx <= j < idx + n ==> FrameFrom(rs, i, j) == FrameFrom(rs, i, idx) + (j - idx)
    decreases |rs| - i
  {
    if rs[i].Count() <= idx {
      var below := idx - rs[i].Count();
      FittingRun(rs, i + 1, below, n);
      forall j | idx <= j < idx + n
        ensures FrameFrom(rs, i, j) == FrameFrom(rs, i, idx) + (j - idx)
      {
        assert FrameFrom(rs, i + 1, j - rs[i].Count()) == FrameFrom(rs, i + 1, below) + (j - idx);
      }
    }
  }

  lemma RegionsOrdered(rs: seq<Region>, j: nat, k: nat)
    requires Regular(rs) && j < k < |rs|
    ensures rs[j].First() + rs[j].Count() <= rs[k].First()
  {
    assert rs[j].addr + rs[j].len <= rs[k].addr;
  }

  // Conversely, a run of frames inside one region fits.
  lemma {:induction false} RunInRegionFits(rs: seq<Region>, i: nat, idx: nat, n: nat, k: nat)
    requires Regular(rs) && i <= k < |rs| && n > 0 && idx < TotalFrom(rs, i)
    requires rs[k].First() <= FrameFrom(rs, i, idx)
    requires FrameFrom(rs, i, idx) + n <= rs[k].First() + rs[k].Count()
    ensures FitsFrom(rs, i, idx, n)
    decreases |rs| - i
  {
    if rs[i].Count() <= idx {
      FrameThenIndex(rs, i + 1, idx - rs[i].Count());
      var h :| i + 1 <= h < |rs| && rs[h].Has(FrameFrom(rs, i, idx));
      RegionsOrdered(rs, i, h);
      RunInRegionFits(rs, i + 1, idx - rs[i].Count(), n, k);
    } else if i < k {
      RegionsOrdered(rs, i, k);
    }
  }
}
