// Building the memory map at boot from the boot loader's list of memory ranges: which ranges are kept,
// what is cut off for the kernel image, and how they are aligned to frames.
module BootRegions {
  import opened Machine
  import opened MemoryMap

  // A range of the boot loader's map; addresses and lengths have 64 bits.
  datatype MapEntry = MapEntry(addr: nat, len: nat, available: bool)

  const MAX_NUM_MEMORY_MAP: nat := 100

  // The test for the range that holds the kernel image, on the truncated words.
  predicate HoldsKernel(e: MapEntry, start: u32, end: u32)
  {
    Wrap(e.addr) <= start && Wrap(Wrap(e.addr) as int + Wrap(e.len)) > end
  }

  // The range kept for an entry. For the range that holds the kernel, the kernel's end address is
  // subtracted from its length.
  function RegionOf(e: MapEntry, start: u32, end: u32): Region
  {
    if HoldsKernel(e, start, end) then Region(end, Wrap(Wrap(e.len) as int - end))
      else Region(Wrap(e.addr), Wrap(e.len))
  }

  predicate Kept(e: MapEntry, start: u32, end: u32)
  {
    e.available && RegionOf(e, start, end).addr > 0x10_0000
  }

  function KeptRegions(es: seq<MapEntry>, start: u32, end: u32): (rs: seq<Region>)
    ensures |rs| <= |es|
    decreases |es|
  {
    if es == [] then []
    else
      var e := es[|es| - 1];
      KeptRegions(es[..|es| - 1], start, end) + if Kept(e, start, end) then [RegionOf(e, start, end)] else []
  }

  lemma {:induction false} KeptSoFar(es: seq<MapEntry>, start: u32, end: u32, k: nat)
    requires k <= |es|
    ensures |KeptRegions(es[..k], start, end)| <= |KeptRegions(es, start, end)|
    decreases |es|
  {
    if k == |es| {
      assert es[..k] == es;
    } else {
      KeptSoFar(es[..|es| - 1], start, end, k);
      assert es[..|es| - 1][..k] == es[..k];
    }
  }

  // The bytes lost when a region's start is rounded up to a frame.
  function Slack(r: Region): u32
  {
    Wrap(AlignUp(r.addr, 0x1000) as int - r.addr)
  }

  function Aligned(r: Region): Region
  {
    Region(AlignUp(r.addr, 0x1000), AlignDown(Wrap(r.len as int - Slack(r)), 0x1000))
  }

  function AlignedAll(rs: seq<Region>): (aligned: seq<Region>)
    ensures |aligned| == |rs|
  {
    seq(|rs|, k requires 0 <= k < |rs| => Aligned(rs[k]))
  }

  predicate Inside(r: Region, addr: nat, end: nat)
  {
    addr <= r.addr && r.addr + r.len <= end
  }

  // fill_memory_map.
  method FillMemoryMap(hasMap: bool, es: seq<MapEntry>, start: u32, end: u32, mmap: array<Region>) returns (n: u32)
    requires (hasMap ==> |KeptRegions(es, start, end)| <= mmap.Length) && mmap.Length <= MAX_NUM_MEMORY_MAP
    modifies mmap
    ensures n == (if hasMap then |KeptRegions(es, start, end)| else 0) <= mmap.Length
    ensures hasMap ==> mmap[..n] == KeptRegions(es, start, end)
  {
    if !hasMap {
      return 0;
    }
    n := 0;
    var k := 0;
    assert es[..0] == [];
    while k < |es|
      invariant 0 <= k <= |es| && n == |KeptRegions(es[..k], start, end)| <= mmap.Length
      invariant mmap[..n] == KeptRegions(es[..k], start, end)
    {
      assert es[..k + 1][..k] == es[..k];
      KeptSoFar(es, start, end, k + 1);
      var entry := es[k];
      if entry.available {
        var addr, len := Wrap(entry.addr), Wrap(entry.len);
        if addr <= start && Wrap(addr as int + len) > end {
          addr := end;
          len := Wrap(len as int - end);
        }
        if addr > 0x10_0000 {
          mmap[n] := Region(addr, len);
          n := n + 1;
        }
      }
      k := k + 1;
    }
    assert es[..k] == es;
  }

  // The alignment loop of frames_init.
  method AlignRegions(mmap: array<Region>, n: u32)
    requires n <= mmap.Length
    modifies mmap
    ensures mmap[..n] == AlignedAll(old(mmap[..n]))
  {
    hide AlignUp, AlignDown, Wrap;
    var i := 0;
    while i < n
      invariant 0 <= i <= n
      invariant forall k :: 0 <= k < i ==> mmap[k] == Aligned(old(mmap[k]))
      invariant forall k :: i <= k < n ==> mmap[k] == old(mmap[k])
    {
      var addr := AlignUp(mmap[i].addr, 0x1000);
      var len := AlignDown(Wrap(mmap[i].len as int - Wrap(addr as int - mmap[i].addr)), 0x1000);
      mmap[i] := Region(addr, len);
      i := i + 1;
    }
  }

  // Alignment stays inside a region exactly when the region is as long as what rounding cuts off;
  // otherwise its length wraps to nearly 4 GB.
  lemma AlignInside(r: Region)
    requires r.addr + r.len < 0x1_0000_0000
    ensures Inside(Aligned(r), r.addr, r.addr + r.len) <==> Slack(r) <= r.len
    ensures Slack(r) <= r.len ==> Aligned(r).addr % 0x1000 == 0 && Aligned(r).len % 0x1000 == 0
    ensures Slack(r) > r.len ==> Aligned(r).len >= 0xFFFF_F000
  {
    hide AlignUp, AlignDown, Wrap;
    SlackOf(r);
    var rest := Wrap(r.len as int - Slack(r));
    WrapMinus(r.len, Slack(r));
    AlignDownPage(rest);
  }

  lemma SlackOf(r: Region)
    ensures AlignUp(r.addr, 0x1000) % 0x1000 == 0
    ensures r.addr <= 0xFFFF_F000 ==> AlignUp(r.addr, 0x1000) == r.addr + Slack(r) && Slack(r) < 0x1000
    ensures r.addr > 0xFFFF_F000 ==> AlignUp(r.addr, 0x1000) == 0 && Slack(r) == 0x1_0000_0000 - r.addr
  {
    hide AlignUp;
    AlignUpPage(r.addr);
  }

  lemma WrapMinus(a: u32, b: u32)
    ensures Wrap(a as int - b) == if b <= a then a - b else 0x1_0000_0000 + a - b
  {
  }

  lemma AlignDownPage(n: u32)
    ensures AlignDown(n, 0x1000) % 0x1000 == 0 && n < AlignDown(n, 0x1000) + 0x1000 && AlignDown(n, 0x1000) <= n
  {
  }

  // The part of the kernel's range that is kept lies above the kernel and inside the range exactly when
  // the range is at least as long as the kernel's end address; otherwise its length wraps.
  lemma KernelCut(e: MapEntry, start: u32, end: u32)
    requires e.addr + e.len < 0x1_0000_0000 && HoldsKernel(e, start, end) && start <= end
    ensures Inside(RegionOf(e, start, end), end, e.addr + e.len) <==> e.len >= end
  {
  }

  // A memory map the kernel can be started from: the available ranges are in order, do not overlap and
  // end below 4 GB; one of them holds the kernel and is as long as the kernel's end address; and every
  // range that is kept is as long as its alignment cuts off.
  ghost predicate Bootable(es: seq<MapEntry>, start: u32, end: u32)
  {
    && start <= end
    && (forall i :: 0 <= i < |es| && es[i].available ==> es[i].addr + es[i].len < 0x1_0000_0000)
    && (forall i, j :: 0 <= i < j < |es| && es[i].available && es[j].available ==> es[i].addr + es[i].len <= es[j].addr)
    && (exists h :: 0 <= h < |es| && es[h].available && HoldsKernel(es[h], start, end))
    && (forall i :: 0 <= i < |es| && es[i].available && HoldsKernel(es[i], start, end) ==> es[i].len >= end)
    && (forall i :: 0 <= i < |es| && Kept(es[i], start, end) ==>
       Slack(RegionOf(es[i], start, end)) <= RegionOf(es[i], start, end).len)
  }

  // A region that lies in available entry i, and clear of the kernel image.
  ghost predicate InEntry(es: seq<MapEntry>, start: u32, end: u32, r: Region, i: nat)
  {
    && i < |es| && es[i].available && Inside(r, es[i].addr, es[i].addr + es[i].len)
    && (end <= r.addr || r.addr + r.len <= start || r.len == 0)
  }

  // Before alignment, a kept region lies in its entry and clear of the kernel image.
  lemma RegionInEntry(es: seq<MapEntry>, start: u32, end: u32, i: nat)
    requires Bootable(es, start, end) && i < |es| && es[i].available
    ensures
      var r := RegionOf(es[i], start, end);
      && Inside(r, es[i].addr, es[i].addr + es[i].len)
      && (end <= r.addr || r.addr + r.len <= start)
  {
    hide Slack, HoldsKernel;
    var e := es[i];
    NoWrap(e, start, end);
    if HoldsKernel(e, start, end) {
      KernelCut(e, start, end);
    } else {
      var h :| 0 <= h < |es| && es[h].available && HoldsKernel(es[h], start, end);
      NoWrap(es[h], start, end);
      assert h < i || i < h;
    }
  }

  lemma NoWrap(e: MapEntry, start: u32, end: u32)
    requires e.addr + e.len < 0x1_0000_0000
    ensures HoldsKernel(e, start, end) <==> e.addr <= start && e.addr + e.len > end
    ensures !HoldsKernel(e, start, end) ==> RegionOf(e, start, end) == Region(e.addr, e.len)
    ensures HoldsKernel(e, start, end) && e.len >= end ==> RegionOf(e, start, end) == Region(end, e.len - end)
  {
  }

  lemma EntryRegion(es: seq<MapEntry>, start: u32, end: u32, i: nat)
    requires Bootable(es, start, end) && i < |es| && Kept(es[i], start, end)
    ensures InEntry(es, start, end, Aligned(RegionOf(es[i], start, end)), i)
    ensures
      var a := Aligned(RegionOf(es[i], start, end));
      a.addr % 0x1000 == 0 && a.len % 0x1000 == 0 && 0x10_0000 < a.addr && a.addr + a.len < 0x1_0000_0000
  {
    hide Aligned, Slack, RegionOf, HoldsKernel;
    var e := es[i];
    var r := RegionOf(e, start, end);
    RegionInEntry(es, start, end, i);
    AlignInside(r);
  }

  // Which entries the regions come from.
  function Sources(es: seq<MapEntry>, start: u32, end: u32): (src: seq<nat>)
    ensures |src| == |KeptRegions(es, start, end)|
    decreases |es|
  {
    if es == [] then []
    else Sources(es[..|es| - 1], start, end) + if Kept(es[|es| - 1], start, end) then [|es| - 1] else []
  }

  // Regions rs come from the kept entries src, in the order of the entries.
  ghost predicate InOrder(es: seq<MapEntry>, start: u32, end: u32, src: seq<nat>, rs: seq<Region>)
  {
    && |src| == |rs|
    && (forall k :: 0 <= k < |src| ==>
       src[k] < |es| && Kept(es[src[k]], start, end) && rs[k] == RegionOf(es[src[k]], start, end))
    && forall j, k :: 0 <= j < k < |src| ==> src[j] < src[k]
  }

  lemma {:induction false} SourcesInOrder(es: seq<MapEntry>, start: u32, end: u32)
    ensures InOrder(es, start, end, Sources(es, start, end), KeptRegions(es, start, end))
    decreases |es|
  {
    hide Kept, RegionOf;
    if es != [] {
      var n := |es| - 1;
      var before := es[..n];
      SourcesInOrder(before, start, end);
      OneMore(before, es[n], start, end, Sources(before, start, end), KeptRegions(before, start, end));
      assert es == before + [es[n]];
    }
  }

  lemma OneMore(before: seq<MapEntry>, e: MapEntry, start: u32, end: u32, src: seq<nat>, rs: seq<Region>)
    requires InOrder(before, start, end, src, rs)
    ensures
      var last := Kept(e, start, end);
      InOrder(before + [e], start, end, src + (if last then [|before|] else []),
        rs + if last then [RegionOf(e, start, end)] else [])
  {
    hide Kept, RegionOf;
    var es := before + [e];
    assert forall i :: 0 <= i < |before| ==> es[i] == before[i];
  }

  lemma EntriesOrdered(es: seq<MapEntry>, start: u32, end: u32, i: nat, j: nat)
    requires Bootable(es, start, end) && i < j < |es| && es[i].available && es[j].available
    ensures es[i].addr + es[i].len <= es[j].addr
  {
  }

  lemma RegionsRegular(es: seq<MapEntry>, start: u32, end: u32)
    requires Bootable(es, start, end)
    ensures
      var rs, src := AlignedAll(KeptRegions(es, start, end)), Sources(es, start, end);
      && Regular(rs) && |rs| == |src| && forall k :: 0 <= k < |rs| ==> InEntry(es, start, end, rs[k], src[k])
  {
    hide Aligned, Kept, KeptRegions, Sources;
    SourcesInOrder(es, start, end);
    var rs, src := AlignedAll(KeptRegions(es, start, end)), Sources(es, start, end);
    forall k | 0 <= k < |rs|
      ensures InEntry(es, start, end, rs[k], src[k])
      ensures rs[k].addr % 0x1000 == 0 && rs[k].len % 0x1000 == 0
      ensures 0x10_0000 < rs[k].addr && rs[k].addr + rs[k].len < 0x1_0000_0000
    {
      assert src[k] < |es|;
      EntryRegion(es, start, end, src[k]);
    }
    forall j, k | 0 <= j < k < |rs|
      ensures rs[j].addr + rs[j].len <= rs[k].addr
    {
      assert InEntry(es, start, end, rs[j], src[j]) && InEntry(es, start, end, rs[k], src[k]);
      EntriesOrdered(es, start, end, src[j], src[k]);
    }
  }

  // Frame f lies in one available range and shares no byte with the kernel image.
  ghost predicate Available(es: seq<MapEntry>, start: u32, end: u32, f: nat)
  {
    && (end <= f * 0x1000 || (f + 1) * 0x1000 <= start)
    && exists i ::
         0 <= i < |es| && es[i].available && es[i].addr <= f * 0x1000
         && (f + 1) * 0x1000 <= es[i].addr + es[i].len
  }

  // Every frame of the memory map is available memory, and none meets the kernel image.
  lemma RegionsSafe(es: seq<MapEntry>, start: u32, end: u32, f: nat)
    requires Bootable(es, start, end)
    ensures Regular(AlignedAll(KeptRegions(es, start, end)))
    ensures Held(AlignedAll(KeptRegions(es, start, end)), f) ==> Available(es, start, end, f)
  {
    hide Aligned, Slack, RegionOf, HoldsKernel, Bootable, AlignedAll, KeptRegions, Sources;
    RegionsRegular(es, start, end);
    var rs, src := AlignedAll(KeptRegions(es, start, end)), Sources(es, start, end);
    if Held(rs, f) {
      var k :| 0 <= k < |rs| && rs[k].Has(f);
      assert InEntry(es, start, end, rs[k], src[k]);
      assert rs[k].addr <= f * 0x1000 && (f + 1) * 0x1000 <= rs[k].addr + rs[k].len;
    }
  }

  // The frames of an aligned region are the whole frames in the region.
  lemma AlignedFrames(r: Region, f: nat)
    requires r.addr + r.len < 0x1_0000_0000 && Slack(r) <= r.len
    ensures Aligned(r).Has(f) <==> r.addr <= f * 0x1000 && (f + 1) * 0x1000 <= r.addr + r.len
  {
    hide AlignUp, AlignDown, Wrap, Slack;
    SlackOf(r);
    WrapMinus(r.len, Slack(r));
    var a: u32, rest: u32 := AlignUp(r.addr, 0x1000), r.len - Slack(r);
    AlignDownPage(rest);
    WholeFramesIn(a, AlignDown(rest, 0x1000), f);
    assert Aligned(r) == Region(a, AlignDown(rest, 0x1000));
    assert a - 0x1000 < r.addr <= a && a + rest == r.addr + r.len;
    assert a == a / 0x1000 * 0x1000;
    assert f * 0x1000 >= r.addr <==> f >= a / 0x1000;
  }

  lemma WholeFramesIn(a: u32, len: u32, f: nat)
    requires a % 0x1000 == 0 && len % 0x1000 == 0
    ensures Region(a, len).Has(f) <==> a <= f * 0x1000 && (f + 1) * 0x1000 <= a + len
  {
    assert a == a / 0x1000 * 0x1000 && len == len / 0x1000 * 0x1000;
  }

  // The bytes that entry e gives to the memory map, in which frame f is whole: a range above 1 MB gives all of
  // them, and the range that holds the kernel those from the kernel's end up to its own length.
  predicate Gives(e: MapEntry, start: u32, end: u32, f: nat)
  {
    && e.available
    && if e.addr <= start && end < e.addr + e.len then
         0x10_0000 < end <= f * 0x1000 && (f + 1) * 0x1000 <= e.len
       else
         0x10_0000 < e.addr <= f * 0x1000 && (f + 1) * 0x1000 <= e.addr + e.len
  }

  lemma EntryGives(es: seq<MapEntry>, start: u32, end: u32, i: nat, f: nat)
    requires Bootable(es, start, end) && i < |es| && es[i].available
    ensures Gives(es[i], start, end, f) <==> Kept(es[i], start, end) && Aligned(RegionOf(es[i], start, end)).Has(f)
  {
    hide Aligned, Slack, RegionOf, HoldsKernel, Wrap, Region.Has;
    var e := es[i];
    NoWrap(e, start, end);
    if Kept(e, start, end) {
      AlignedFrames(RegionOf(e, start, end), f);
    }
  }

  lemma {:induction false} KeptAppears(es: seq<MapEntry>, start: u32, end: u32, i: nat) returns (k: nat)
    requires i < |es| && Kept(es[i], start, end)
    ensures k < |KeptRegions(es, start, end)| && KeptRegions(es, start, end)[k] == RegionOf(es[i], start, end)
    decreases |es|
  {
    hide Kept, RegionOf;
    var n := |es| - 1;
    if i == n {
      k := |KeptRegions(es[..n], start, end)|;
    } else {
      assert es[..n][i] == es[i];
      k := KeptAppears(es[..n], start, end, i);
    }
  }

  // The memory map holds exactly the frames that the entries give.
  lemma RegionsExact(es: seq<MapEntry>, start: u32, end: u32, f: nat)
    requires Bootable(es, start, end)
    ensures Held(AlignedAll(KeptRegions(es, start, end)), f) <==>
      exists i :: 0 <= i < |es| && Gives(es[i], start, end, f)
  {
    hide Aligned, Slack, RegionOf, Bootable, KeptRegions, Sources, Gives;
    SourcesInOrder(es, start, end);
    var rs, src := AlignedAll(KeptRegions(es, start, end)), Sources(es, start, end);
    if Held(rs, f) {
      var k :| 0 <= k < |rs| && rs[k].Has(f);
      EntryGives(es, start, end, src[k], f);
    }
    if i :| 0 <= i < |es| && Gives(es[i], start, end, f) {
      GivesAvailable(es[i], start, end, f);
      EntryGives(es, start, end, i, f);
      var k := KeptAppears(es, start, end, i);
      assert rs[k].Has(f);
    }
  }

  lemma GivesAvailable(e: MapEntry, start: u32, end: u32, f: nat)
    requires Gives(e, start, end, f)
    ensures e.available
  {
  }
}
