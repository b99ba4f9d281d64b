// The bitmap as a sequence of booleans (true: the frame is free), and which window of free bits
// the allocator's scan settles on.
module FrameScan {
  import opened Machine
  import opened MemoryMap

  function View(words: seq<bv32>): (bits: seq<bool>)
    ensures |bits| == 32 * |words|
  {
    seq(32 * |words|, k requires 0 <= k < 32 * |words| => BitSet(words[k / 32], k % 32))
  }

  function Flip(free: seq<bool>, b: nat, n: nat): (flipped: seq<bool>)
    ensures |flipped| == |free|
  {
    seq(|free|, k requires 0 <= k < |free| => if b <= k < b + n then !free[k] else free[k])
  }

  // The frames the allocator can hand out: those whose bit is set. Bits at or beyond the total
  // frame count name no frame, whatever their value.
  ghost function FreeFrames(rs: seq<Region>, free: seq<bool>): (frames: set<nat>)
  {
    set idx: nat | idx < Total(rs) && idx < |free| && free[idx] :: FrameAt(rs, idx)
  }

  function FrameRun(f: nat, n: nat): (frames: set<nat>)
    ensures forall x: nat :: x in frames <==> f <= x < f + n
  {
    set x: nat | x < f + n && AtOrAfter(f, x)
  }

  predicate AtOrAfter(f: nat, x: nat)
  {
    f <= x
  }

  lemma {:induction false} RunSize(f: nat, n: nat)
    ensures |FrameRun(f, n)| == n
    decreases n
  {
    if n == 0 {
      assert FrameRun(f, n) == {};
    } else {
      RunSize(f, n - 1);
      assert FrameRun(f, n) == FrameRun(f, n - 1) + {f + n - 1};
    }
  }

  lemma SingleRun(f: nat)
    ensures FrameRun(f, 1) == {f}
  {
  }

  // Where the maximal run of free bits that ends just below q begins; q itself if there is none.
  function RunStart(free: seq<bool>, q: nat): (s: nat)
    requires q <= |free|
    ensures s <= q && (s == 0 || !free[s - 1])
    ensures forall k :: s <= k < q ==> free[k]
  {
    if q == 0 || !free[q - 1] then q else RunStart(free, q - 1)
  }

  predicate AllFree(free: seq<bool>, b: nat, n: nat)
  {
    b + n <= |free| && forall k :: b <= k < b + n ==> free[k]
  }

  // The scan cuts every maximal run of free bits into consecutive windows of n bits, counted from
  // the start of the run. These windows, and no others, are offered to the one-region test.
  predicate Window(free: seq<bool>, n: nat, b: nat)
  {
    n > 0 && AllFree(free, b, n) && (b - RunStart(free, b)) % n == 0
  }

  predicate Choice(rs: seq<Region>, free: seq<bool>, n: nat, b: nat)
  {
    Window(free, n, b) && Fits(rs, b, n)
  }

  ghost predicate FirstChoice(rs: seq<Region>, free: seq<bool>, n: nat, b: nat)
  {
    Choice(rs, free, n, b) && forall c: nat :: c < b ==> !Choice(rs, free, n, c)
  }

  ghost predicate NoChoice(rs: seq<Region>, free: seq<bool>, n: nat)
  {
    forall b: nat :: !Choice(rs, free, n, b)
  }

  // What a request for n frames makes of the bitmap: the first window is taken, whose first frame is f,
  // or there is none, f is 0, and nothing changes.
  ghost predicate Allocates(rs: seq<Region>, free0: seq<bool>, n: nat, free: seq<bool>, f: nat)
  {
    if f == 0 then NoChoice(rs, free0, n) && free == free0
    else exists b: nat ::
      FirstChoice(rs, free0, n, b) && b < Total(rs) && f == FrameAt(rs, b) && free == Flip(free0, b, n)
  }

  // The scan's position, the length of the current window so far, and where that window starts.
  datatype Progress = Progress(q: nat, found: nat, first: nat)

  // What the scan knows after q bits: how far it is into its current window, and that no
  // earlier window was accepted.
  ghost predicate Scanned(rs: seq<Region>, free: seq<bool>, n: nat, p: Progress)
  {
    match p case Progress(q, found, first) =>
    && q <= |free| && found <= q
    && (found > 0 ==> first == q - found)
    && (n > 0 ==> found == (q - RunStart(free, q)) % n)
    && forall b: nat :: b + n <= q ==> !Choice(rs, free, n, b)
  }

  lemma ModSuccessor(x: nat, n: nat)
    requires n > 0
    ensures (x + 1) % n == if x % n + 1 == n then 0 else x % n + 1
    ensures x >= n ==> (x - n) % n == x % n
  {
    var q, r := x / n, x % n;
    assert x == q * n + r;
    ModUnique(x + 1, if r + 1 == n then q + 1 else q, if r + 1 == n then 0 else r + 1, n);
    if x >= n {
      ModUnique(x - n, q - 1, r, n);
    }
  }

  lemma ModUnique(x: nat, q: int, r: nat, n: nat)
    requires n > 0 && r < n && x == q * n + r
    ensures x % n == r
  {
    var d := x / n - q;
    assert x == (x / n) * n + x % n;
    assert d * n == r - x % n;
    MultipleApart(d, n);
  }

  lemma MultipleApart(d: int, n: nat)
    requires n > 0
    ensures d > 0 ==> d * n >= n
    ensures d < 0 ==> d * n + n <= 0
  {
  }

  // Rounding a distance x up to a multiple of n.
  lemma RoundUp(x: nat, n: nat)
    requires n > 0
    ensures x % n > 0 ==> (x + (n - x % n)) % n == 0
  {
    var q, r := x / n, x % n;
    assert x == q * n + r;
    if r > 0 {
      ModUnique(x + (n - r), q + 1, 0, n);
    }
  }

  lemma {:induction false} RunStartStable(free: seq<bool>, b: nat, q: nat)
    requires b <= q <= |free| && forall k :: b <= k < q ==> free[k]
    ensures RunStart(free, q) == RunStart(free, b)
    decreases q - b
  {
    if b < q {
      RunStartStable(free, b, q - 1);
    }
  }

  // A set bit in the middle of a window.
  lemma ScanSetBit(rs: seq<Region>, free: seq<bool>, n: nat, q: nat, found: nat, first: nat, first': nat)
    requires Scanned(rs, free, n, Progress(q, found, first)) && q < |free| && free[q]
    requires found + 1 != n && first' == if found == 0 then q else first
    ensures Scanned(rs, free, n, Progress(q + 1, found + 1, first'))
  {
    if n > 0 {
      var s := RunStart(free, q);
      assert RunStart(free, q + 1) == s;
      ModSuccessor(q - s, n);
      if q + 1 >= n {
        NoWindowEndsHere(free, n, q);
      }
    }
  }

  lemma NoWindowEndsHere(free: seq<bool>, n: nat, q: nat)
    requires 0 < n <= q + 1 && q < |free| && free[q]
    requires (q - RunStart(free, q)) % n + 1 != n
    ensures !Window(free, n, q + 1 - n)
  {
    var b, s := q + 1 - n, RunStart(free, q);
    if Window(free, n, b) {
      RunStartStable(free, b, q);
      ModSuccessor(q - s, n);
      ModSuccessor(q + 1 - s, n);
    }
  }

  // A set bit that completes a window, which is then offered to the one-region test.
  lemma ScanFullWindow(rs: seq<Region>, free: seq<bool>, n: nat, q: nat, found: nat, first: nat, b: nat)
    requires Scanned(rs, free, n, Progress(q, found, first)) && q < |free| && free[q]
    requires found + 1 == n && b == if found == 0 then q else first
    ensures b + n == q + 1 && Window(free, n, b)
    ensures !Fits(rs, b, n) ==> Scanned(rs, free, n, Progress(q + 1, 0, b))
    ensures Fits(rs, b, n) ==> FirstChoice(rs, free, n, b)
  {
    hide Fits;
    var s := RunStart(free, q);
    assert RunStart(free, q + 1) == s;
    ModSuccessor(q - s, n);
    assert q - s >= found by { ModBelow(q - s, n); }
    RunStartStable(free, b, q);
    ModSuccessor(q + 1 - s, n);
  }

  lemma ModBelow(x: nat, n: nat)
    requires n > 0
    ensures x % n <= x
  {
    assert x == (x / n) * n + x % n;
    assert x / n >= 0;
  }

  // A stretch of clear bits restarts the count.
  lemma ScanClearBits(rs: seq<Region>, free: seq<bool>, n: nat, q: nat, found: nat, first: nat, m: nat)
    requires Scanned(rs, free, n, Progress(q, found, first)) && m > 0 && q + m <= |free|
    requires forall k :: q <= k < q + m ==> !free[k]
    ensures Scanned(rs, free, n, Progress(q + m, 0, first))
  {
    forall b: nat | b + n <= q + m
      ensures !Choice(rs, free, n, b)
    {
      if b + n > q && n > 0 {
        assert !free[b + n - 1];
      }
    }
    if n > 0 {
      assert RunStart(free, q + m) == q + m;
      ModUnique(0, 0, 0, n);
    }
  }

  lemma ScanStarts(rs: seq<Region>, free: seq<bool>, n: nat)
    ensures Scanned(rs, free, n, Progress(0, 0, 0))
  {
    if n > 0 {
      ModUnique(0, 0, 0, n);
    }
  }

  lemma ScanFinished(rs: seq<Region>, free: seq<bool>, n: nat, found: nat, first: nat)
    requires Scanned(rs, free, n, Progress(|free|, found, first))
    ensures NoChoice(rs, free, n)
  {
  }

  // Completeness bound: 2n - 1 consecutive free frames of one region always hold a window that fits.
  lemma EnoughForAWindow(rs: seq<Region>, free: seq<bool>, n: nat, b: nat)
    requires Regular(rs) && n > 0 && Fits(rs, b, 2 * n - 1) && AllFree(free, b, 2 * n - 1)
    ensures !NoChoice(rs, free, n)
  {
    var s := RunStart(free, b);
    var r := (b - s) % n;
    var c := if r == 0 then b else b + (n - r);
    RunStartStable(free, b, c);
    RoundUp(b - s, n);
    assert Window(free, n, c);
    FitsInside(rs, 0, b, 2 * n - 1, c, n);
    assert Choice(rs, free, n, c);
  }

  lemma {:induction false} FitsInside(rs: seq<Region>, i: nat, b: nat, m: nat, c: nat, n: nat)
    requires i <= |rs| && FitsFrom(rs, i, b, m) && b <= c && c + n <= b + m && n > 0
    ensures FitsFrom(rs, i, c, n)
    decreases |rs| - i
  {
    if rs[i].Count() <= b {
      FitsInside(rs, i + 1, b - rs[i].Count(), m, c - rs[i].Count(), n);
    }
  }

  // Two regions of 1 and 2n - 2 frames, all free, in which a request for n frames is refused:
  // the count starts in the first region, so the second region is cut into windows one frame early. Up
  // to the given n the second region fits behind the first, which starts right above the first megabyte.
  function TightRegions(n: nat): (rs: seq<Region>)
    requires 2 <= n <= 0x7_FF7F
  {
    [Region(0x10_1000, 0x1000), Region(0x10_2000, (2 * n - 2) * 0x1000)]
  }

  // One bit for each of the 2n - 1 frames, in whole words.
  function TightBits(n: nat): (free: seq<bool>)
    requires n > 0
    ensures |free| % 32 == 0 && |free| / 32 == (2 * n - 1 + 31) / 32
  {
    seq(32 * ((2 * n - 1 + 31) / 32), k => k < 2 * n - 1)
  }

  // The bound is tight for n >= 2: with 2n - 2 consecutive free frames in a region the request can fail.
  lemma BoundIsTight(n: nat)
    requires 2 <= n <= 0x7_FF7F
    ensures Regular(TightRegions(n)) && Total(TightRegions(n)) == 2 * n - 1
    ensures Fits(TightRegions(n), 1, 2 * n - 2) && AllFree(TightBits(n), 1, 2 * n - 2)
    ensures NoChoice(TightRegions(n), TightBits(n), n)
  {
    var rs, free := TightRegions(n), TightBits(n);
    assert rs[0].Count() == 1 && rs[1].Count() == 2 * n - 2;
    assert TotalFrom(rs, 2) == 0 && TotalFrom(rs, 1) == 2 * n - 2;
    assert FitsFrom(rs, 1, 0, 2 * n - 2);
    forall b: nat
      ensures !Choice(rs, free, n, b)
    {
      if Window(free, n, b) {
        assert free[b + n - 1];
        RunStartStable(free, 0, b);
        assert b < n;
        if b > 0 {
          ModUnique(b, 0, b, n);
        }
        assert b == 0;
        assert !Fits(rs, 0, n);
      }
    }
  }

  // For single frames the scan is complete: it fails only when no frame is free, and otherwise
  // settles on the lowest free index.
  lemma SingleFrames(rs: seq<Region>, free: seq<bool>)
    requires Regular(rs) && Total(rs) <= |free|
    ensures forall b: nat :: Choice(rs, free, 1, b) <==> b < Total(rs) && free[b]
    ensures NoChoice(rs, free, 1) <==> FreeFrames(rs, free) == {}
  {
    hide Regular;
    forall b: nat
      ensures Choice(rs, free, 1, b) <==> b < Total(rs) && free[b]
    {
      if Choice(rs, free, 1, b) {
        FittingRun(rs, 0, b, 1);
      }
      if b < Total(rs) && free[b] {
        FrameThenIndex(rs, 0, b);
        assert Held(rs, FrameAt(rs, b));
        var k :| 0 <= k < |rs| && rs[k].Has(FrameAt(rs, b));
        assert FrameAt(rs, b) == FrameFrom(rs, 0, b);
        RunInRegionFits(rs, 0, b, 1, k);
      }
    }
    if FreeFrames(rs, free) != {} {
      var f :| f in FreeFrames(rs, free);
      var idx: nat :| idx < Total(rs) && free[idx] && FrameAt(rs, idx) == f;
      assert Choice(rs, free, 1, idx);
    }
    if b: nat :| Choice(rs, free, 1, b) {
      assert FrameAt(rs, b) in FreeFrames(rs, free);
    }
  }

  // The lowest free index is the lowest free frame.
  lemma FirstChoiceIsLowestFrame(rs: seq<Region>, free: seq<bool>, b: nat)
    requires Regular(rs) && Total(rs) <= |free| && FirstChoice(rs, free, 1, b)
    ensures b < Total(rs) && FrameAt(rs, b) in FreeFrames(rs, free)
    ensures forall f :: f in FreeFrames(rs, free) ==> FrameAt(rs, b) <= f
  {
    SingleFrames(rs, free);
    forall f | f in FreeFrames(rs, free)
      ensures FrameAt(rs, b) <= f
    {
      var idx: nat :| idx < Total(rs) && free[idx] && FrameAt(rs, idx) == f;
      if b < idx {
        FrameMonotone(rs, 0, b, idx);
      }
    }
  }

  // Flipping an accepted window takes exactly a run of contiguous frames of one region out of the free frames.
  lemma TakeWindow(rs: seq<Region>, free: seq<bool>, n: nat, b: nat)
    requires Regular(rs) && Total(rs) <= |free| && Choice(rs, free, n, b)
    ensures b < Total(rs) && OneRegion(rs, 0, FrameAt(rs, b), n)
    ensures FrameRun(FrameAt(rs, b), n) <= FreeFrames(rs, free)
    ensures FreeFrames(rs, Flip(free, b, n)) == FreeFrames(rs, free) - FrameRun(FrameAt(rs, b), n)
  {
    FittingRun(rs, 0, b, n);
    var f := FrameAt(rs, b);
    var flipped := Flip(free, b, n);
    forall x | x in FrameRun(f, n)
      ensures x in FreeFrames(rs, free) && x !in FreeFrames(rs, flipped)
    {
      assert free[b + (x - f)] && FrameAt(rs, b + (x - f)) == x;
      if x in FreeFrames(rs, flipped) {
        var idx: nat :| idx < Total(rs) && flipped[idx] && FrameAt(rs, idx) == x;
        OneIndex(rs, idx, b + (x - f));
      }
    }
    forall x | x in FreeFrames(rs, free) && x !in FrameRun(f, n)
      ensures x in FreeFrames(rs, flipped)
    {
      var idx: nat :| idx < Total(rs) && free[idx] && FrameAt(rs, idx) == x;
      assert FrameAt(rs, idx) == FrameFrom(rs, 0, idx);
      assert !(b <= idx < b + n);
      assert flipped[idx];
    }
    forall x | x in FreeFrames(rs, flipped)
      ensures x in FreeFrames(rs, free)
    {
      var idx: nat :| idx < Total(rs) && flipped[idx] && FrameAt(rs, idx) == x;
      assert free[idx];
    }
  }

  lemma OneIndex(rs: seq<Region>, a: nat, b: nat)
    requires Regular(rs) && a < Total(rs) && b < Total(rs) && FrameAt(rs, a) == FrameAt(rs, b)
    ensures a == b
  {
    FrameThenIndex(rs, 0, a);
    FrameThenIndex(rs, 0, b);
  }

  // Flipping the bit of a frame that is not free gives back exactly that frame.
  lemma GiveBack(rs: seq<Region>, free: seq<bool>, idx: nat)
    requires Regular(rs) && Total(rs) <= |free| && idx < Total(rs) && !free[idx]
    ensures FrameAt(rs, idx) !in FreeFrames(rs, free)
    ensures FreeFrames(rs, Flip(free, idx, 1)) == FreeFrames(rs, free) + {FrameAt(rs, idx)}
  {
    var flipped := Flip(free, idx, 1);
    if FrameAt(rs, idx) in FreeFrames(rs, free) {
      var j: nat :| j < Total(rs) && free[j] && FrameAt(rs, j) == FrameAt(rs, idx);
      OneIndex(rs, j, idx);
    }
    forall x | x in FreeFrames(rs, free) + {FrameAt(rs, idx)}
      ensures x in FreeFrames(rs, flipped)
    {
      if x == FrameAt(rs, idx) {
        assert flipped[idx];
      } else {
        var j: nat :| j < Total(rs) && free[j] && FrameAt(rs, j) == x;
        assert flipped[j];
      }
    }
    forall x | x in FreeFrames(rs, flipped)
      ensures x in FreeFrames(rs, free) + {FrameAt(rs, idx)}
    {
      var j: nat :| j < Total(rs) && flipped[j] && FrameAt(rs, j) == x;
      assert j != idx ==> free[j];
    }
  }

  // Flipping the bit of a free frame takes exactly that frame.
  lemma TakeOne(rs: seq<Region>, free: seq<bool>, idx: nat)
    requires Regular(rs) && Total(rs) <= |free| && idx < Total(rs) && free[idx]
    ensures FrameAt(rs, idx) in FreeFrames(rs, free)
    ensures FreeFrames(rs, Flip(free, idx, 1)) == FreeFrames(rs, free) - {FrameAt(rs, idx)}
  {
    SingleFrames(rs, free);
    TakeWindow(rs, free, 1, idx);
    SingleRun(FrameAt(rs, idx));
  }

  lemma FlipExtend(free: seq<bool>, b: nat, n: nat)
    ensures Flip(Flip(free, b, n), b + n, 1) == Flip(free, b, n + 1)
    ensures Flip(free, b, 0) == free
  {
  }

  lemma ViewBit(words: seq<bv32>, h: nat, m: nat)
    requires h < |words| && m < 32
    ensures View(words)[32 * h + m] == BitSet(words[h], m)
  {
    assert (32 * h + m) / 32 == h && (32 * h + m) % 32 == m;
  }

  lemma ViewToggleAt(words: seq<bv32>, toggled: seq<bv32>, i: nat, j: nat, h: nat, m: nat)
    requires i < |words| && h < |words| && j < 32 && m < 32
    requires toggled == words[i := words[i] ^ BitMask(j)]
    ensures View(toggled)[32 * h + m] ==
      (if h == i && m == j then !View(words)[32 * h + m] else View(words)[32 * h + m])
  {
    hide View, BitSet, BitMask;
    ViewBit(words, h, m);
    ViewBit(toggled, h, m);
    if h == i {
      ToggleMask(words[i], j, m);
    }
  }

  lemma ViewToggleBit(words: seq<bv32>, toggled: seq<bv32>, idx: nat, k: nat)
    requires idx < 32 * |words| && k < 32 * |words|
    requires toggled == words[idx / 32 := words[idx / 32] ^ BitMask(idx % 32)]
    ensures View(toggled)[k] == if k == idx then !View(words)[k] else View(words)[k]
  {
    hide View, BitSet, BitMask;
    ViewToggleAt(words, toggled, idx / 32, idx % 32, k / 32, k % 32);
    assert 32 * (k / 32) + k % 32 == k && 32 * (idx / 32) + idx % 32 == idx;
  }

  // Flipping one bit of one word flips one boolean of the view.
  lemma ViewToggle(words: seq<bv32>, toggled: seq<bv32>, idx: nat)
    requires idx < 32 * |words|
    requires toggled == words[idx / 32 := words[idx / 32] ^ BitMask(idx % 32)]
    ensures View(toggled) == Flip(View(words), idx, 1)
  {
    hide View, BitSet, BitMask;
    forall k: nat | k < 32 * |words|
      ensures View(toggled)[k] == if idx <= k < idx + 1 then !View(words)[k] else View(words)[k]
    {
      ViewToggleBit(words, toggled, idx, k);
    }
  }
}
