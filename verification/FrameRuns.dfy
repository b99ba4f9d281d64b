// Runs of the page-frame allocator on the bitmap itself: whatever bits it starts with, live allocations
// never overlap, and no frame is lost or invented.
module FrameRuns {
  import opened MemoryMap
  import opened FrameScan

  // The bitmap, and the frames of each allocation that have not been given back.
  datatype BitmapState = BitmapState(free: seq<bool>, live: seq<set<nat>>)

  // A request for n frames, or freeing frame f of allocation owner.
  datatype Call = Alloc(n: nat) | Release(owner: nat, f: nat)

  // What a call does to the bitmap. A request leaves it alone if there is no window, and otherwise flips
  // the first one; freeing flips the frame's bit.
  ghost predicate Step(rs: seq<Region>, s: BitmapState, call: Call, t: BitmapState)
    requires Regular(rs)
  {
    match call
    case Alloc(n) =>
      exists f :: Allocates(rs, s.free, n, t.free, f) && t.live == if f == 0 then s.live else s.live + [FrameRun(f, n)]
    case Release(owner, f) =>
      && owner < |s.live| && f in s.live[owner] && Held(rs, f)
      && t == BitmapState(Flip(s.free, IndexOf(rs, f), 1), s.live[owner := s.live[owner] - {f}])
  }

  ghost function Union(sets: seq<set<nat>>): set<nat>
  {
    set i, x | 0 <= i < |sets| && x in sets[i] :: x
  }

  // Live allocations overlap neither each other nor the free frames, and with the free frames they are
  // exactly the frames in all.
  ghost predicate Partition(rs: seq<Region>, s: BitmapState, all: set<nat>)
  {
    && Total(rs) <= |s.free|
    && (forall i, j :: 0 <= i < j < |s.live| ==> s.live[i] !! s.live[j])
    && FreeFrames(rs, s.free) !! Union(s.live) && FreeFrames(rs, s.free) + Union(s.live) == all
  }

  lemma UnionGrows(live: seq<set<nat>>, run: set<nat>)
    ensures Union(live + [run]) == Union(live) + run
  {
    var grown := live + [run];
    forall x
      ensures x in Union(grown) <==> x in Union(live) || x in run
    {
      if x in Union(live) {
        var i :| 0 <= i < |live| && x in live[i];
        assert x in grown[i];
      }
      if x in run {
        assert x in grown[|live|];
      }
    }
  }

  lemma UnionShrinks(live: seq<set<nat>>, owner: nat, f: nat)
    requires owner < |live| && f in live[owner]
    requires forall i, j :: 0 <= i < j < |live| ==> live[i] !! live[j]
    ensures Union(live[owner := live[owner] - {f}]) == Union(live) - {f}
  {
    var less := live[owner := live[owner] - {f}];
    forall x
      ensures x in Union(less) <==> x in Union(live) && x != f
    {
      if x in Union(live) && x != f {
        var i :| 0 <= i < |live| && x in live[i];
        assert x in less[i];
      }
      if x in Union(less) {
        var i :| 0 <= i < |less| && x in less[i];
        assert x in live[i];
        assert i < owner ==> live[i] !! live[owner];
        assert owner < i ==> live[owner] !! live[i];
      }
    }
  }

  lemma AllocKeeps(rs: seq<Region>, s: BitmapState, n: nat, t: BitmapState, f: nat, all: set<nat>)
    requires Regular(rs) && Partition(rs, s, all) && f != 0
    requires Allocates(rs, s.free, n, t.free, f) && t.live == s.live + [FrameRun(f, n)]
    ensures Partition(rs, t, all)
  {
    var b: nat :| FirstChoice(rs, s.free, n, b) && b < Total(rs) && f == FrameAt(rs, b) && t.free == Flip(s.free, b, n);
    TakeWindow(rs, s.free, n, b);
    UnionGrows(s.live, FrameRun(f, n));
    forall i, j | 0 <= i < j < |t.live|
      ensures t.live[i] !! t.live[j]
    {
      assert t.live[i] == s.live[i];
      assert s.live[i] <= Union(s.live);
    }
  }

  lemma ReleaseKeeps(rs: seq<Region>, s: BitmapState, owner: nat, f: nat, t: BitmapState, all: set<nat>)
    requires Regular(rs) && Partition(rs, s, all) && Step(rs, s, Release(owner, f), t)
    ensures Partition(rs, t, all)
  {
    var idx := IndexOf(rs, f);
    IndexThenFrame(rs, 0, f);
    assert f in Union(s.live) && FrameAt(rs, idx) == f;
    assert !s.free[idx];
    GiveBack(rs, s.free, idx);
    UnionShrinks(s.live, owner, f);
  }

  lemma StepKeeps(rs: seq<Region>, s: BitmapState, call: Call, t: BitmapState, all: set<nat>)
    requires Regular(rs) && Partition(rs, s, all) && Step(rs, s, call, t)
    ensures Partition(rs, t, all)
  {
    match call
    case Alloc(n) =>
      var f :| Allocates(rs, s.free, n, t.free, f) && t.live == if f == 0 then s.live else s.live + [FrameRun(f, n)];
      if f != 0 {
        AllocKeeps(rs, s, n, t, f, all);
      }
    case Release(owner, f) => ReleaseKeeps(rs, s, owner, f, t, all);
  }

  ghost predicate Run(rs: seq<Region>, states: seq<BitmapState>, calls: seq<Call>)
    requires Regular(rs)
  {
    |states| == |calls| + 1 && forall k :: 0 <= k < |calls| ==> Step(rs, states[k], calls[k], states[k + 1])
  }

  // Over any run from any bitmap, with no allocation live at first, live allocations stay pairwise
  // disjoint, and free and live frames together are the frames that were free at the start.
  lemma {:induction false} FramesConserved(rs: seq<Region>, states: seq<BitmapState>, calls: seq<Call>, k: nat)
    requires Regular(rs) && Run(rs, states, calls) && k <= |calls|
    requires states[0].live == [] && Total(rs) <= |states[0].free|
    ensures Partition(rs, states[k], FreeFrames(rs, states[0].free))
  {
    if k == 0 {
      assert Union(states[0].live) == {};
    } else {
      FramesConserved(rs, states, calls, k - 1);
      StepKeeps(rs, states[k - 1], calls[k - 1], states[k], FreeFrames(rs, states[0].free));
    }
  }

  // A live frame can always be released: it is in a region, and its bit is clear.
  lemma LiveIsHeld(rs: seq<Region>, s: BitmapState, start: seq<bool>, owner: nat, f: nat)
    requires Regular(rs) && Partition(rs, s, FreeFrames(rs, start)) && Total(rs) <= |start|
    requires owner < |s.live| && f in s.live[owner]
    ensures Held(rs, f) && IndexOf(rs, f) < |s.free| && !s.free[IndexOf(rs, f)]
  {
    assert f in Union(s.live) && f in FreeFrames(rs, start);
    var idx: nat :| idx < Total(rs) && start[idx] && FrameAt(rs, idx) == f;
    FrameThenIndex(rs, 0, idx);
    assert FrameAt(rs, IndexOf(rs, f)) == f;
  }
}
