// The round-robin queue as a value: what each schedule dispatches over any interleaving of adds and
// schedules, and the process identifiers handed out on the way. An entry may hold no process.
module RunQueue {
  import opened Machine

  datatype Option<+T> = None | Some(value: T)

  datatype Op<+T> = Add(entry: Option<T>) | Schedule

  // The head goes to the end, unless it is alone.
  function Rotated<T>(q: seq<T>): seq<T>
  {
    if |q| > 1 then q[1..] + [q[0]] else q
  }

  // A schedule does nothing if the queue is empty or its head holds no process.
  predicate Idle<T>(q: seq<Option<T>>)
  {
    q == [] || q[0].None?
  }

  function Next<T>(q: seq<Option<T>>): seq<Option<T>>
  {
    if Idle(q) then q else Rotated(q)
  }

  function Dispatched<T>(q: seq<Option<T>>): Option<T>
  {
    if Idle(q) then None else Rotated(q)[0]
  }

  function Run<T>(q: seq<Option<T>>, ops: seq<Op<T>>): seq<Option<T>>
    decreases |ops|
  {
    if ops == [] then q
    else match ops[0]
      case Add(e) => Run(q + [e], ops[1..])
      case Schedule => Run(Next(q), ops[1..])
  }

  // What the schedules of a run dispatch, in order.
  function Dispatches<T>(q: seq<Option<T>>, ops: seq<Op<T>>): seq<Option<T>>
    decreases |ops|
  {
    if ops == [] then []
    else match ops[0]
      case Add(e) => Dispatches(q + [e], ops[1..])
      case Schedule => [Dispatched(q)] + Dispatches(Next(q), ops[1..])
  }

  // No empty entry up to position j.
  predicate ClearTo<T>(q: seq<Option<T>>, j: nat)
    requires j < |q|
  {
    forall i :: 0 <= i <= j ==> q[i].Some?
  }

  lemma {:induction false} ReachedInTurn<T>(q: seq<Option<T>>, ops: seq<Op<T>>, j: nat)
    requires 1 <= j < |q| && j <= |Dispatches(q, ops)| && ClearTo(q, j)
    ensures Dispatches(q, ops)[j - 1] == q[j]
    decreases |ops|
  {
    match ops[0]
    case Add(e) => ReachedInTurn(q + [e], ops[1..], j);
    case Schedule =>
      assert Dispatched(q) == q[1];
      if j > 1 {
        assert forall i :: 0 <= i < j ==> Next(q)[i] == q[i + 1];
        ReachedInTurn(Next(q), ops[1..], j - 1);
      }
  }

  // An empty entry that comes to the head stops every later schedule, whatever is added.
  lemma {:induction false} Stalls<T>(q: seq<Option<T>>, ops: seq<Op<T>>, j: nat)
    requires j < |q| && q[j].None?
    ensures forall k :: 0 <= k < |Dispatches(q, ops)| && j <= k + 1 ==> Dispatches(q, ops)[k].None?
    decreases |ops|
  {
    if ops != [] {
      match ops[0]
      case Add(e) => Stalls(q + [e], ops[1..], j);
      case Schedule =>
        if j > 0 && !Idle(q) {
          assert Next(q)[j - 1] == q[j];
          Stalls(Next(q), ops[1..], j - 1);
        } else {
          Stalls(q, ops[1..], if Idle(q) then 0 else j);
        }
    }
  }

  // A process at position j is dispatched by the j-th schedule from now, whatever is added meanwhile,
  // if and only if no entry before it is empty.
  lemma Fairness<T>(q: seq<Option<T>>, ops: seq<Op<T>>, j: nat)
    requires 1 <= j < |q| && j <= |Dispatches(q, ops)| && q[j].Some?
    ensures Dispatches(q, ops)[j - 1] == q[j] <==> ClearTo(q, j)
  {
    if ClearTo(q, j) {
      ReachedInTurn(q, ops, j);
    } else {
      var i :| 0 <= i <= j && q[i].None?;
      Stalls(q, ops, i);
    }
  }

  function Schedules<T>(n: nat): (ops: seq<Op<T>>)
    ensures |ops| == n
  {
    seq(n, _ => Schedule)
  }

  function TurnedBy<T>(q: seq<T>, k: nat): seq<T>
    requires k <= |q|
  {
    q[k..] + q[..k]
  }

  lemma {:induction false} Turns<T>(q: seq<Option<T>>, k: nat, n: nat)
    requires |q| > 0 && k + n <= |q| && ClearTo(q, |q| - 1)
    ensures Run(TurnedBy(q, k), Schedules(n)) == TurnedBy(q, k + n)
    ensures Dispatches(TurnedBy(q, k), Schedules(n)) == (q[1..] + [q[0]])[k..k + n]
    decreases n
  {
    if n > 0 {
      var t := TurnedBy(q, k);
      assert Schedules<T>(n)[1..] == Schedules(n - 1);
      assert t[0] == q[k];
      assert Next(t) == TurnedBy(q, k + 1);
      assert Dispatched(t) == (q[1..] + [q[0]])[k];
      Turns(q, k + 1, n - 1);
    }
  }

  lemma SameEntries<T>(q: seq<T>)
    requires |q| > 0
    ensures multiset(q[1..] + [q[0]]) == multiset(q)
  {
    assert q == [q[0]] + q[1..];
  }

  // As many schedules as there are processes dispatch each of them once, and leave the queue as it was.
  lemma FullRound<T>(q: seq<Option<T>>)
    requires |q| > 0 && ClearTo(q, |q| - 1)
    ensures Run(q, Schedules(|q|)) == q
    ensures Dispatches(q, Schedules(|q|)) == q[1..] + [q[0]]
    ensures multiset(Dispatches(q, Schedules(|q|))) == multiset(q)
  {
    var turned := q[1..] + [q[0]];
    assert TurnedBy(q, 0) == q && TurnedBy(q, |q|) == q;
    Turns(q, 0, |q|);
    assert turned[0..0 + |q|] == turned;
    SameEntries(q);
  }

  // The largest of the identifiers, 0 if there is none.
  function Largest(ids: seq<u32>): (m: u32)
    ensures forall x :: x in ids ==> x <= m
    ensures m == 0 || m in ids
    decreases |ids|
  {
    if ids == [] then 0
    else
      assert ids == ids[..|ids| - 1] + [ids[|ids| - 1]];
      var m := Largest(ids[..|ids| - 1]);
      if ids[|ids| - 1] > m then ids[|ids| - 1] else m
  }

  // scheduler_next_pid.
  function NextPid(ids: seq<u32>): u32
  {
    Wrap(Largest(ids) + 1)
  }

  // The identifier is new exactly unless it wraps to a 0 that is in use.
  lemma NextPidFresh(ids: seq<u32>)
    ensures NextPid(ids) !in ids <==> Largest(ids) < 0xFFFF_FFFF || 0 !in ids
  {
  }

  predicate Distinct(ids: seq<u32>)
  {
    forall i, j :: 0 <= i < j < |ids| ==> ids[i] != ids[j]
  }

  // The identifiers in the queue, and those of processes created but not added yet.
  datatype Pids = Pids(queued: seq<u32>, pending: seq<u32>) {
    function All(): seq<u32> { queued + pending }
  }

  // A process is created, the oldest pending one is added, or a schedule turns the queue.
  datatype PidEvent = Created | Added | Turned

  function AfterEvent(s: Pids, e: PidEvent): Pids
  {
    match e
    case Created => s.(pending := s.pending + [NextPid(s.queued)])
    case Added => if s.pending == [] then s else Pids(s.queued + [s.pending[0]], s.pending[1..])
    case Turned => s.(queued := Rotated(s.queued))
  }

  // From an empty queue.
  function AfterEvents(es: seq<PidEvent>): Pids
    decreases |es|
  {
    if es == [] then Pids([], []) else AfterEvent(AfterEvents(es[..|es| - 1]), es[|es| - 1])
  }

  function Creations(es: seq<PidEvent>): (c: nat)
    decreases |es|
  {
    if es == [] then 0 else Creations(es[..|es| - 1]) + if es[|es| - 1] == Created then 1 else 0
  }

  // Every process is added before the next one is created.
  predicate AddedInTime(es: seq<PidEvent>)
  {
    forall k :: 0 <= k < |es| && es[k] == Created ==> AfterEvents(es[..k]).pending == []
  }

  // The identifiers of c processes added in time: 1 to c, and then 0 over and over.
  ghost predicate Numbered(ids: seq<u32>, c: nat)
  {
    && |ids| == c
    && (forall x: nat :: x in ids ==> x <= c)
    && (forall x: nat :: 1 <= x <= c && x < 0x1_0000_0000 ==> x in ids)
    && (0 in ids <==> c >= 0x1_0000_0000)
    && (Distinct(ids) <==> c <= 0x1_0000_0000)
  }

  lemma DistinctByCount(ids: seq<u32>)
    ensures Distinct(ids) <==> forall x :: multiset(ids)[x] <= 1
  {
    if !Distinct(ids) {
      var i, j :| 0 <= i < j < |ids| && ids[i] == ids[j];
      assert ids == ids[..i] + [ids[i]] + ids[i + 1..j] + [ids[j]] + ids[j + 1..];
      assert multiset(ids)[ids[i]] >= 2;
    } else {
      forall x
        ensures multiset(ids)[x] <= 1
      {
        CountOnce(ids, x);
      }
    }
  }

  lemma {:induction false} CountOnce(ids: seq<u32>, x: u32)
    requires Distinct(ids)
    ensures multiset(ids)[x] <= 1
    decreases |ids|
  {
    if ids != [] {
      var rest := ids[..|ids| - 1];
      assert ids == rest + [ids[|ids| - 1]];
      CountOnce(rest, x);
      if x in multiset(rest) {
        assert x in rest;
      }
    }
  }

  // Reordering keeps how identifiers are numbered, and what comes next.
  lemma SameNumbers(a: seq<u32>, b: seq<u32>, c: nat)
    requires multiset(a) == multiset(b)
    ensures Numbered(a, c) <==> Numbered(b, c)
    ensures Distinct(a) <==> Distinct(b)
    ensures NextPid(a) == NextPid(b)
  {
    DistinctByCount(a);
    DistinctByCount(b);
    assert |a| == |multiset(a)| && |b| == |multiset(b)|;
    assert forall x :: x in a <==> x in multiset(a);
    assert forall x :: x in b <==> x in multiset(b);
  }

  lemma CreateNumbers(ids: seq<u32>, c: nat)
    requires Numbered(ids, c)
    ensures Numbered(ids + [NextPid(ids)], c + 1)
  {
    var pid, after := NextPid(ids), ids + [NextPid(ids)];
    assert c > 0 ==> (if c < 0x1_0000_0000 then c else 0xFFFF_FFFF) in ids;
    assert forall x :: x in after <==> x in ids || x == pid;
    assert forall i :: 0 <= i < c ==> after[i] == ids[i];
    NextPidFresh(ids);
    if c > 0x1_0000_0000 {
      var i, j :| 0 <= i < j < c && ids[i] == ids[j];
      assert after[i] == after[j];
    } else if c == 0x1_0000_0000 {
      var i :| 0 <= i < c && ids[i] == 0;
      assert after[i] == after[c];
    }
  }

  // While processes are added in time, at most one is pending, and a pending one has the identifier that
  // would be handed out again.
  ghost predicate InTime(s: Pids, c: nat)
  {
    Numbered(s.All(), c) && |s.pending| <= 1 && (s.pending != [] ==> s.pending[0] == NextPid(s.queued))
  }

  lemma RotatedCounts(ids: seq<u32>)
    ensures multiset(Rotated(ids)) == multiset(ids)
  {
    if |ids| > 1 {
      SameEntries(ids);
    }
  }

  lemma InTimeStep(s: Pids, e: PidEvent, c: nat)
    requires InTime(s, c) && (e == Created ==> s.pending == [])
    ensures InTime(AfterEvent(s, e), if e == Created then c + 1 else c)
  {
    hide Numbered, NextPid, Distinct;
    var t := AfterEvent(s, e);
    match e
    case Created =>
      assert s.All() == s.queued && t.pending == [NextPid(s.queued)];
      assert t.All() == s.queued + [NextPid(s.queued)];
      CreateNumbers(s.queued, c);
    case Added =>
      assert t.All() == s.All();
    case Turned =>
      RotatedCounts(s.queued);
      assert multiset(t.All()) == multiset(s.All());
      SameNumbers(t.All(), s.All(), c);
      SameNumbers(t.queued, s.queued, c);
  }

  lemma {:induction false} InTimeRun(es: seq<PidEvent>)
    requires AddedInTime(es)
    ensures InTime(AfterEvents(es), Creations(es))
    decreases |es|
  {
    if es != [] {
      var before := es[..|es| - 1];
      assert forall k :: 0 <= k < |before| ==> before[..k] == es[..k];
      InTimeRun(before);
      InTimeStep(AfterEvents(before), es[|es| - 1], Creations(before));
    }
  }

  // Identifiers that clash go on clashing.
  lemma ClashStays(s: Pids, e: PidEvent)
    requires !Distinct(s.All())
    ensures !Distinct(AfterEvent(s, e).All())
  {
    var t := AfterEvent(s, e);
    if e == Turned {
      RotatedCounts(s.queued);
    }
    assert e == Created ==> t.All() == s.All() + [NextPid(s.queued)];
    assert e == Added ==> t.All() == s.All();
    assert multiset(s.All()) <= multiset(t.All());
    DistinctByCount(s.All());
    DistinctByCount(t.All());
  }

  lemma {:induction false} LateClashes(es: seq<PidEvent>)
    requires !AddedInTime(es)
    ensures !Distinct(AfterEvents(es).All())
    decreases |es|
  {
    hide Numbered, NextPid;
    assert es != [];
    var before := es[..|es| - 1];
    var s := AfterEvents(before);
    assert forall k :: 0 <= k < |before| ==> before[..k] == es[..k];
    if AddedInTime(before) {
      InTimeRun(before);
      assert es[|es| - 1] == Created && s.pending != [];
      var all, n := AfterEvents(es).All(), |s.queued|;
      assert all[n] == s.pending[0] == NextPid(s.queued) == all[|all| - 1];
      assert n < |all| - 1;
    } else {
      LateClashes(before);
      ClashStays(s, es[|es| - 1]);
    }
  }

  // From an empty queue, over any interleaving of creations, adds and schedules, the identifiers of all
  // processes are pairwise distinct exactly when each process is added before the next is created and no
  // more than 2^32 are.
  lemma PidsDistinct(es: seq<PidEvent>)
    ensures Distinct(AfterEvents(es).All()) <==> AddedInTime(es) && Creations(es) <= 0x1_0000_0000
  {
    if AddedInTime(es) {
      InTimeRun(es);
    } else {
      LateClashes(es);
    }
  }
}
