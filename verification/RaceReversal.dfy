/**
 * src/PSOTraceBuilder.cpp: `see_events` and `add_branch`, which reverse races.
 *
 * When event j races with the earlier event i, some other thread must be tried in place of event i.  A
 * suitable thread is an initial of the events after i, up to j, that do not depend on i.
 */
module RaceReversal {
  import opened TraceEvents

  /** The events of (i..j] that do not happen after event i, and always event j. */
  predicate NotDep(prefix: seq<Event>, i: int, j: int, k: int)
    requires 0 <= i < j < |prefix|
  {
    i < k <= j && (k == j || !After(prefix, k, i))
  }

  /** No other event of this subsequence must come before event `k`. */
  predicate IsInitial(prefix: seq<Event>, i: int, j: int, k: int)
    requires 0 <= i < j < |prefix|
  {
    NotDep(prefix, i, j, k) && forall m :: i < m < k && NotDep(prefix, i, j, m) ==> !After(prefix, k, m)
  }

  /** Thread of event `k` is already to be tried, or known to be covered, at event `i`. */
  predicate Considered(prefix: seq<Event>, i: int, k: int)
    requires 0 <= i < |prefix| && 0 <= k < |prefix|
  {
    Branch(prefix[k].pid, 0) in prefix[i].branch || prefix[k].pid in SleepSetAt(prefix, i)
  }

  /** The race between `i` and `j` is taken care of. */
  ghost predicate RaceCovered(prefix: seq<Event>, i: int, j: int)
    requires 0 <= i < j < |prefix|
  {
    exists k :: IsInitial(prefix, i, j, k) && Considered(prefix, i, k)
  }

  /** The last event that is an initial. */
  ghost predicate LastInitial(prefix: seq<Event>, i: int, j: int, k: int)
    requires 0 <= i < j < |prefix|
  {
    IsInitial(prefix, i, j, k) && forall m :: k < m <= j ==> !IsInitial(prefix, i, j, m)
  }

  /** What the loop of `add_branch` knows about the initials before event `k`. */
  ghost predicate CandidatesAre(prefix: seq<Event>, i: int, j: int, k: int, candidates: seq<int>)
    requires 0 <= i < j < |prefix|
  {
    && (forall m :: IsInitial(prefix, i, j, m) && m < k ==>
          prefix[m].pid < |candidates| && candidates[prefix[m].pid] == prefix[m].index)
    && (forall q :: 0 <= q < |candidates| && candidates[q] >= 0 ==> exists m :: CandidateOf(prefix, i, j, k, q, candidates[q], m))
    && (forall q :: 0 <= q < |candidates| ==> candidates[q] >= -1)
  }

  ghost predicate CandidateOf(prefix: seq<Event>, i: int, j: int, k: int, q: int, index: int, m: int)
    requires 0 <= i < j < |prefix|
  {
    IsInitial(prefix, i, j, m) && m < k && prefix[m].pid == q && prefix[m].index == index
  }

  /** Every event of the subsequence is an initial or comes after one. */
  lemma {:induction false} InitialBelow(prefix: seq<Event>, i: int, j: int, k: int) returns (m: int)
    requires ClocksValid(prefix) && 0 <= i < j < |prefix| && NotDep(prefix, i, j, k)
    ensures IsInitial(prefix, i, j, m) && m <= k && After(prefix, k, m)
    decreases k
  {
    if IsInitial(prefix, i, j, k) {
      m := k;
    } else {
      var l :| i < l < k && NotDep(prefix, i, j, l) && After(prefix, k, l);
      m := InitialBelow(prefix, i, j, l);
      AfterTrans(prefix, k, l, m);
    }
  }

  /** The test in the loop: an event is an initial iff it comes after no initial found so far. */
  lemma InitialIff(prefix: seq<Event>, i: int, j: int, k: int)
    requires ClocksValid(prefix) && 0 <= i < j < |prefix| && NotDep(prefix, i, j, k)
    ensures IsInitial(prefix, i, j, k) <==>
      forall m :: IsInitial(prefix, i, j, m) && m < k ==> !After(prefix, k, m)
  {
    if !IsInitial(prefix, i, j, k) {
      var l :| i < l < k && NotDep(prefix, i, j, l) && After(prefix, k, l);
      var m := InitialBelow(prefix, i, j, l);
      AfterTrans(prefix, k, l, m);
    }
  }

  /** `sleep_set_at`. */
  method ComputeSleepSetAt(prefix: seq<Event>, i: int) returns (sleep: set<int>)
    requires 0 <= i < |prefix|
    ensures sleep == SleepSetAt(prefix, i)
  {
    sleep := {};
    for j := 0 to i
      invariant sleep == SleepAfter(prefix, j)
    {
      sleep := sleep + (set p | p in prefix[j].sleep);
      sleep := sleep - prefix[j].wakeup;
    }
    sleep := sleep + (set p | p in prefix[i].sleep);
  }

  /** Is the clock after some candidate? */
  method IsAfterCandidate(candidates: seq<int>, clock: VClock) returns (isAfter: bool)
    ensures isAfter <==> exists q :: 0 <= q < |candidates| && 0 <= candidates[q] <= At(clock, q)
  {
    isAfter := false;
    var q := 0;
    while !isAfter && q < |candidates|
      invariant 0 <= q <= |candidates|
      invariant isAfter <==> exists r :: 0 <= r < q && 0 <= candidates[r] <= At(clock, r)
    {
      if 0 <= candidates[q] <= At(clock, q) {
        isAfter := true;
      }
      q := q + 1;
    }
  }

  /** What the loop of `add_branch` decides about event `k`. */
  method IsCandidate(prefix: seq<Event>, i: int, j: int, k: int, candidates: seq<int>) returns (r: bool)
    requires ClocksValid(prefix) && 0 <= i < k <= j < |prefix| && CandidatesAre(prefix, i, j, k, candidates)
    ensures r <==> IsInitial(prefix, i, j, k)
  {
    AfterIsLeq(prefix, k, i);
    var p := prefix[k].pid;
    if p < |candidates| && 0 <= candidates[p] {
      ghost var m :| CandidateOf(prefix, i, j, k, p, candidates[p], m);
      ProgramOrder(prefix, k, m);
      return false;
    }
    if k != j && Leq(prefix[i].clock, prefix[k].clock) {
      return false;
    }
    var isAfter := IsAfterCandidate(candidates, prefix[k].clock);
    InitialIff(prefix, i, j, k);
    if isAfter {
      ghost var q :| 0 <= q < |candidates| && 0 <= candidates[q] <= At(prefix[k].clock, q);
      ghost var m :| CandidateOf(prefix, i, j, k, q, candidates[q], m);
      assert After(prefix, k, m);
    }
    return !isAfter;
  }

  method Record(prefix: seq<Event>, i: int, j: int, k: int, candidates: seq<int>) returns (r: seq<int>)
    requires ClocksValid(prefix) && 0 <= i < k <= j < |prefix| && CandidatesAre(prefix, i, j, k, candidates)
    requires IsInitial(prefix, i, j, k)
    ensures CandidatesAre(prefix, i, j, k + 1, r)
  {
    var p := prefix[k].pid;
    r := candidates;
    if |r| <= p {
      r := r + seq(p + 1 - |r|, _ => -1);
    }
    r := r[p := prefix[k].index];
    OneMoreCandidate(prefix, i, j, k, candidates, r);
  }

  lemma OneMoreCandidate(prefix: seq<Event>, i: int, j: int, k: int, candidates: seq<int>, r: seq<int>)
    requires ClocksValid(prefix) && 0 <= i < k <= j < |prefix| && CandidatesAre(prefix, i, j, k, candidates)
    requires IsInitial(prefix, i, j, k) && |candidates| <= |r| && prefix[k].pid < |r| && r[prefix[k].pid] == prefix[k].index
    requires forall q :: 0 <= q < |r| && q != prefix[k].pid ==> r[q] == if q < |candidates| then candidates[q] else -1
    ensures CandidatesAre(prefix, i, j, k + 1, r)
  {
    forall m | IsInitial(prefix, i, j, m) && m < k + 1
      ensures prefix[m].pid < |r| && r[prefix[m].pid] == prefix[m].index
    {
      if m < k && prefix[m].pid == prefix[k].pid { ProgramOrder(prefix, k, m); }
    }
    CandidatesHaveEvents(prefix, i, j, k, candidates, r, k + 1);
  }

  lemma CandidatesHaveEvents(prefix: seq<Event>, i: int, j: int, k: int, candidates: seq<int>, r: seq<int>, n: int)
    requires n == k + 1 && 0 <= i < k <= j < |prefix| && CandidatesAre(prefix, i, j, k, candidates) && IsInitial(prefix, i, j, k)
    requires prefix[k].pid < |r| && r[prefix[k].pid] == prefix[k].index
    requires forall q :: 0 <= q < |r| && q != prefix[k].pid ==> r[q] == if q < |candidates| then candidates[q] else -1
    ensures forall q :: 0 <= q < |r| && r[q] >= 0 ==> exists m :: CandidateOf(prefix, i, j, n, q, r[q], m)
  {
    forall q | 0 <= q < |r| && r[q] >= 0
      ensures exists m :: CandidateOf(prefix, i, j, n, q, r[q], m)
    {
      if q == prefix[k].pid {
        assert CandidateOf(prefix, i, j, n, q, r[q], k);
      } else {
        var m :| CandidateOf(prefix, i, j, k, q, candidates[q], m);
        assert CandidateOf(prefix, i, j, n, q, r[q], m);
      }
    }
  }

  // ----- Clocks ------------------------------------------------------------------------------------------

  /** No clock counts more steps of a thread than the thread has taken. */
  ghost predicate Bounded(c: VClock, clocks: seq<VClock>) {
    forall p :: At(c, p) <= (if 0 <= p < |clocks| then At(clocks[p], p) else 0)
  }

  /** Clocks that may be handed around: bounded, and closed under what their events have seen. */
  ghost predicate GoodClock(prefix: seq<Event>, clocks: seq<VClock>, c: VClock) {
    ClosedClock(prefix, c) && Bounded(c, clocks)
  }

  ghost predicate ThreadsValid(prefix: seq<Event>, clocks: seq<VClock>) {
    && ClocksValid(prefix)
    && (forall k :: 0 <= k < |prefix| ==> prefix[k].pid < |clocks|)
    && (forall k {:trigger Bounded(prefix[k].clock, clocks)} :: 0 <= k < |prefix| ==> Bounded(prefix[k].clock, clocks))
    && (forall p {:trigger GoodClock(prefix, clocks, clocks[p])} ::
          0 <= p < |clocks| ==> GoodClock(prefix, clocks, clocks[p]))
  }

  lemma JoinIsGood(prefix: seq<Event>, clocks: seq<VClock>, c: VClock, d: VClock)
    requires GoodClock(prefix, clocks, c) && GoodClock(prefix, clocks, d)
    ensures GoodClock(prefix, clocks, Join(c, d))
  {
    JoinLeq(c, d);
    forall m | 0 <= m < |prefix| && prefix[m].index <= At(Join(c, d), prefix[m].pid)
      ensures Leq(prefix[m].clock, Join(c, d))
    {
      if prefix[m].index <= At(c, prefix[m].pid) {
        LeqTrans(prefix[m].clock, c, Join(c, d));
      } else {
        LeqTrans(prefix[m].clock, d, Join(c, d));
      }
    }
  }

  function NewEvent(p: nat, c: VClock): Event {
    Event(p, At(c, p), 1, 0, c, false, {}, [], {})
  }

  /** An event of one step, of which nothing is known yet. */
  ghost predicate IsFresh(e: Event, index: nat) {
    e.index == index && e.size == 1 && e.alt == 0 && !e.mayConflict && e.branch == {} && e.sleep == [] && e.wakeup == {}
  }

  /** A thread takes its next step. */
  lemma StartKeepsValid(prefix: seq<Event>, clocks: seq<VClock>, p: nat, e: Event)
    requires ThreadsValid(prefix, clocks) && p < |clocks|
    requires e.pid == p && e.index == At(clocks[p], p) + 1 && e.clock == Set(clocks[p], p, e.index)
    ensures ThreadsValid(prefix + [e], clocks[p := e.clock])
  {
    var c := e.clock;
    var q, to := prefix + [e], clocks[p := c];
    LeqIsPointwise(clocks[p], c);
    LeqIsPointwise(c, c);
    assert GoodClock(prefix, clocks, clocks[p]);
    forall d | Bounded(d, clocks)
      ensures Bounded(d, to) && At(d, p) < At(c, p)
    {
    }
    forall m | 0 <= m < |prefix|
      ensures prefix[m].index <= At(clocks[p], prefix[m].pid) ==> Leq(prefix[m].clock, c)
      ensures prefix[m].pid == p ==> prefix[m].index <= At(clocks[p], p)
    {
      assert Bounded(prefix[m].clock, clocks);
      if prefix[m].index <= At(clocks[p], prefix[m].pid) { LeqTrans(prefix[m].clock, clocks[p], c); }
    }
    assert ClosedClock(q, c);
    forall d | GoodClock(prefix, clocks, d)
      ensures GoodClock(q, to, d)
    {
    }
    forall x | 0 <= x < |to|
      ensures GoodClock(q, to, to[x])
    {
      assert GoodClock(prefix, clocks, clocks[x]);
    }
    forall k | 0 <= k < |q|
      ensures ClosedClock(q, q[k].clock) && Bounded(q[k].clock, to)
    {
      if k < |prefix| {
        assert Bounded(prefix[k].clock, clocks) && ClosedClock(prefix, prefix[k].clock);
        assert GoodClock(prefix, clocks, prefix[k].clock);
      }
    }
  }

  /** One more step of the last event: its thread gets on, and nobody has seen that step. */
  lemma ContinueKeepsValid(prefix: seq<Event>, clocks: seq<VClock>)
    requires |prefix| > 0 && ThreadsValid(prefix, clocks) && ThreadIsAtLast(prefix, clocks)
    ensures var p := prefix[|prefix| - 1].pid; var to := clocks[p := Set(clocks[p], p, At(clocks[p], p) + 1)];
      ThreadsValid(prefix, to) && ThreadIsAtLast(prefix, to) && (LastUnseen(prefix, clocks) ==> LastUnseen(prefix, to))
  {
    var e := prefix[|prefix| - 1];
    var p := e.pid;
    var c := Set(clocks[p], p, At(clocks[p], p) + 1);
    var to := clocks[p := c];
    LeqIsPointwise(clocks[p], c);
    assert GoodClock(prefix, clocks, clocks[p]);
    forall d | Bounded(d, clocks)
      ensures Bounded(d, to)
    {
      BoundedGrows(d, clocks, to);
    }
    forall k | 0 <= k < |prefix|
      ensures Bounded(prefix[k].clock, to)
      ensures prefix[k].pid == p ==> prefix[k].index <= e.index
    {
      assert Bounded(prefix[k].clock, clocks);
    }
    forall m | 0 <= m < |prefix| && prefix[m].index <= At(c, prefix[m].pid)
      ensures Leq(prefix[m].clock, c)
    {
      LeqTrans(prefix[m].clock, clocks[p], c);
    }
    BoundedByItself(c, clocks, to, p);
    forall q | 0 <= q < |to|
      ensures GoodClock(prefix, to, to[q])
    {
      if q != p { assert GoodClock(prefix, clocks, clocks[q]); }
    }
    LeqTrans(e.clock, clocks[p], c);
  }

  lemma BoundedByItself(c: VClock, clocks: seq<VClock>, to: seq<VClock>, p: nat)
    requires p < |clocks| && Bounded(clocks[p], clocks) && to == clocks[p := c] && c == Set(clocks[p], p, At(clocks[p], p) + 1)
    ensures Bounded(c, to)
  {
  }

  lemma SpawnKeepsValid(prefix: seq<Event>, clocks: seq<VClock>, parent: int)
    requires ThreadsValid(prefix, clocks) && 0 <= parent < |clocks|
    ensures ThreadsValid(prefix, clocks + [clocks[parent]])
  {
    var to := clocks + [clocks[parent]];
    forall c | Bounded(c, clocks)
      ensures Bounded(c, to)
    {
    }
    forall k | 0 <= k < |prefix|
      ensures Bounded(prefix[k].clock, to)
    {
      assert Bounded(prefix[k].clock, clocks);
    }
    forall p | 0 <= p < |to|
      ensures GoodClock(prefix, to, to[p])
    {
      assert GoodClock(prefix, clocks, clocks[if p < |clocks| then p else parent]);
    }
  }

  lemma StartIsUnseen(prefix: seq<Event>, clocks: seq<VClock>, p: nat, e: Event)
    requires ThreadsValid(prefix, clocks) && p < |clocks|
    requires e.pid == p && e.index == At(clocks[p], p) + 1
    ensures LastUnseen(prefix + [e], clocks[p := e.clock])
  {
    forall q | 0 <= q < |clocks| && q != p
      ensures At(clocks[q], p) < e.index
    {
      assert GoodClock(prefix, clocks, clocks[q]);
    }
  }

  /** Nobody but its own thread has seen the last event. */
  ghost predicate LastUnseen(prefix: seq<Event>, clocks: seq<VClock>)
    requires |prefix| > 0
  {
    var e := prefix[|prefix| - 1];
    forall q :: 0 <= q < |clocks| && q != e.pid ==> At(clocks[q], e.pid) < e.index
  }

  /** The current event takes in a clock. */
  function See(prefix: seq<Event>, c: VClock): seq<Event>
    requires |prefix| > 0
  {
    var e := prefix[|prefix| - 1];
    prefix[|prefix| - 1 := e.(clock := Join(e.clock, c))]
  }

  lemma SeeKeepsClosed(prefix: seq<Event>, c: VClock, d: VClock)
    requires |prefix| > 0 && ClosedClock(prefix, d)
    requires var e := prefix[|prefix| - 1]; At(d, e.pid) < e.index || Leq(Join(e.clock, c), d)
    ensures ClosedClock(See(prefix, c), d)
  {
  }

  lemma JoinMono(c: VClock, d: VClock, e: VClock)
    requires Leq(c, d)
    ensures Leq(Join(c, e), Join(d, e))
  {
    LeqIsPointwise(c, d);
    LeqIsPointwise(Join(c, e), Join(d, e));
  }

  /** May the clock `c` reach the current event? */
  ghost predicate CanSee(prefix: seq<Event>, clocks: seq<VClock>, c: VClock) {
    && |prefix| > 0 && ThreadsValid(prefix, clocks) && ThreadIsAtLast(prefix, clocks) && GoodClock(prefix, clocks, c)
    && At(c, prefix[|prefix| - 1].pid) <= prefix[|prefix| - 1].index
  }

  /** Every other thread that has seen the last event knows clock `c` already. */
  ghost predicate KnownToSeers(prefix: seq<Event>, clocks: seq<VClock>, c: VClock)
    requires |prefix| > 0
  {
    var e := prefix[|prefix| - 1];
    forall q {:trigger clocks[q]} :: 0 <= q < |clocks| && q != e.pid && At(clocks[q], e.pid) >= e.index ==> Leq(c, clocks[q])
  }

  lemma SeeKeepsEvents(prefix: seq<Event>, clocks: seq<VClock>, c: VClock)
    requires CanSee(prefix, clocks, c)
    ensures ClocksValid(See(prefix, c))
  {
    var n := |prefix| - 1;
    var e, q := prefix[n], See(prefix, c);
    JoinIsGood(prefix, clocks, e.clock, c);
    LeqIsPointwise(Join(e.clock, c), Join(e.clock, c));
    forall k | 0 <= k < |q|
      ensures ClosedClock(q, q[k].clock)
    {
      if k < n {
        assert At(prefix[k].clock, e.pid) < e.index;
        SeeKeepsClosed(prefix, c, prefix[k].clock);
      } else {
        SeeKeepsClosed(prefix, c, Join(e.clock, c));
      }
    }
  }

  /** The current event and its thread see a clock that is new to nobody who has seen the event. */
  lemma SeeKeepsValid(prefix: seq<Event>, clocks: seq<VClock>, c: VClock)
    requires CanSee(prefix, clocks, c) && KnownToSeers(prefix, clocks, c)
    ensures var p := prefix[|prefix| - 1].pid; var to := clocks[p := Join(clocks[p], c)];
      ThreadsValid(See(prefix, c), to) && ThreadIsAtLast(See(prefix, c), to)
  {
    var e := prefix[|prefix| - 1];
    var q, to := See(prefix, c), clocks[e.pid := Join(clocks[e.pid], c)];
    SeeKeepsEvents(prefix, clocks, c);
    JoinIsGood(prefix, clocks, e.clock, c);
    JoinIsGood(prefix, clocks, clocks[e.pid], c);
    JoinMono(e.clock, clocks[e.pid], c);
    forall k | 0 <= k < |q|
      ensures Bounded(q[k].clock, to)
    {
      BoundedGrows(q[k].clock, clocks, to);
    }
    forall p | 0 <= p < |to|
      ensures GoodClock(q, to, to[p])
    {
      assert GoodClock(prefix, clocks, to[p]);
      BoundedGrows(to[p], clocks, to);
      if p != e.pid && At(clocks[p], e.pid) >= e.index { SeerKnowsAll(prefix, c, clocks[p]); }
      SeeKeepsClosed(prefix, c, to[p]);
    }
  }

  lemma SeerKnowsAll(prefix: seq<Event>, c: VClock, d: VClock)
    requires |prefix| > 0 && ClosedClock(prefix, d) && Leq(c, d)
    requires At(d, prefix[|prefix| - 1].pid) >= prefix[|prefix| - 1].index
    ensures Leq(Join(prefix[|prefix| - 1].clock, c), d)
  {
    var e := prefix[|prefix| - 1];
    assert Leq(e.clock, d);
    LeqIsPointwise(e.clock, d);
    LeqIsPointwise(c, d);
    LeqIsPointwise(Join(e.clock, c), d);
  }

  /** When the clocks still encode a transitive order: exactly if whoever has seen the event knows the clock. */
  lemma SeeIsSafeIff(prefix: seq<Event>, clocks: seq<VClock>, c: VClock)
    requires CanSee(prefix, clocks, c)
    ensures var p := prefix[|prefix| - 1].pid;
      ThreadsValid(See(prefix, c), clocks[p := Join(clocks[p], c)]) <==> KnownToSeers(prefix, clocks, c)
  {
    var e := prefix[|prefix| - 1];
    var q, to := See(prefix, c), clocks[e.pid := Join(clocks[e.pid], c)];
    if ThreadsValid(q, to) {
      forall x | 0 <= x < |clocks| && x != e.pid && At(clocks[x], e.pid) >= e.index
        ensures Leq(c, clocks[x])
      {
        assert GoodClock(q, to, to[x]);
        assert Leq(q[|q| - 1].clock, to[x]);
        JoinLeq(e.clock, c);
        LeqTrans(c, Join(e.clock, c), clocks[x]);
      }
    } else if KnownToSeers(prefix, clocks, c) {
      SeeKeepsValid(prefix, clocks, c);
    }
  }

  lemma BoundedGrows(d: VClock, clocks: seq<VClock>, to: seq<VClock>)
    requires Bounded(d, clocks) && |clocks| == |to|
    requires forall p :: 0 <= p < |to| ==> At(clocks[p], p) <= At(to[p], p)
    ensures Bounded(d, to)
  {
  }

  /** The thread of the last event is at that event, at one of its steps, and nobody else has seen it yet. */
  ghost predicate ThreadAtLast(p: seq<Event>, clocks: seq<VClock>)
    requires |p| > 0 && p[|p| - 1].pid < |clocks|
  {
    ThreadIsAtLast(p, clocks) && LastUnseen(p, clocks)
  }

  ghost predicate ThreadIsAtLast(p: seq<Event>, clocks: seq<VClock>)
    requires |p| > 0 && p[|p| - 1].pid < |clocks|
  {
    var e := p[|p| - 1];
    At(clocks[e.pid], e.pid) >= e.index && Leq(e.clock, clocks[e.pid])
  }

  class TraceBuilder {
    var prefix: seq<Event>
    var prefixIdx: int
    /** `threads[p].clock`. */
    var clocks: seq<VClock>

    /** The events executed so far. */
    function Executed(): seq<Event>
      requires -1 <= prefixIdx < |prefix|
      reads this
    {
      prefix[..prefixIdx + 1]
    }

    ghost predicate Valid()
      reads this
    {
      && -1 <= prefixIdx < |prefix|
      && ThreadsValid(Executed(), clocks)
    }

    /** The thread of the current event is at that event, at one of its steps. */
    ghost predicate AtEvent()
      requires Valid()
      reads this
    {
      prefixIdx >= 0 && ThreadIsAtLast(Executed(), clocks)
    }

    /** And nobody else has seen it yet. */
    ghost predicate AtCurrent()
      requires Valid()
      reads this
    {
      prefixIdx >= 0 && ThreadAtLast(Executed(), clocks)
    }

    /** The initial thread, before its first step. */
    constructor ()
      ensures Valid() && prefixIdx == -1 && prefix == [] && clocks == [[]]
    {
      prefix, prefixIdx, clocks := [], -1, [[]];
    }

    /** `spawn`: the child starts from what its parent has seen. */
    method Spawn(parent: int) returns (child: int)
      requires Valid() && 0 <= parent < |clocks|
      modifies this`clocks
      ensures Valid() && child == |old(clocks)| && clocks == old(clocks) + [old(clocks)[parent]]
    {
      child := |clocks|;
      SpawnKeepsValid(Executed(), clocks, parent);
      clocks := clocks + [clocks[parent]];
    }

    /** The part of `schedule` that starts an event: the next one of the prefix when replaying, else a new one. */
    method Start(p: nat)
      requires Valid() && p < |clocks|
      requires prefixIdx + 1 < |prefix| ==>
        prefix[prefixIdx + 1].pid == p && prefix[prefixIdx + 1].index == At(clocks[p], p) + 1
      modifies this
      ensures Valid() && AtCurrent() && prefixIdx == old(prefixIdx) + 1 && prefix[prefixIdx].pid == p
      ensures |prefix| == (if prefixIdx < |old(prefix)| then |old(prefix)| else |old(prefix)| + 1)
      ensures forall k :: 0 <= k < |prefix| && k != prefixIdx ==> prefix[k] == old(prefix)[k]
      ensures clocks == old(clocks)[p := prefix[prefixIdx].clock]
      ensures prefix[prefixIdx].clock == Set(old(clocks[p]), p, old(At(clocks[p], p)) + 1)
      ensures prefixIdx < |old(prefix)| ==> prefix[prefixIdx] == old(prefix)[prefixIdx].(clock := prefix[prefixIdx].clock)
      ensures prefixIdx == |old(prefix)| ==>
        IsFresh(prefix[prefixIdx], old(At(clocks[p], p)) + 1)
    {
      var c := Set(clocks[p], p, At(clocks[p], p) + 1);
      var e := if prefixIdx + 1 < |prefix| then prefix[prefixIdx + 1].(clock := c) else NewEvent(p, c);
      StartKeepsValid(Executed(), clocks, p, e);
      StartIsUnseen(Executed(), clocks, p, e);
      LeqIsPointwise(c, c);
      prefix := if prefixIdx + 1 < |prefix| then prefix[prefixIdx + 1 := e] else prefix + [e];
      clocks := clocks[p := c];
      prefixIdx := prefixIdx + 1;
      assert Executed() == old(Executed()) + [e];
    }

    /** The part of `schedule` that goes on with the current event, which has more steps. */
    method Continue()
      requires Valid() && AtEvent()
      requires At(clocks[prefix[prefixIdx].pid], prefix[prefixIdx].pid) < prefix[prefixIdx].index + prefix[prefixIdx].size - 1
      modifies this`clocks
      ensures Valid() && AtEvent() && (old(AtCurrent()) ==> AtCurrent())
      ensures var p := prefix[prefixIdx].pid; clocks == old(clocks)[p := Set(old(clocks[p]), p, At(old(clocks[p]), p) + 1)]
    {
      var p := prefix[prefixIdx].pid;
      ContinueKeepsValid(Executed(), clocks);
      clocks := clocks[p := Set(clocks[p], p, At(clocks[p], p) + 1)];
    }

    /** `curnode().clock += c; threads[ipid].clock += c`, which must be new to nobody who has seen the event. */
    method SeeClock(c: VClock)
      requires Valid() && AtEvent() && GoodClock(Executed(), clocks, c)
      requires At(c, prefix[prefixIdx].pid) <= prefix[prefixIdx].index && KnownToSeers(Executed(), clocks, c)
      modifies this`prefix, this`clocks
      ensures Valid() && AtEvent() && (old(AtCurrent()) ==> AtCurrent())
      ensures |prefix| == |old(prefix)| && |clocks| == |old(clocks)|
      ensures prefix == old(prefix)[prefixIdx := old(prefix)[prefixIdx].(clock := Join(old(prefix)[prefixIdx].clock, c))]
      ensures var p := prefix[prefixIdx].pid; clocks == old(clocks)[p := Join(old(clocks)[p], c)]
    {
      var e := prefix[prefixIdx];
      SeeKeepsValid(Executed(), clocks, c);
      prefix := prefix[prefixIdx := e.(clock := Join(e.clock, c))];
      clocks := clocks[e.pid := Join(clocks[e.pid], c)];
      assert Executed() == See(old(Executed()), c);
    }

    /**
     * `add_branch`: unless the thread of some initial is tried or asleep at event `i` already, the thread of
     * the last initial will be tried.
     */
    method AddBranch(i: int, j: int)
      requires Valid() && 0 <= i < j <= prefixIdx
      modifies this`prefix
      ensures Valid() && BranchAdded(old(prefix), prefix, prefixIdx, i, j)
      ensures old(AtCurrent()) ==> AtCurrent()
    {
      var cand := FindBranch(Executed(), i, j);
      if cand == -1 {
        CoveredIsReversed(Executed(), i, j);
      } else {
        ghost var last :| FoundBranch(Executed(), i, j, last, cand);
        Insert(i, cand, j, last);
      }
    }

    /** The insertion at the end of `add_branch`. */
    method Insert(i: int, cand: int, ghost j: int, ghost last: int)
      requires Valid() && 0 <= i < j <= prefixIdx && !RaceCovered(Executed(), i, j)
      requires FoundBranch(Executed(), i, j, last, cand)
      modifies this`prefix
      ensures Valid() && BranchAdded(old(prefix), prefix, prefixIdx, i, j)
      ensures old(AtCurrent()) ==> AtCurrent()
    {
      FoundKeepsValid(prefix, prefixIdx, clocks, i, j, last, cand);
      ghost var post := AddBranchAt(prefix, i, cand)[..prefixIdx + 1];
      prefix := prefix[i := prefix[i].(branch := prefix[i].branch + {Branch(cand, 0)})];
      assert Executed() == post;
    }

    /**
     * `see_events`: the current event conflicts with the seen ones.  Those that it does not already happen
     * after, and that are not below another seen one, are races, and every race gets reversed.
     */
    method SeeEvents(seen: seq<int>)
      requires Valid() && AtCurrent()
      requires AllBelow(seen, prefixIdx + 1)
      modifies this`prefix, this`clocks
      ensures Valid() && AtCurrent()
      ensures EventsSeen(old(prefix), old(clocks), old(Executed()), prefix, clocks, Executed(), prefixIdx, seen)
    {
      var races := Races(Executed(), seen);
      SeeBeforeReversing(seen, races);
      ReverseSeen(races, seen, old(prefix), old(clocks), old(Executed()));
    }

    /** After the second loop, the third one completes the picture. */
    method ReverseSeen(races: seq<int>, ghost seen: seq<int>, ghost p: seq<Event>, ghost c: seq<VClock>, ghost was: seq<Event>)
      requires Valid() && AtCurrent() && OnlyClock(p, prefix, prefixIdx) && OfOthers(prefix, prefixIdx, races)
      requires AllBelow(seen, prefixIdx + 1) && was == p[..prefixIdx + 1] && forall i :: i in races <==> IsRace(was, seen, i)
      requires AllSeen(Executed(), seen, |seen|) && ClocksSee(p, c, prefix, clocks, prefixIdx, seen, |seen|)
      modifies this`prefix
      ensures Valid() && AtCurrent() && EventsSeen(p, c, was, prefix, clocks, Executed(), prefixIdx, seen)
    {
      ghost var mid, pre := prefix, Executed();
      ReverseAll(races);
      SeenAndReversed(was, p, c, mid, pre, prefix, clocks, Executed(), prefixIdx, races, seen);
    }

    /** The second loop leaves the races what they are. */
    method SeeBeforeReversing(seen: seq<int>, ghost races: seq<int>)
      requires Valid() && AtCurrent() && AllBelow(seen, prefixIdx + 1)
      requires forall n :: 0 <= n < |races| ==> 0 <= races[n] < prefixIdx && IsRace(Executed(), seen, races[n])
      modifies this`prefix, this`clocks
      ensures Valid() && AtCurrent() && OnlyClock(old(prefix), prefix, prefixIdx) && OfOthers(prefix, prefixIdx, races)
      ensures AllSeen(Executed(), seen, |seen|) && ClocksSee(old(prefix), old(clocks), prefix, clocks, prefixIdx, seen, |seen|)
    {
      ghost var was := Executed();
      SeeAll(seen);
      RacesAreOfOthers(was, old(prefix), prefix, prefixIdx, races, seen);
    }

    /** The third loop of `see_events`. */
    method ReverseAll(races: seq<int>)
      requires Valid() && AtCurrent()
      requires OfOthers(prefix, prefixIdx, races)
      modifies this`prefix
      ensures Valid() && AtCurrent()
      ensures AllCovered(Executed(), races, |races|)
      ensures OnlyBranches(old(prefix), prefix, races) && OneEach(old(prefix), Executed(), prefixIdx)
    {
      var n := 0;
      while n < |races|
        invariant 0 <= n <= |races| && Valid() && AtCurrent() && OfOthers(prefix, prefixIdx, races)
        invariant AllCovered(Executed(), races, n)
        invariant OnlyBranches(old(prefix), prefix, races) && OneEach(old(prefix), Executed(), prefixIdx)
      {
        Reverse(races, n, old(prefix));
        n := n + 1;
      }
    }

    /** One round of the third loop of `see_events`. */
    method Reverse(races: seq<int>, n: int, ghost start: seq<Event>)
      requires Valid() && AtCurrent() && 0 <= n < |races| && 0 <= races[n] < prefixIdx
      requires AllCovered(Executed(), races, n) && OnlyBranches(start, prefix, races) && prefix[races[n]].pid != prefix[prefixIdx].pid
      requires OneEach(start, Executed(), prefixIdx)
      modifies this`prefix
      ensures Valid() && AtCurrent()
      ensures AllCovered(Executed(), races, n + 1)
      ensures OnlyBranches(start, prefix, races) && OneEach(start, Executed(), prefixIdx)
    {
      ghost var mid, pre := prefix, Executed();
      AddBranch(races[n], prefixIdx);
      OneMoreReversed(start, mid, pre, prefix, Executed(), prefixIdx, races, n);
      NextOneEach(start, mid, pre, races[n], prefixIdx, prefix, Executed());
    }

    /** The second loop of `see_events`. */
    method SeeAll(seen: seq<int>)
      requires Valid() && AtCurrent()
      requires AllBelow(seen, prefixIdx + 1)
      modifies this`prefix, this`clocks
      ensures Valid() && AtCurrent() && OnlyClock(old(prefix), prefix, prefixIdx)
      ensures AllSeen(Executed(), seen, |seen|) && ClocksSee(old(prefix), old(clocks), prefix, clocks, prefixIdx, seen, |seen|)
    {
      var n := 0;
      NothingSeen(prefix, clocks, prefixIdx, seen);
      while n < |seen|
        invariant 0 <= n <= |seen| && Valid() && AtCurrent() && OnlyClock(old(prefix), prefix, prefixIdx)
        invariant AllSeen(Executed(), seen, n) && ClocksSee(old(prefix), old(clocks), prefix, clocks, prefixIdx, seen, n)
      {
        SeeNext(seen, n, old(prefix), old(clocks));
        n := n + 1;
      }
    }

    method SeeNext(seen: seq<int>, n: int, ghost start: seq<Event>, ghost clocksAtStart: seq<VClock>)
      requires Valid() && AtCurrent() && 0 <= n < |seen| && OnlyClock(start, prefix, prefixIdx)
      requires AllBelow(seen, prefixIdx + 1) && AllSeen(Executed(), seen, n)
      requires ClocksSee(start, clocksAtStart, prefix, clocks, prefixIdx, seen, n)
      modifies this`prefix, this`clocks
      ensures Valid() && AtCurrent() && OnlyClock(start, prefix, prefixIdx)
      ensures AllSeen(Executed(), seen, n + 1) && ClocksSee(start, clocksAtStart, prefix, clocks, prefixIdx, seen, n + 1)
    {
      if 0 <= seen[n] {
        ghost var was, clocksWere := prefix, clocks;
        SeeOne(seen, n);
        OneMoreSeen(start, clocksAtStart, was, clocksWere, prefix, clocks, prefixIdx, seen, n);
      } else {
        NoneMoreSeen(start, clocksAtStart, prefix, clocks, prefixIdx, seen, n);
      }
    }

    method SeeOne(seen: seq<int>, n: int)
      requires Valid() && AtCurrent() && 0 <= n < |seen| && 0 <= seen[n]
      requires AllBelow(seen, prefixIdx + 1) && AllSeen(Executed(), seen, n)
      modifies this`prefix, this`clocks
      ensures Valid() && AtCurrent() && OnlyClock(old(prefix), prefix, prefixIdx)
      ensures AllSeen(Executed(), seen, n + 1)
      ensures var c := old(prefix)[seen[n]].clock; var p := prefix[prefixIdx].pid;
        prefix[prefixIdx].clock == Join(old(prefix)[prefixIdx].clock, c) && clocks == old(clocks)[p := Join(old(clocks)[p], c)]
    {
      ghost var pre := Executed();
      var i := seen[n];
      assert prefix[i] == pre[i] && ClosedClock(pre, pre[i].clock);
      SeeClock(prefix[i].clock);
      AllSeenGrows(pre, seen, n);
      assert Executed() == See(pre, pre[i].clock);
    }
  }

  /** Clock `d` is the least one above `c` and the clocks of the first `n` of the seen events. */
  ghost predicate SeesAll(p: seq<Event>, seen: seq<int>, n: int, c: VClock, d: VClock)
    requires AllBelow(seen, |p|) && 0 <= n <= |seen|
  {
    && Above(p, seen, n, c, d)
    && forall e {:trigger Above(p, seen, n, c, e)} :: Above(p, seen, n, c, e) ==> Leq(d, e)
  }

  ghost predicate Above(p: seq<Event>, seen: seq<int>, n: int, c: VClock, d: VClock)
    requires AllBelow(seen, |p|) && 0 <= n <= |seen|
  {
    Leq(c, d) && forall m {:trigger seen[m]} :: 0 <= m < n && 0 <= seen[m] ==> Leq(p[seen[m]].clock, d)
  }

  /** The current event and its thread have seen exactly the seen events, and no other thread has seen anything. */
  ghost predicate SeenByBoth(p: seq<Event>, clocks: seq<VClock>, q: seq<Event>, to: seq<VClock>, idx: int, seen: seq<int>) {
    && 0 <= idx < |p| == |q| && AllBelow(seen, |p|) && |to| == |clocks| && p[idx].pid < |clocks|
    && SeesAll(p, seen, |seen|, p[idx].clock, q[idx].clock)
    && SeesAll(p, seen, |seen|, clocks[p[idx].pid], to[p[idx].pid])
    && forall t :: 0 <= t < |clocks| && t != p[idx].pid ==> to[t] == clocks[t]
  }

  /**
   * All that `see_events` does to the trace and the clocks: every race gets reversed by one more branch at most,
   * and the current event, which is after all seen events from then on, has seen them and nothing else.
   */
  ghost predicate EventsSeen(p: seq<Event>, clocks: seq<VClock>, was: seq<Event>, q: seq<Event>, to: seq<VClock>, post: seq<Event>,
                             idx: int, seen: seq<int>) {
    && OnlyRecords(p, q, idx) && was == p[..idx + 1] && post == q[..idx + 1] && AllBelow(seen, idx + 1)
    && NewBranchesFit(p, q) && OneEach(p, post, idx)
    && (forall i :: IsRace(was, seen, i) ==> 0 <= i < idx && RaceCovered(post, i, idx))
    && (forall k :: 0 <= k < idx ==> IsRace(was, seen, k) || q[k] == p[k])
    && AllSeen(post, seen, |seen|) && SeenByBoth(p, clocks, q, to, idx, seen)
  }

  /** From `p` and `clocks`, the current event and its thread have seen the first `n`, and nobody else anything. */
  ghost predicate ClocksSee(p: seq<Event>, clocks: seq<VClock>, q: seq<Event>, to: seq<VClock>, idx: int, seen: seq<int>, n: int)
    requires OnlyClock(p, q, idx) && AllBelow(seen, idx + 1) && 0 <= n <= |seen|
  {
    && |to| == |clocks| && p[idx].pid < |clocks| && Leq(p[idx].clock, clocks[p[idx].pid]) && to == clocks[p[idx].pid := to[p[idx].pid]]
    && SeesAll(p, seen, n, p[idx].clock, q[idx].clock) && SeesAll(p, seen, n, clocks[p[idx].pid], to[p[idx].pid])
  }

  lemma NothingSeen(p: seq<Event>, clocks: seq<VClock>, idx: int, seen: seq<int>)
    requires 0 <= idx < |p| && AllBelow(seen, idx + 1) && p[idx].pid < |clocks| && Leq(p[idx].clock, clocks[p[idx].pid])
    ensures ClocksSee(p, clocks, p, clocks, idx, seen, 0)
  {
    LeqIsPointwise(p[idx].clock, p[idx].clock);
    LeqIsPointwise(clocks[p[idx].pid], clocks[p[idx].pid]);
  }

  lemma JoinIsLeast(c: VClock, d: VClock, e: VClock)
    ensures Leq(Join(c, d), e) <==> Leq(c, e) && Leq(d, e)
  {
    LeqIsPointwise(Join(c, d), e);
    LeqIsPointwise(c, e);
    LeqIsPointwise(d, e);
  }

  /** Clock `x`, which is joined, is that of seen event `n`, or one that adds no more than that. */
  lemma JoinSeesOneMore(p: seq<Event>, seen: seq<int>, n: int, c: VClock, d: VClock, x: VClock)
    requires AllBelow(seen, |p|) && 0 <= n < |seen| && 0 <= seen[n] && SeesAll(p, seen, n, c, d)
    requires Leq(p[seen[n]].clock, x) && forall e :: Above(p, seen, n + 1, c, e) ==> Leq(x, e)
    ensures SeesAll(p, seen, n + 1, c, Join(d, x))
  {
    JoinLeq(d, x);
    forall m | 0 <= m <= n && 0 <= seen[m]
      ensures Leq(p[seen[m]].clock, Join(d, x))
    {
      LeqTrans(p[seen[m]].clock, if m < n then d else x, Join(d, x));
    }
    LeqTrans(c, d, Join(d, x));
    forall e | Above(p, seen, n + 1, c, e)
      ensures Leq(Join(d, x), e)
    {
      assert Above(p, seen, n, c, e);
      JoinIsLeast(d, x, e);
    }
  }

  lemma OneMoreSeen(p: seq<Event>, clocks: seq<VClock>, mid: seq<Event>, between: seq<VClock>, q: seq<Event>, to: seq<VClock>, idx: int, seen: seq<int>, n: int)
    requires OnlyClock(p, mid, idx) && OnlyClock(p, q, idx) && AllBelow(seen, idx + 1) && 0 <= n < |seen| && 0 <= seen[n]
    requires ClocksSee(p, clocks, mid, between, idx, seen, n)
    requires var c := mid[seen[n]].clock;
      q[idx].clock == Join(mid[idx].clock, c) && to == between[p[idx].pid := Join(between[p[idx].pid], c)]
    ensures ClocksSee(p, clocks, q, to, idx, seen, n + 1)
  {
    var x, t := mid[seen[n]].clock, p[idx].pid;
    forall c, e | Leq(p[idx].clock, c) && Above(p, seen, n + 1, c, e)
      ensures Leq(x, e)
    {
      LeqTrans(p[idx].clock, c, e);
      assert Above(p, seen, n, p[idx].clock, e);
    }
    LeqIsPointwise(p[idx].clock, p[idx].clock);
    if seen[n] != idx { LeqIsPointwise(x, x); }
    JoinSeesOneMore(p, seen, n, p[idx].clock, mid[idx].clock, x);
    JoinSeesOneMore(p, seen, n, clocks[t], between[t], x);
  }

  lemma NoneMoreSeen(p: seq<Event>, clocks: seq<VClock>, q: seq<Event>, to: seq<VClock>, idx: int, seen: seq<int>, n: int)
    requires OnlyClock(p, q, idx) && AllBelow(seen, idx + 1) && 0 <= n < |seen| && seen[n] < 0
    requires ClocksSee(p, clocks, q, to, idx, seen, n)
    ensures ClocksSee(p, clocks, q, to, idx, seen, n + 1)
  {
    NoneMore(p, seen, n, p[idx].clock, q[idx].clock);
    NoneMore(p, seen, n, clocks[p[idx].pid], to[p[idx].pid]);
  }

  lemma NoneMore(p: seq<Event>, seen: seq<int>, n: int, c: VClock, d: VClock)
    requires AllBelow(seen, |p|) && 0 <= n < |seen| && seen[n] < 0 && SeesAll(p, seen, n, c, d)
    ensures SeesAll(p, seen, n + 1, c, d)
  {
    forall e | Above(p, seen, n + 1, c, e)
      ensures Leq(d, e)
    {
      assert Above(p, seen, n, c, e);
    }
  }

  /** Only the clock of event `idx` has changed. */
  ghost predicate OnlyClock(p: seq<Event>, q: seq<Event>, idx: int) {
    |p| == |q| && 0 <= idx < |p| && q == p[idx := p[idx].(clock := q[idx].clock)]
  }

  /** The last event has seen the first `n` of the seen events. */
  ghost predicate AllSeen(p: seq<Event>, seen: seq<int>, n: int)
    requires |p| > 0 && AllBelow(seen, |p|) && 0 <= n <= |seen|
  {
    forall m :: 0 <= m < n && 0 <= seen[m] ==> After(p, |p| - 1, seen[m])
  }

  lemma AllSeenStays(p: seq<Event>, q: seq<Event>, seen: seq<int>)
    requires |p| > 0 && AllBelow(seen, |p|) && SameButBranches(p, q) && AllSeen(p, seen, |seen|)
    ensures AllSeen(q, seen, |seen|)
  {
  }

  lemma AllSeenGrows(p: seq<Event>, seen: seq<int>, n: int)
    requires |p| > 0 && AllBelow(seen, |p|) && 0 <= n < |seen| && 0 <= seen[n]
    requires ClocksValid(p) && AllSeen(p, seen, n)
    ensures AllSeen(See(p, p[seen[n]].clock), seen, n + 1)
  {
    var q := See(p, p[seen[n]].clock);
    forall m | 0 <= m < n + 1 && 0 <= seen[m]
      ensures After(q, |p| - 1, seen[m])
    {
      assert q[seen[m]].pid == p[seen[m]].pid && q[seen[m]].index == p[seen[m]].index;
      assert m < n ==> After(p, |p| - 1, seen[m]);
    }
  }

  /** The first `n` races are covered. */
  ghost predicate AllCovered(p: seq<Event>, races: seq<int>, n: int)
    requires n <= |races|
  {
    forall m :: 0 <= m < n ==> 0 <= races[m] < |p| - 1 && RaceCovered(p, races[m], |p| - 1)
  }

  lemma AllCoveredStays(p: seq<Event>, q: seq<Event>, races: seq<int>, n: int)
    requires 0 <= n < |races| && 0 <= races[n] < |p| - 1 && AllCovered(p, races, n)
    requires ReversesRace(p, races[n], |p| - 1, q)
    ensures AllCovered(q, races, n + 1)
  {
    forall m | 0 <= m < n
      ensures RaceCovered(q, races[m], |p| - 1)
    {
      CoveredStays(p, q, races[m], |p| - 1);
    }
  }

  /** Branches have been added, and only at races. */
  ghost predicate OnlyBranches(p: seq<Event>, q: seq<Event>, races: seq<int>) {
    && SameButBranches(p, q) && NewBranchesFit(p, q)
    && forall k :: 0 <= k < |p| ==> p[k].branch <= q[k].branch && (k !in races ==> q[k] == p[k])
  }

  /** A branch that may be recorded at event `k`: for a thread that neither runs nor sleeps there. */
  ghost predicate Fits(p: seq<Event>, k: int, b: Branch)
    requires 0 <= k < |p|
  {
    b.alt == 0 && b.pid >= 0 && b.pid != p[k].pid && b.pid !in SleepSetAt(p, k)
  }

  ghost predicate NewBranchesFit(p: seq<Event>, q: seq<Event>) {
    |p| == |q| && forall k, b {:trigger Fits(p, k, b)} :: 0 <= k < |p| && b in q[k].branch && b !in p[k].branch ==> Fits(p, k, b)
  }

  lemma FitsTrans(p: seq<Event>, q: seq<Event>, r: seq<Event>)
    requires SameButBranches(p, q) && NewBranchesFit(p, q) && NewBranchesFit(q, r)
    ensures NewBranchesFit(p, r)
  {
    forall k, b | 0 <= k < |p| && b in r[k].branch && b !in p[k].branch
      ensures Fits(p, k, b)
    {
      BranchesDoNotSleep(p, q, k);
      assert b !in q[k].branch ==> Fits(q, k, b);
    }
  }

  lemma {:induction false} ClockDoesNotSleep(p: seq<Event>, q: seq<Event>, idx: int, k: int)
    requires OnlyClock(p, q, idx) && 0 <= k < |p|
    ensures SleepSetAt(q, k) == SleepSetAt(p, k)
    decreases k
  {
    if k > 0 {
      ClockDoesNotSleep(p, q, idx, k - 1);
    }
  }

  lemma SameTail(p: seq<Event>, q: seq<Event>, n: nat)
    requires |p| == |q| && n <= |p| && p[n..] == q[n..]
    ensures forall k :: n <= k < |p| ==> p[k] == q[k]
  {
    assert forall k :: n <= k < |p| ==> p[k] == p[n..][k - n] && q[k] == q[n..][k - n];
  }

  /** `add_branch` adds at most one branch, and it fits. */
  lemma AddedFits(p: seq<Event>, q: seq<Event>, idx: int, i: int, j: int)
    requires 0 <= i < j <= idx < |p| && BranchAdded(p, q, idx, i, j) && ClocksValid(p[..idx + 1]) && p[i].pid != p[j].pid
    ensures NewBranchesFit(p, q)
  {
    var a, b := p[..idx + 1], q[..idx + 1];
    if !RaceCovered(a, i, j) {
      var c :| AddsLastInitial(a, i, j, c, b);
      BranchIsForOther(a, i, j, c, b);
      SleepOfPrefix(p, idx + 1, i);
    }
    SameTail(p, q, idx + 1);
    assert forall k :: 0 <= k <= idx ==> a[k] == p[k] && b[k] == q[k];
  }

  /** Earlier events may have got branches, the current one may have seen more, and later ones are as before. */
  ghost predicate OnlyRecords(p: seq<Event>, q: seq<Event>, idx: int) {
    && |p| == |q| && 0 <= idx < |p|
    && (forall k :: 0 <= k < idx ==> q[k] == p[k].(branch := q[k].branch) && p[k].branch <= q[k].branch)
    && q[idx] == p[idx].(clock := q[idx].clock) && (forall k :: idx < k < |p| ==> q[k] == p[k])
  }

  /** The races are with events of other threads. */
  ghost predicate OfOthers(p: seq<Event>, idx: int, races: seq<int>) {
    0 <= idx < |p| && forall n :: 0 <= n < |races| ==> 0 <= races[n] < idx && p[races[n]].pid != p[idx].pid
  }

  lemma RacesAreOfOthers(was: seq<Event>, p: seq<Event>, mid: seq<Event>, idx: int, races: seq<int>, seen: seq<int>)
    requires OnlyClock(p, mid, idx) && was == p[..idx + 1] && ClocksValid(was) && AllBelow(seen, idx + 1)
    requires forall n :: 0 <= n < |races| ==> 0 <= races[n] < idx && IsRace(was, seen, races[n])
    ensures OfOthers(mid, idx, races)
  {
    forall n | 0 <= n < |races|
      ensures mid[races[n]].pid != mid[idx].pid
    {
      RaceIsBetweenThreads(was, seen, races[n]);
    }
  }

  /** What the two loops have done together. */
  lemma SeenAndReversed(was: seq<Event>, p: seq<Event>, clocks: seq<VClock>, mid: seq<Event>, pre: seq<Event>, q: seq<Event>, to: seq<VClock>,
                        post: seq<Event>, idx: int, races: seq<int>, seen: seq<int>)
    requires OnlyClock(p, mid, idx) && OnlyBranches(mid, q, races) && OfOthers(mid, idx, races)
    requires was == p[..idx + 1] && pre == mid[..idx + 1] && post == q[..idx + 1]
    requires AllBelow(seen, idx + 1) && AllSeen(pre, seen, |seen|) && forall i :: i in races <==> IsRace(was, seen, i)
    requires AllCovered(post, races, |races|) && OneEach(mid, post, idx)
    requires ClocksSee(p, clocks, mid, to, idx, seen, |seen|)
    ensures EventsSeen(p, clocks, was, q, to, post, idx, seen)
  {
    Summary(p, mid, q, idx, races);
    AllSeenStays(pre, post, seen);
    forall i | IsRace(was, seen, i)
      ensures 0 <= i < idx && RaceCovered(post, i, idx)
    {
      var m :| 0 <= m < |races| && races[m] == i;
    }
  }

  lemma Summary(p: seq<Event>, mid: seq<Event>, q: seq<Event>, idx: int, races: seq<int>)
    requires OnlyClock(p, mid, idx) && OnlyBranches(mid, q, races) && forall n :: 0 <= n < |races| ==> races[n] < idx
    ensures OnlyRecords(p, q, idx) && NewBranchesFit(p, q)
    ensures forall k :: 0 <= k < idx && k !in races ==> q[k] == p[k]
  {
    forall k, b | 0 <= k < |p| && b in q[k].branch && b !in p[k].branch
      ensures Fits(p, k, b)
    {
      assert mid[k].branch == p[k].branch && mid[k].pid == p[k].pid && Fits(mid, k, b);
      ClockDoesNotSleep(p, mid, idx, k);
    }
  }

  lemma OnlyBranchesTrans(p: seq<Event>, q: seq<Event>, r: seq<Event>, races: seq<int>)
    requires OnlyBranches(p, q, races) && OnlyBranches(q, r, races)
    ensures OnlyBranches(p, r, races)
  {
    FitsTrans(p, q, r);
  }

  /** The race of events `i` and `j` is reversed, in the events up to `idx`; nothing else has changed. */
  ghost predicate BranchAdded(p: seq<Event>, q: seq<Event>, idx: int, i: int, j: int)
    requires 0 <= i < j <= idx < |p|
  {
    && SameButBranches(p, q) && q[idx + 1..] == p[idx + 1..]
    && ReversesRace(p[..idx + 1], i, j, q[..idx + 1])
  }

  /** The one branch added at event `i`: for the last initial, when no initial was tried or asleep there. */
  ghost predicate AddedFor(was: set<Branch>, p: seq<Event>, i: int, j: int, c: int)
    requires 0 <= i < j < |p|
  {
    && LastInitial(p, i, j, c) && p[i].branch == was + {Branch(p[c].pid, 0)}
    && forall m :: IsInitial(p, i, j, m) ==> Branch(p[m].pid, 0) !in was && p[m].pid !in SleepSetAt(p, i)
  }

  ghost predicate OneAdded(was: set<Branch>, p: seq<Event>, i: int, j: int)
    requires 0 <= i < j < |p|
  {
    exists c :: AddedFor(was, p, i, j, c)
  }

  /** At each event before `j` at most one branch has been added. */
  ghost predicate OneEach(start: seq<Event>, p: seq<Event>, j: int) {
    0 <= j < |p| <= |start| && forall i :: 0 <= i < j ==> p[i].branch == start[i].branch || OneAdded(start[i].branch, p, i, j)
  }

  lemma AddedStays(was: set<Branch>, p: seq<Event>, i: int, j: int, q: seq<Event>)
    requires SameButBranches(p, q) && 0 <= i < j < |p| && q[i] == p[i] && OneAdded(was, p, i, j)
    ensures OneAdded(was, q, i, j)
  {
    var c :| AddedFor(was, p, i, j, c);
    forall m | IsInitial(q, i, j, m)
      ensures IsInitial(p, i, j, m)
    {
      SameInitials(p, q, i, j, m);
    }
    LastStays(p, q, i, j, c);
    BranchesDoNotSleep(p, q, i);
    assert AddedFor(was, q, i, j, c);
  }

  lemma LastStays(p: seq<Event>, q: seq<Event>, i: int, j: int, c: int)
    requires SameButBranches(p, q) && 0 <= i < j < |p| && LastInitial(p, i, j, c)
    ensures LastInitial(q, i, j, c)
  {
    SameInitials(p, q, i, j, c);
    forall m | c < m <= j
      ensures !IsInitial(q, i, j, m)
    {
      SameInitials(p, q, i, j, m);
    }
  }

  lemma NewlyAdded(p: seq<Event>, i: int, j: int, q: seq<Event>)
    requires 0 <= i < j < |p| && ReversesRace(p, i, j, q) && !RaceCovered(p, i, j)
    ensures OneAdded(p[i].branch, q, i, j)
  {
    var c :| AddsLastInitial(p, i, j, c, q);
    forall m | IsInitial(q, i, j, m)
      ensures IsInitial(p, i, j, m) && !Considered(p, i, m)
    {
      SameInitials(p, q, i, j, m);
    }
    LastStays(p, q, i, j, c);
    BranchesDoNotSleep(p, q, i);
    assert AddedFor(p[i].branch, q, i, j, c);
  }

  lemma AddedIsCovered(was: set<Branch>, p: seq<Event>, i: int, j: int)
    requires 0 <= i < j < |p| && OneAdded(was, p, i, j)
    ensures RaceCovered(p, i, j)
  {
    var c :| AddedFor(was, p, i, j, c);
    assert IsInitial(p, i, j, c) && Considered(p, i, c);
  }

  lemma StillOneEach(start: seq<Event>, p: seq<Event>, i: int, j: int, q: seq<Event>)
    requires OneEach(start, p, j) && 0 <= i < j && ReversesRace(p, i, j, q)
    ensures OneEach(start, q, j)
  {
    if !RaceCovered(p, i, j) {
      NewlyAdded(p, i, j, q);
      if p[i].branch != start[i].branch { AddedIsCovered(start[i].branch, p, i, j); }
      forall k | 0 <= k < j && k != i
        ensures q[k].branch == start[k].branch || OneAdded(start[k].branch, q, k, j)
      {
        if p[k].branch != start[k].branch { AddedStays(start[k].branch, p, k, j, q); }
      }
    }
  }

  lemma NextOneEach(start: seq<Event>, mid: seq<Event>, pre: seq<Event>, i: int, idx: int, q: seq<Event>, post: seq<Event>)
    requires 0 <= i < idx < |mid| && BranchAdded(mid, q, idx, i, idx) && pre == mid[..idx + 1] && post == q[..idx + 1]
    requires OneEach(start, pre, idx)
    ensures OneEach(start, post, idx)
  {
    StillOneEach(start, pre, i, idx, post);
  }

  lemma OneMoreReversed(start: seq<Event>, mid: seq<Event>, pre: seq<Event>, q: seq<Event>, post: seq<Event>, idx: int, races: seq<int>, n: int)
    requires 0 <= n < |races| && 0 <= races[n] < idx < |mid| && BranchAdded(mid, q, idx, races[n], idx) && OnlyBranches(start, mid, races)
    requires pre == mid[..idx + 1] && post == q[..idx + 1] && AllCovered(pre, races, n)
    requires ClocksValid(pre) && mid[races[n]].pid != mid[idx].pid
    ensures AllCovered(post, races, n + 1) && OnlyBranches(start, q, races)
  {
    AllCoveredStays(pre, post, races, n);
    OnlyOneChanges(mid, q, idx, races, n);
    OnlyBranchesTrans(start, mid, q, races);
  }

  lemma OnlyOneChanges(p: seq<Event>, q: seq<Event>, idx: int, races: seq<int>, n: int)
    requires 0 <= n < |races| && 0 <= races[n] < idx < |p| && SameButBranches(p, q)
    requires ReversesRace(p[..idx + 1], races[n], idx, q[..idx + 1]) && p[idx + 1..] == q[idx + 1..]
    requires ClocksValid(p[..idx + 1]) && p[races[n]].pid != p[idx].pid
    ensures OnlyBranches(p, q, races)
  {
    var a, b := p[..idx + 1], q[..idx + 1];
    AddedFits(p, q, idx, races[n], idx);
    if !RaceCovered(a, races[n], idx) {
      var k :| AddsLastInitial(a, races[n], idx, k, b);
    }
    SameTail(p, q, idx + 1);
    assert forall k :: 0 <= k <= idx ==> a[k] == p[k] && b[k] == q[k];
  }

  predicate AllBelow(seen: seq<int>, n: int) {
    forall k :: 0 <= k < |seen| ==> seen[k] < n
  }

  /** Event `i` races with the last event: seen, not before it, and not below another seen event. */
  predicate IsRace(prefix: seq<Event>, seen: seq<int>, i: int)
    requires |prefix| > 0 && AllBelow(seen, |prefix|)
  {
    i in seen && 0 <= i && !Leq(prefix[i].clock, prefix[|prefix| - 1].clock) && !IsBelowSeen(prefix, seen, i)
  }

  predicate IsBelowSeen(prefix: seq<Event>, seen: seq<int>, i: int)
    requires 0 <= i < |prefix| && AllBelow(seen, |prefix|)
  {
    exists n :: 0 <= n < |seen| && 0 <= seen[n] && seen[n] != i && Leq(prefix[i].clock, prefix[seen[n]].clock)
  }

  /** The first loop of `see_events`. */
  method Races(prefix: seq<Event>, seen: seq<int>) returns (races: seq<int>)
    requires |prefix| > 0 && AllBelow(seen, |prefix|)
    ensures forall i :: i in races <==> IsRace(prefix, seen, i)
    ensures forall n :: 0 <= n < |races| ==> 0 <= races[n] < |prefix| - 1
  {
    races := [];
    for n := 0 to |seen|
      invariant forall i :: i in races <==> i in seen[..n] && IsRace(prefix, seen, i)
      invariant forall m :: 0 <= m < |races| ==> 0 <= races[m] < |prefix| - 1
    {
      var i := seen[n];
      assert seen[..n + 1] == seen[..n] + [i];
      if 0 <= i {
        LeqIsPointwise(prefix[|prefix| - 1].clock, prefix[|prefix| - 1].clock);
        if !Leq(prefix[i].clock, prefix[|prefix| - 1].clock) && !IsBelowSeen(prefix, seen, i) {
          races := races + [i];
        }
      }
    }
    assert seen[..|seen|] == seen;
  }

  /** Races do not happen before the current event, nor one before another. */
  lemma RacesAreMaximal(prefix: seq<Event>, seen: seq<int>)
    requires |prefix| > 0 && AllBelow(seen, |prefix|)
    ensures forall i :: IsRace(prefix, seen, i) ==> i in seen && 0 <= i && !Leq(prefix[i].clock, prefix[|prefix| - 1].clock)
    ensures forall i, j :: IsRace(prefix, seen, i) && IsRace(prefix, seen, j) && i != j ==> !Leq(prefix[i].clock, prefix[j].clock)
  {
    forall i, j | IsRace(prefix, seen, i) && IsRace(prefix, seen, j) && i != j
      ensures !Leq(prefix[i].clock, prefix[j].clock)
    {
      var n :| 0 <= n < |seen| && seen[n] == j;
      assert !IsBelowSeen(prefix, seen, i);
    }
  }

  /** Whatever is seen happens before the current event already, or is below a race. */
  lemma {:induction false} SeenIsBelowRace(prefix: seq<Event>, seen: seq<int>, i: int) returns (r: int)
    requires ClocksValid(prefix) && |prefix| > 0 && AllBelow(seen, |prefix|)
    requires i in seen && 0 <= i && !Leq(prefix[i].clock, prefix[|prefix| - 1].clock)
    ensures IsRace(prefix, seen, r) && Leq(prefix[i].clock, prefix[r].clock)
    decreases |prefix| - i
  {
    LeqIsPointwise(prefix[i].clock, prefix[i].clock);
    if IsBelowSeen(prefix, seen, i) {
      var n :| 0 <= n < |seen| && 0 <= seen[n] && seen[n] != i && Leq(prefix[i].clock, prefix[seen[n]].clock);
      AfterIsLeq(prefix, seen[n], i);
      if Leq(prefix[seen[n]].clock, prefix[|prefix| - 1].clock) {
        LeqTrans(prefix[i].clock, prefix[seen[n]].clock, prefix[|prefix| - 1].clock);
      }
      r := SeenIsBelowRace(prefix, seen, seen[n]);
      LeqTrans(prefix[i].clock, prefix[seen[n]].clock, prefix[r].clock);
    } else {
      r := i;
    }
  }

  function AddBranchAt(prefix: seq<Event>, i: int, pid: int): seq<Event>
    requires 0 <= i < |prefix|
  {
    prefix[i := prefix[i].(branch := prefix[i].branch + {Branch(pid, 0)})]
  }

  /** The one insertion that `add_branch` makes. */
  ghost predicate AddsLastInitial(p: seq<Event>, i: int, j: int, k: int, q: seq<Event>)
    requires 0 <= i < j < |p|
  {
    LastInitial(p, i, j, k) && !Considered(p, i, k) && q == AddBranchAt(p, i, p[k].pid)
  }

  /** The effect of `add_branch` on the executed events. */
  ghost predicate ReversesRace(p: seq<Event>, i: int, j: int, q: seq<Event>)
    requires 0 <= i < j < |p|
  {
    && SameButBranches(p, q) && RaceCovered(q, i, j)
    && (forall k :: 0 <= k < |p| ==> p[k].branch <= q[k].branch)
    && (if RaceCovered(p, i, j) then q == p else exists k :: AddsLastInitial(p, i, j, k, q))
  }

  /** A new branch is for a thread that neither runs nor sleeps at event `i`, as the scheduler demands. */
  lemma BranchIsForOther(p: seq<Event>, i: int, j: int, k: int, q: seq<Event>)
    requires ClocksValid(p) && 0 <= i < j < |p| && AddsLastInitial(p, i, j, k, q) && p[i].pid != p[j].pid
    ensures p[k].pid != p[i].pid && p[k].pid !in SleepSetAt(p, i)
    ensures q == p[i := p[i].(branch := p[i].branch + {Branch(p[k].pid, 0)})]
  {
    if p[k].pid == p[i].pid {
      ProgramOrder(p, k, i);
    }
  }

  /** Races are between different threads. */
  lemma RaceIsBetweenThreads(p: seq<Event>, seen: seq<int>, i: int)
    requires ClocksValid(p) && |p| > 0 && AllBelow(seen, |p|) && 0 <= i < |p| && IsRace(p, seen, i)
    ensures p[i].pid != p[|p| - 1].pid
  {
    if p[i].pid == p[|p| - 1].pid {
      ProgramOrder(p, |p| - 1, i);
      AfterIsLeq(p, |p| - 1, i);
    }
  }

  lemma CoveredIsReversed(p: seq<Event>, i: int, j: int)
    requires 0 <= i < j < |p| && RaceCovered(p, i, j)
    ensures ReversesRace(p, i, j, p)
  {
  }

  lemma SameInitials(p: seq<Event>, q: seq<Event>, i: int, j: int, k: int)
    requires SameButBranches(p, q) && 0 <= i < j < |p|
    ensures IsInitial(p, i, j, k) <==> IsInitial(q, i, j, k)
  {
    assert forall x, y :: 0 <= x < |p| && 0 <= y < |p| ==> (After(p, x, y) <==> After(q, x, y));
    assert forall m :: NotDep(p, i, j, m) <==> NotDep(q, i, j, m);
  }

  /** More branches do not undo what is covered. */
  lemma CoveredStays(p: seq<Event>, q: seq<Event>, i: int, j: int)
    requires SameButBranches(p, q) && 0 <= i < j < |p| && p[i].branch <= q[i].branch && RaceCovered(p, i, j)
    ensures RaceCovered(q, i, j)
  {
    var k :| IsInitial(p, i, j, k) && Considered(p, i, k);
    SameInitials(p, q, i, j, k);
    BranchesDoNotSleep(p, q, i);
    assert Considered(q, i, k);
  }

  lemma BranchesKeepThreads(p: seq<Event>, q: seq<Event>, clocks: seq<VClock>)
    requires SameButBranches(p, q) && ThreadsValid(p, clocks)
    ensures ThreadsValid(q, clocks)
  {
    BranchesKeepClocks(p, q);
    forall c | GoodClock(p, clocks, c)
      ensures GoodClock(q, clocks, c)
    {
    }
  }

  lemma InsertReverses(p: seq<Event>, i: int, j: int, k: int)
    requires 0 <= i < j < |p| && LastInitial(p, i, j, k) && !Considered(p, i, k) && !RaceCovered(p, i, j)
    ensures ReversesRace(p, i, j, AddBranchAt(p, i, p[k].pid))
  {
    var q := AddBranchAt(p, i, p[k].pid);
    SameInitials(p, q, i, j, k);
    assert Considered(q, i, k);
    assert AddsLastInitial(p, i, j, k, q);
  }

  lemma FoundKeepsValid(p: seq<Event>, idx: int, clocks: seq<VClock>, i: int, j: int, k: int, cand: int)
    requires 0 <= i < j <= idx < |p| && ThreadsValid(p[..idx + 1], clocks)
    requires FoundBranch(p[..idx + 1], i, j, k, cand) && !RaceCovered(p[..idx + 1], i, j)
    ensures BranchAdded(p, AddBranchAt(p, i, cand), idx, i, j)
    ensures ThreadsValid(AddBranchAt(p, i, cand)[..idx + 1], clocks)
    ensures ThreadAtLast(p[..idx + 1], clocks) ==> ThreadAtLast(AddBranchAt(p, i, cand)[..idx + 1], clocks)
  {
    var pre := p[..idx + 1];
    InsertedAmong(p, idx + 1, i, cand);
    InsertReverses(pre, i, j, k);
    BranchesKeepThreads(pre, AddBranchAt(pre, i, cand), clocks);
  }

  lemma InsertedAmong(p: seq<Event>, n: int, i: int, pid: int)
    requires 0 <= i < n <= |p|
    ensures var q := AddBranchAt(p, i, pid); q[..n] == AddBranchAt(p[..n], i, pid) && q[n..] == p[n..] && SameButBranches(p, q)
  {
  }

  ghost predicate FoundBranch(p: seq<Event>, i: int, j: int, k: int, cand: int)
    requires 0 <= i < j < |p|
  {
    LastInitial(p, i, j, k) && cand == p[k].pid && !Considered(p, i, k)
  }

  /** Before event `k`, the last initial is `last`, or there is none and `last` is -1. */
  ghost predicate LastBefore(prefix: seq<Event>, i: int, j: int, k: int, last: int)
    requires 0 <= i < j < |prefix|
  {
    && (last == -1 || (last < k && IsInitial(prefix, i, j, last)))
    && forall m :: last < m < k ==> !IsInitial(prefix, i, j, m)
  }

  ghost predicate NoneConsidered(prefix: seq<Event>, i: int, j: int, k: int)
    requires 0 <= i < j < |prefix|
  {
    forall m :: m < k && IsInitial(prefix, i, j, m) ==> !Considered(prefix, i, m)
  }

  method IsConsidered(prefix: seq<Event>, i: int, k: int, isleep: set<int>) returns (r: bool)
    requires 0 <= i < |prefix| && 0 <= k < |prefix| && isleep == SleepSetAt(prefix, i)
    ensures r <==> Considered(prefix, i, k)
  {
    r := Branch(prefix[k].pid, 0) in prefix[i].branch || prefix[k].pid in isleep;
  }

  method TryCandidate(prefix: seq<Event>, i: int, j: int, k: int, candidates: seq<int>)
    returns (ok: bool, r: seq<int>)
    requires ClocksValid(prefix) && 0 <= i < k <= j < |prefix| && CandidatesAre(prefix, i, j, k, candidates)
    ensures ok <==> IsInitial(prefix, i, j, k)
    ensures CandidatesAre(prefix, i, j, k + 1, r)
  {
    ok := IsCandidate(prefix, i, j, k, candidates);
    if ok {
      r := Record(prefix, i, j, k, candidates);
    } else {
      SkipCandidate(prefix, i, j, k, candidates);
      r := candidates;
    }
  }

  /** The loop of `add_branch`: the thread to insert, or -1 when a candidate is considered already. */
  method FindBranch(prefix: seq<Event>, i: int, j: int) returns (cand: int)
    requires ClocksValid(prefix) && 0 <= i < j < |prefix|
    ensures cand == -1 ==> RaceCovered(prefix, i, j)
    ensures cand != -1 ==> !RaceCovered(prefix, i, j)
    ensures cand != -1 ==> exists k :: FoundBranch(prefix, i, j, k, cand)
  {
    var isleep := ComputeSleepSetAt(prefix, i);
    var candidates: seq<int> := [];
    cand := -1;
    ghost var last: int := -1;
    SearchStarts(prefix, i, j);
    for k := i + 1 to j + 1
      invariant Searched(prefix, i, j, k, candidates, cand, last)
    {
      var covered;
      covered, candidates, cand, last := Advance(prefix, i, j, k, isleep, candidates, cand, last);
      if covered {
        return -1;
      }
    }
    SearchEnds(prefix, i, j, last);
  }

  ghost predicate Searched(prefix: seq<Event>, i: int, j: int, k: int, candidates: seq<int>, cand: int, last: int)
    requires 0 <= i < j < |prefix|
  {
    && CandidatesAre(prefix, i, j, k, candidates)
    && LastBefore(prefix, i, j, k, last) && NoneConsidered(prefix, i, j, k)
    && cand == if last == -1 then -1 else prefix[last].pid
  }

  /** The loop body of `add_branch`. */
  method Advance(prefix: seq<Event>, i: int, j: int, k: int, isleep: set<int>, candidates: seq<int>, cand: int, ghost last: int)
    returns (covered: bool, candidates': seq<int>, cand': int, ghost last': int)
    requires ClocksValid(prefix) && 0 <= i < k <= j < |prefix| && isleep == SleepSetAt(prefix, i)
    requires Searched(prefix, i, j, k, candidates, cand, last)
    ensures covered ==> RaceCovered(prefix, i, j)
    ensures !covered ==> Searched(prefix, i, j, k + 1, candidates', cand', last')
  {
    SearchNext(prefix, i, j, k, last);
    var ok;
    ok, candidates' := TryCandidate(prefix, i, j, k, candidates);
    covered, cand', last' := false, cand, last;
    if ok {
      cand', last' := prefix[k].pid, k;
      covered := IsConsidered(prefix, i, k, isleep);
    }
  }

  lemma SearchStarts(prefix: seq<Event>, i: int, j: int)
    requires 0 <= i < j < |prefix|
    ensures LastBefore(prefix, i, j, i + 1, -1) && NoneConsidered(prefix, i, j, i + 1)
    ensures CandidatesAre(prefix, i, j, i + 1, [])
  {
  }

  lemma SearchNext(prefix: seq<Event>, i: int, j: int, k: int, last: int)
    requires 0 <= i < k <= j < |prefix| && LastBefore(prefix, i, j, k, last) && NoneConsidered(prefix, i, j, k)
    ensures IsInitial(prefix, i, j, k) ==> LastBefore(prefix, i, j, k + 1, k)
    ensures IsInitial(prefix, i, j, k) && Considered(prefix, i, k) ==> RaceCovered(prefix, i, j)
    ensures IsInitial(prefix, i, j, k) && !Considered(prefix, i, k) ==> NoneConsidered(prefix, i, j, k + 1)
    ensures !IsInitial(prefix, i, j, k) ==> LastBefore(prefix, i, j, k + 1, last) && NoneConsidered(prefix, i, j, k + 1)
  {
  }

  lemma SearchEnds(prefix: seq<Event>, i: int, j: int, last: int)
    requires ClocksValid(prefix) && 0 <= i < j < |prefix|
    requires LastBefore(prefix, i, j, j + 1, last) && NoneConsidered(prefix, i, j, j + 1)
    ensures last != -1 && FoundBranch(prefix, i, j, last, prefix[last].pid)
    ensures !RaceCovered(prefix, i, j)
  {
    var first := InitialBelow(prefix, i, j, j);
  }

  lemma SkipCandidate(prefix: seq<Event>, i: int, j: int, k: int, candidates: seq<int>)
    requires 0 <= i < k <= j < |prefix| && CandidatesAre(prefix, i, j, k, candidates) && !IsInitial(prefix, i, j, k)
    ensures CandidatesAre(prefix, i, j, k + 1, candidates)
  {
    var n := k + 1;
    forall q | 0 <= q < |candidates| && candidates[q] >= 0
      ensures exists m :: CandidateOf(prefix, i, j, n, q, candidates[q], m)
    {
      var m :| CandidateOf(prefix, i, j, k, q, candidates[q], m);
      assert CandidateOf(prefix, i, j, n, q, candidates[q], m);
    }
  }

  // ----- Merged events in a replay -----------------------------------------------------------------------

  function Plain(pid: nat, index: nat, size: nat, clock: VClock): Event {
    Event(pid, index, size, 0, clock, true, {}, [], {})
  }

  /** Event 2 of thread 0 is a load, the spawning of thread 2, and a join with thread 1, merged before the replay. */
  function MergedTrace(): seq<Event> {
    [Plain(0, 1, 1, [1]), Plain(1, 1, 1, [1, 1]), Plain(0, 2, 3, [2])]
  }

  /** The clocks of the threads at the third step: thread 2 has been spawned at the second. */
  function MergedClocks(): seq<VClock> {
    [[4], [1, 1], [3]]
  }

  /** The trace after the join, and after the first step of the spawned thread. */
  function JoinedTrace(): seq<Event> {
    See(MergedTrace(), [1, 1]) + [Plain(2, 1, 1, Set(MergedClocks()[2], 2, 1))]
  }

  lemma SeesSpawn(p: seq<Event>, c: VClock)
    requires |p| == 3 && p[0] == Plain(0, 1, 1, [1]) && p[1] == Plain(1, 1, 1, [1, 1]) && p[2] == Plain(0, 2, 3, [2])
    requires At(c, 0) >= 1
    ensures ClosedClock(p, c)
  {
  }

  lemma MergedClocksAreClosed(p: seq<Event>)
    requires |p| == 3 && p[0] == Plain(0, 1, 1, [1]) && p[1] == Plain(1, 1, 1, [1, 1]) && p[2] == Plain(0, 2, 3, [2])
    ensures ClosedClock(p, [1]) && ClosedClock(p, [1, 1]) && ClosedClock(p, [2]) && ClosedClock(p, [3]) && ClosedClock(p, [4])
    ensures ClocksValid(p)
  {
    SeesSpawn(p, [1]);
    SeesSpawn(p, [1, 1]);
    SeesSpawn(p, [2]);
    SeesSpawn(p, [3]);
    SeesSpawn(p, [4]);
  }

  lemma MergedIsValid(p: seq<Event>, clocks: seq<VClock>)
    requires p == MergedTrace() && clocks == MergedClocks()
    ensures ThreadsValid(p, clocks) && ThreadIsAtLast(p, clocks) && Bounded([1, 1], clocks)
  {
    MergedClocksAreClosed(p);
    assert Leq([2], [4]);
    assert Bounded([1], clocks) && Bounded([1, 1], clocks) && Bounded([2], clocks) && Bounded([3], clocks) && Bounded([4], clocks);
  }

  /** The event right after event `i` is the only candidate, whatever the clocks are. */
  lemma NextIsLastInitial(p: seq<Event>, i: int)
    requires 0 <= i < i + 1 < |p| && !Considered(p, i, i + 1)
    ensures AddsLastInitial(p, i, i + 1, i + 1, AddBranchAt(p, i, p[i + 1].pid))
  {
    assert IsInitial(p, i, i + 1, i + 1);
  }

  lemma JoinIsNews()
    ensures CanSee(MergedTrace(), MergedClocks(), [1, 1]) && !KnownToSeers(MergedTrace(), MergedClocks(), [1, 1])
  {
    var p, clocks, c: VClock := MergedTrace(), MergedClocks(), [1, 1];
    MergedIsValid(p, clocks);
    MergedClocksAreClosed(p);
    assert At(clocks[2], 0) >= p[2].index && At(clocks[2], 1) < c[1];
  }

  lemma SpawnedAfterBoth(q: seq<Event>)
    requires q == JoinedTrace()
    ensures |q| == 4 && q[2] == Plain(0, 2, 3, Join([2], [1, 1])) && q[3].pid == 2
    ensures After(q, 3, 2) && !Leq(q[2].clock, q[3].clock)
  {
    assert At(q[2].clock, 0) == 2 && At(q[2].clock, 1) == 1 && At(q[3].clock, 1) == 0 && At(q[3].clock, 0) == 3;
    LeqIsPointwise(q[2].clock, q[3].clock);
  }

  /**
   * The join is a clock that thread 2 does not know.  The next access of thread 2 to the same byte then passes
   * for a race with event 2, which spawned it, and thread 2 is to be tried in place of event 2.
   */
  lemma MergedEventExample()
    ensures CanSee(MergedTrace(), MergedClocks(), [1, 1]) && !KnownToSeers(MergedTrace(), MergedClocks(), [1, 1])
    ensures After(JoinedTrace(), 3, 2) && IsRace(JoinedTrace(), [2], 2)
    ensures AddsLastInitial(JoinedTrace(), 2, 3, 3, AddBranchAt(JoinedTrace(), 2, 2))
  {
    JoinIsNews();
    var q := JoinedTrace();
    SpawnedAfterBoth(q);
    SleepsNobody(q);
    NextIsLastInitial(q, 2);
  }

  lemma SleepsNobody(q: seq<Event>)
    requires q == JoinedTrace()
    ensures SleepSetAt(q, 2) == {}
  {
    assert |q| == 4 && forall k :: 0 <= k < 4 ==> q[k].sleep == [];
    assert SleepSetAt(q, 0) == {} && SleepSetAt(q, 1) == {};
  }
}
