/**
 * `PSOTraceBuilder` as one object: `RaceReversal` has its clocks, `SleepSets` its scheduling, and both have the
 * events.  What one of them asks of a call is what the other one guarantees.
 */
module PSOTraces {
  import opened TraceEvents
  import opened RaceReversal
  import SleepSets

  /** `threads[p].clock[p]` */
  function Steps(clocks: seq<VClock>, p: int): nat {
    if 0 <= p < |clocks| then At(clocks[p], p) else 0
  }

  /** Both count the same steps. */
  ghost predicate Agree(m: SleepSets.Moment, clocks: seq<VClock>) {
    forall p {:trigger m.StepsOf(p)} :: m.StepsOf(p) == Steps(clocks, p)
  }

  /** Once the current event is done, the next one of the prefix may start. */
  lemma NextEventFits(m: SleepSets.Moment, clocks: seq<VClock>)
    requires m.Inv() && m.CurrentDone() && m.prefixIdx + 1 < |m.prefix| && Agree(m, clocks)
    ensures var e := m.prefix[m.prefixIdx + 1]; e.index == Steps(clocks, e.pid) + 1
  {
    SleepSets.DoneMeansAll(m);
    var k := m.prefixIdx + 1;
    assert SleepSets.EventValid(m.prefix, k) && m.StepsOf(m.prefix[k].pid) == Steps(clocks, m.prefix[k].pid);
  }

  /** The current event has more steps according to the one iff it has according to the other. */
  lemma SameProgress(m: SleepSets.Moment, clocks: seq<VClock>)
    requires m.Inv() && m.prefixIdx >= 0 && Agree(m, clocks)
    ensures var e := m.prefix[m.prefixIdx];
      (m.Progress() < e.size <==> Steps(clocks, e.pid) < e.index + e.size - 1) && Steps(clocks, e.pid) >= e.index
  {
    assert m.StepsOf(m.prefix[m.prefixIdx].pid) == Steps(clocks, m.prefix[m.prefixIdx].pid);
  }

  /** What `SleepSets.Scheduler.InsertBranch` asks for. */
  ghost predicate MayInsert(p: seq<Event>, i: int, pid: int) {
    0 <= i < |p| && p[i].mayConflict && pid >= 0 && pid != p[i].pid && pid !in SleepSetAt(p, i)
  }

  /** `RaceReversal.TraceBuilder.AddBranch` either changes nothing or makes one insertion that is allowed. */
  lemma AddBranchMayInsert(p: seq<Event>, idx: int, i: int, j: int, q: seq<Event>)
    requires 0 <= i < j <= idx < |p| && ClocksValid(p[..idx + 1]) && p[i].mayConflict && p[i].pid != p[j].pid
    requires BranchAdded(p, q, idx, i, j)
    ensures q == p || exists pid :: MayInsert(p, i, pid) && q == AddBranchAt(p, i, pid)
  {
    var a, b := p[..idx + 1], q[..idx + 1];
    SameTail(p, q, idx + 1);
    assert forall k :: 0 <= k <= idx ==> a[k] == p[k] && b[k] == q[k];
    if RaceCovered(a, i, j) {
      assert q == p;
    } else {
      var k :| AddsLastInitial(a, i, j, k, b);
      BranchIsForOther(a, i, j, k, b);
      SleepOfPrefix(p, idx + 1, i);
      assert MayInsert(p, i, a[k].pid) && q == AddBranchAt(p, i, a[k].pid);
    }
  }

  lemma {:induction false} RecordsDoNotSleep(p: seq<Event>, q: seq<Event>, idx: int, k: int)
    requires OnlyRecords(p, q, idx) && 0 <= k < |p|
    ensures SleepSetAt(q, k) == SleepSetAt(p, k)
    decreases k
  {
    if k > 0 {
      RecordsDoNotSleep(p, q, idx, k - 1);
    }
    assert q[k].sleep == p[k].sleep && (k > 0 ==> q[k - 1].wakeup == p[k - 1].wakeup);
  }

  lemma RecordsKeepEvent(p: seq<Event>, q: seq<Event>, idx: int, k: int)
    requires OnlyRecords(p, q, idx) && NewBranchesFit(p, q) && 0 <= k < |p| && SleepSets.EventValid(p, k)
    requires q[k].branch == p[k].branch || p[k].mayConflict
    ensures SleepSets.EventValid(q, k)
  {
    assert forall j :: 0 <= j < |p| ==> q[j].pid == p[j].pid && q[j].size == p[j].size;
    SleepSets.StepsIgnoreWakeups(p, q, k);
    RecordsDoNotSleep(p, q, idx, k);
    forall b | b in q[k].branch
      ensures b.alt == 0 && b.pid >= 0 && b.pid != q[k].pid && b.pid !in SleepSetAt(q, k)
    {
      assert b !in p[k].branch ==> Fits(p, k, b);
    }
  }

  /** Branches that fit, at events that may conflict, and new clocks leave the scheduler's invariant as it is. */
  lemma RecordsKeepInv(m: SleepSets.Moment, q: seq<Event>)
    requires m.Inv() && OnlyRecords(m.prefix, q, m.prefixIdx) && NewBranchesFit(m.prefix, q)
    requires forall k :: 0 <= k < |q| ==> q[k].branch == m.prefix[k].branch || m.prefix[k].mayConflict
    ensures m.(prefix := q).Inv() && (SleepSets.Merged(m.prefix) ==> SleepSets.Merged(q))
  {
    var n := m.(prefix := q);
    assert forall k :: 0 <= k < |q| ==> q[k] == m.prefix[k].(branch := q[k].branch, clock := q[k].clock);
    forall k | 0 <= k < |q|
      ensures SleepSets.EventValid(q, k)
    {
      assert SleepSets.EventValid(m.prefix, k);
      RecordsKeepEvent(m.prefix, q, m.prefixIdx, k);
    }
    RecordsDoNotSleep(m.prefix, q, m.prefixIdx, m.prefixIdx);
    assert forall p :: n.StepsOf(p) == m.StepsOf(p);
    SleepSets.StepsIgnoreWakeups(m.prefix, q, m.prefixIdx);
    if SleepSets.Merged(m.prefix) { RecordsKeepMerged(m.prefix, q, m.prefixIdx); }
  }

  lemma RecordsKeepMerged(p: seq<Event>, q: seq<Event>, idx: int)
    requires OnlyRecords(p, q, idx) && SleepSets.Merged(p)
    ensures SleepSets.Merged(q)
  {
    forall k | 0 < k < |q| && (k < |q| - 1 || q[k].size > 1)
      ensures !SleepSets.CouldMerge(q, k)
    {
      assert !SleepSets.CouldMerge(p, k);
    }
  }

  /** Does `TraceBuilder.SeeEvents` keep the scheduler's invariant?  Yes, if what is seen may conflict. */
  lemma SeeEventsKeepsInv(m: SleepSets.Moment, q: seq<Event>, seen: seq<int>)
    requires m.Inv() && m.prefixIdx >= 0 && AllBelow(seen, m.prefixIdx + 1)
    requires forall n :: 0 <= n < |seen| && 0 <= seen[n] ==> m.prefix[seen[n]].mayConflict
    requires OnlyRecords(m.prefix, q, m.prefixIdx) && NewBranchesFit(m.prefix, q)
    requires forall k :: 0 <= k < m.prefixIdx ==> IsRace(m.prefix[..m.prefixIdx + 1], seen, k) || q[k] == m.prefix[k]
    ensures m.(prefix := q).Inv() && (SleepSets.Merged(m.prefix) ==> SleepSets.Merged(q))
  {
    RecordsKeepInv(m, q);
  }
}
