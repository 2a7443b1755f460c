/**
 * One execution of the program under `PSOTraceBuilder`, step by step, up to the trace that `has_cycle` reads.
 * What `ScReplay` takes for granted about that trace holds after every run.
 */
module PSOTraceRuns {
  import opened TraceEvents
  import opened RaceReversal
  import opened PSOTraces
  import SleepSets
  import ScReplay

  /** A thread of process `proc`, or one of its auxiliary threads. */
  datatype Thread = Thread(proc: nat, aux: bool)

  /** A store of process `proc`, with the clock of its thread at that step. */
  datatype Store = Store(proc: nat, clock: VClock)

  /**
   * `log` are the stores of this execution, `pending` those still in a buffer.  Event `k` has updated memory with
   * store `source[k]`, or with none if that is -1.  `stored`: the current step has issued its store.
   */
  datatype State = State(
    m: SleepSets.Moment, clocks: seq<VClock>, threads: seq<Thread>, ipid: seq<nat>,
    log: seq<Store>, pending: set<nat>, source: seq<int>, stored: bool)
  {
    function Pid(): nat
      requires 0 <= m.prefixIdx < |m.prefix|
    {
      m.prefix[m.prefixIdx].pid
    }

    /** The current event, if any, is one of an existing thread. */
    predicate Shape() {
      && -1 <= m.prefixIdx < |m.prefix| && |source| == m.prefixIdx + 1 && |clocks| == |threads|
      && (m.prefixIdx >= 0 ==> Pid() < |threads|)
    }

    ghost predicate Inv() {
      && Shape() && m.Inv() && Agree(m, clocks)
      && TableValid(threads, ipid) && AllBounded(clocks)
      && EventsValid(m.prefix, m.prefixIdx + 1, |threads|)
      && LogValid(log, ipid, clocks)
      && SourcesValid(m.prefix, source, threads, ipid, log, pending)
      && (!stored && m.prefixIdx >= 0 ==> NotStored(log, ipid, Pid(), Steps(clocks, Pid())))
    }

    /** The current event, if of an auxiliary thread, has updated memory. */
    predicate Performed()
      requires Shape()
    {
      m.prefixIdx >= 0 && threads[Pid()].aux ==> source[m.prefixIdx] >= 0
    }
  }

  // ----- The invariant -----------------------------------------------------------------------------------

  predicate TableValid(threads: seq<Thread>, ipid: seq<nat>) {
    && |ipid| > 0
    && (forall i :: 0 <= i < |ipid| ==> ipid[i] < |threads| && threads[ipid[i]] == Thread(i, false))
    && (forall p :: 0 <= p < |threads| ==> threads[p].proc < |ipid| && (!threads[p].aux ==> ipid[threads[p].proc] == p))
  }

  ghost predicate AllBounded(clocks: seq<VClock>) {
    forall p {:trigger Bounded(clocks[p], clocks)} :: 0 <= p < |clocks| ==> Bounded(clocks[p], clocks)
  }

  /** Event `k` has seen itself, and of other threads only steps of earlier events. */
  predicate EventFits(p: seq<Event>, k: int, threads: nat)
    requires 0 <= k < |p|
  {
    && p[k].pid < threads && At(p[k].clock, p[k].pid) == p[k].index
    && forall t :: 0 <= t < |p[k].clock| && t != p[k].pid ==> p[k].clock[t] <= SleepSets.StepsBefore(p, k, t)
  }

  predicate EventsValid(p: seq<Event>, n: int, threads: nat)
    requires 0 <= n <= |p|
  {
    forall k {:trigger EventFits(p, k, threads)} :: 0 <= k < n ==> EventFits(p, k, threads)
  }

  /** The number of the step that is the store. */
  function StepOf(s: Store, ipid: seq<nat>): nat
    requires s.proc < |ipid|
  {
    At(s.clock, ipid[s.proc])
  }

  ghost predicate LogValid(log: seq<Store>, ipid: seq<nat>, clocks: seq<VClock>) {
    && (forall i {:trigger Bounded(log[i].clock, clocks)} ::
          0 <= i < |log| ==> log[i].proc < |ipid| && StepOf(log[i], ipid) >= 1 && Bounded(log[i].clock, clocks))
    && Ordered(log, ipid)
  }

  /** Later stores of a process are later steps. */
  ghost predicate Ordered(log: seq<Store>, ipid: seq<nat>) {
    forall i, j :: 0 <= i < j < |log| && log[i].proc == log[j].proc && log[i].proc < |ipid| ==>
      StepOf(log[i], ipid) < StepOf(log[j], ipid)
  }

  ghost predicate NotStored(log: seq<Store>, ipid: seq<nat>, p: int, n: nat) {
    forall i :: 0 <= i < |log| && log[i].proc < |ipid| && ipid[log[i].proc] == p ==> StepOf(log[i], ipid) < n
  }

  /** Event `k` updates memory with a store that it has seen. */
  predicate SourceValid(e: Event, src: int, threads: seq<Thread>, ipid: seq<nat>, log: seq<Store>) {
    && src < |log| && e.pid < |threads|
    && (src >= 0 ==>
          && log[src].proc < |ipid| && threads[e.pid] == Thread(log[src].proc, true) && e.mayConflict
          && StepOf(log[src], ipid) <= At(e.clock, ipid[log[src].proc]))
  }

  ghost predicate SourcesValid(p: seq<Event>, source: seq<int>, threads: seq<Thread>, ipid: seq<nat>, log: seq<Store>, pending: set<nat>) {
    && |source| <= |p| && (forall i :: i in pending ==> i < |log|)
    && (forall k {:trigger source[k]} :: 0 <= k < |source| ==> SourceValid(p[k], source[k], threads, ipid, log) && source[k] !in pending)
    && (forall k, l :: 0 <= k < l < |source| && source[k] >= 0 ==> source[k] != source[l])
    && (forall k {:trigger source[k]} :: 0 <= k < |source| - 1 && p[k].pid < |threads| && threads[p[k].pid].aux ==> source[k] >= 0)
  }

  // ----- The trace that `has_cycle` reads ----------------------------------------------------------------

  function View(s: State): ScReplay.Trace
    requires s.Inv()
  {
    ScReplay.Trace(seq(|s.source|, k requires 0 <= k < |s.source| => ViewOf(s, k)), s.ipid)
  }

  function ViewOf(s: State, k: int): ScReplay.Ev
    requires s.Inv() && 0 <= k < |s.source|
  {
    assert SourceValid(s.m.prefix[k], s.source[k], s.threads, s.ipid, s.log);
    var e := s.m.prefix[k];
    var origin := if s.source[k] >= 0 then StepOf(s.log[s.source[k]], s.ipid) else 0;
    ScReplay.Ev(e.pid, s.threads[e.pid].proc, s.threads[e.pid].aux, e.index, e.size, origin, e.clock)
  }

  /** Steps of a process are steps of its thread. */
  lemma {:induction false} SameSteps(s: State, k: int, t: int)
    requires s.Inv() && 0 <= k <= |s.source| && 0 <= t < |s.ipid|
    ensures View(s).StepsBefore(k, t) == SleepSets.StepsBefore(s.m.prefix, k, s.ipid[t])
  {
    if k > 0 {
      SameSteps(s, k - 1, t);
      assert EventFits(s.m.prefix, k - 1, |s.threads|);
      assert View(s).Mine(k - 1, t) <==> s.m.prefix[k - 1].pid == s.ipid[t];
    }
  }

  lemma ViewIsValid(s: State)
    requires s.Inv() && s.Performed()
    ensures View(s).Valid()
  {
    forall i, j | 0 <= i < j < |s.ipid|
      ensures s.ipid[i] != s.ipid[j]
    {
      assert s.threads[s.ipid[i]].proc == i && s.threads[s.ipid[j]].proc == j;
    }
    forall k | 0 <= k < |s.source|
      ensures View(s).EvValid(k)
    {
      EventIsValid(s, k);
    }
  }

  lemma SeenEarlier(s: State, k: int, i: int)
    requires s.Inv() && 0 <= k < |s.source| && 0 <= i < |s.ipid| && s.ipid[i] != s.m.prefix[k].pid
    ensures View(s).Seen(k, i) <= View(s).StepsBefore(k, i)
  {
    SameSteps(s, k, i);
    assert EventFits(s.m.prefix, k, |s.threads|);
  }

  lemma EventIsValid(s: State, k: int)
    requires s.Inv() && s.Performed() && 0 <= k < |s.source|
    ensures View(s).EvValid(k)
  {
    var v, e := View(s), s.m.prefix[k];
    assert SleepSets.EventValid(s.m.prefix, k) && EventFits(s.m.prefix, k, |s.threads|);
    var t := s.threads[e.pid];
    SameSteps(s, k, t.proc);
    forall i | 0 <= i < |s.ipid| && (t.aux || i != t.proc)
      ensures v.Seen(k, i) <= v.StepsBefore(k, i)
    {
      assert s.threads[s.ipid[i]] == Thread(i, false);
      SeenEarlier(s, k, i);
    }
    if t.aux {
      UpdateIsValid(s, k);
    }
  }

  lemma UpdateIsValid(s: State, k: int)
    requires s.Inv() && s.Performed() && 0 <= k < |s.source| && s.m.prefix[k].pid < |s.threads| && s.threads[s.m.prefix[k].pid].aux
    ensures var v := View(s); var e := v.prefix[k];
      && e.pid !in s.ipid && 1 <= e.origin <= v.Seen(k, e.proc)
      && forall l :: 0 <= l < |v.prefix| && v.Updates(l, e.proc, e.origin) ==> l == k
  {
    var v, e := View(s), View(s).prefix[k];
    assert SourceValid(s.m.prefix[k], s.source[k], s.threads, s.ipid, s.log) && s.source[k] >= 0;
    assert Bounded(s.log[s.source[k]].clock, s.clocks);
    forall l | 0 <= l < |v.prefix| && v.Updates(l, e.proc, e.origin)
      ensures l == k
    {
      assert SourceValid(s.m.prefix[l], s.source[l], s.threads, s.ipid, s.log) && s.source[l] >= 0;
      SameStore(s.log, s.ipid, s.source[l], s.source[k]);
    }
  }

  lemma SameStore(log: seq<Store>, ipid: seq<nat>, i: int, j: int)
    requires Ordered(log, ipid) && 0 <= i < |log| && 0 <= j < |log| && log[i].proc == log[j].proc && log[i].proc < |ipid|
    requires StepOf(log[i], ipid) == StepOf(log[j], ipid)
    ensures i == j
  {
  }

  // ----- Steps of the scheduler --------------------------------------------------------------------------

  /** `SleepSets.Scheduler.Replay` */
  ghost predicate Replayed(m: SleepSets.Moment, n: SleepSets.Moment) {
    && m.Shape() && m.CurrentDone() && m.replay && m.prefixIdx + 1 < |m.prefix|
    && m.drySleepers == |m.prefix[m.prefixIdx + 1].sleep|
    && var p := m.prefix[m.prefixIdx + 1].pid;
      n == m.(prefixIdx := m.prefixIdx + 1, drySleepers := 0, woken := {}, steps := m.steps[p := m.StepsOf(p) + 1])
  }

  /** `SleepSets.Scheduler.Extend` */
  ghost predicate Extended(m: SleepSets.Moment, n: SleepSets.Moment, p: nat) {
    && m.Shape() && !m.replay && p !in m.sleepers
    && var e := SleepSets.NewEvent(p, m.StepsOf(p) + 1);
      n == m.(prefix := m.prefix + [e], prefixIdx := m.prefixIdx + 1, woken := {}, steps := m.steps[p := m.StepsOf(p) + 1])
  }

  /** `SleepSets.Scheduler.Continue` */
  ghost predicate Continued(m: SleepSets.Moment, n: SleepSets.Moment) {
    && m.Shape() && m.replay && m.prefixIdx >= 0 && m.Progress() < m.prefix[m.prefixIdx].size
    && var p := m.prefix[m.prefixIdx].pid; n == m.(steps := m.steps[p := m.StepsOf(p) + 1])
  }

  /** `SleepSets.Scheduler.MergeLast` */
  ghost predicate MergedTo(m: SleepSets.Moment, n: SleepSets.Moment) {
    && m.Shape() && !m.replay && |m.prefix| > 1 && SleepSets.CouldMerge(m.prefix, |m.prefix| - 1) && m.prefix[|m.prefix| - 1].size == 1
    && n == m.(prefix := SleepSets.Merge(m.prefix), prefixIdx := m.prefixIdx - 1, woken := m.prefix[|m.prefix| - 2].wakeup)
  }

  /** `SleepSets.Scheduler.RefuseSchedule` */
  ghost predicate Refused(m: SleepSets.Moment, n: SleepSets.Moment, p: nat) {
    && m.Shape() && !m.replay && m.prefixIdx >= 0
    && m.prefix[m.prefixIdx].size == 1 && !m.prefix[m.prefixIdx].mayConflict && m.prefix[m.prefixIdx].sleep == []
    && p == m.prefix[m.prefixIdx].pid && m.StepsOf(p) >= 1
    && n == m.(prefix := m.prefix[..m.prefixIdx], prefixIdx := m.prefixIdx - 1, steps := m.steps[p := m.StepsOf(p) - 1],
               woken := if m.prefixIdx == 0 then {} else m.prefix[m.prefixIdx - 1].wakeup)
  }

  /** The steps that leave the clocks alone: dry runs, the end of the replay, wake-ups, marks and branches. */
  ghost predicate Quiet(m: SleepSets.Moment, n: SleepSets.Moment) {
    m.Shape() && (DryRun(m, n) || ReplayEnds(m, n) || Marks(m, n) || (exists w :: Wakes(m, n, w)) || (exists i, pid :: Branches(m, n, i, pid)))
  }

  ghost predicate DryRun(m: SleepSets.Moment, n: SleepSets.Moment)
    requires m.Shape()
  {
    && m.CurrentDone() && m.replay && m.prefixIdx + 1 < |m.prefix| && m.drySleepers < |m.prefix[m.prefixIdx + 1].sleep|
    && n == m.(drySleepers := m.drySleepers + 1, sleepers := m.sleepers + {m.prefix[m.prefixIdx + 1].sleep[m.drySleepers]})
  }

  ghost predicate ReplayEnds(m: SleepSets.Moment, n: SleepSets.Moment)
    requires m.Shape()
  {
    m.CurrentDone() && m.prefixIdx + 1 == |m.prefix| && n == m.(replay := false)
  }

  ghost predicate Marks(m: SleepSets.Moment, n: SleepSets.Moment) {
    0 <= m.prefixIdx < |m.prefix| && n == m.(prefix := m.prefix[m.prefixIdx := m.prefix[m.prefixIdx].(mayConflict := true)])
  }

  ghost predicate Wakes(m: SleepSets.Moment, n: SleepSets.Moment, w: set<int>) {
    && 0 <= m.prefixIdx < |m.prefix| && m.drySleepers == 0 && w <= m.sleepers && m.prefix[m.prefixIdx].mayConflict
    && n == m.(prefix := SleepSets.Wake(m.prefix, m.prefixIdx, w), sleepers := m.sleepers - w, woken := m.woken + w)
  }

  ghost predicate Branches(m: SleepSets.Moment, n: SleepSets.Moment, i: int, pid: int) {
    MayInsert(m.prefix, i, pid) && n == m.(prefix := AddBranchAt(m.prefix, i, pid))
  }

  /** Up to event `n` the traces have the same steps and clocks. */
  ghost predicate Alike(p: seq<Event>, q: seq<Event>, n: int) {
    && 0 <= n <= |p| && n <= |q|
    && (forall k :: 0 <= k < n ==>
          q[k].pid == p[k].pid && q[k].index == p[k].index && q[k].clock == p[k].clock && (p[k].mayConflict ==> q[k].mayConflict))
    && (forall k :: 0 <= k < n - 1 ==> q[k].size == p[k].size)
  }

  lemma {:induction false} AlikeSteps(p: seq<Event>, q: seq<Event>, n: int, k: int)
    requires Alike(p, q, n) && 0 <= k < n
    ensures forall t :: SleepSets.StepsBefore(q, k, t) == SleepSets.StepsBefore(p, k, t)
  {
    if k > 0 {
      AlikeSteps(p, q, n, k - 1);
    }
  }

  lemma AlikeEvents(p: seq<Event>, q: seq<Event>, n: int, threads: nat)
    requires Alike(p, q, n) && EventsValid(p, n, threads)
    ensures EventsValid(q, n, threads)
  {
    forall k | 0 <= k < n
      ensures EventFits(q, k, threads)
    {
      assert EventFits(p, k, threads);
      AlikeSteps(p, q, n, k);
    }
  }

  lemma AlikeSources(p: seq<Event>, q: seq<Event>, source: seq<int>, threads: seq<Thread>, ipid: seq<nat>, log: seq<Store>, pending: set<nat>)
    requires Alike(p, q, |source|) && SourcesValid(p, source, threads, ipid, log, pending)
    ensures SourcesValid(q, source, threads, ipid, log, pending)
  {
    forall k | 0 <= k < |source|
      ensures SourceValid(q[k], source[k], threads, ipid, log)
    {
      assert SourceValid(p[k], source[k], threads, ipid, log);
    }
  }

  lemma QuietKeeps(m: SleepSets.Moment, n: SleepSets.Moment)
    requires m.Inv() && Quiet(m, n)
    ensures n.Inv() && n.prefixIdx == m.prefixIdx && n.steps == m.steps && Alike(m.prefix, n.prefix, m.prefixIdx + 1)
  {
    QuietIsAlike(m, n);
    if DryRun(m, n) {
      SleepSets.DryRunKeepsInv(m, n);
    } else if ReplayEnds(m, n) {
      SleepSets.EndReplayKeepsInv(m, n);
    } else if Marks(m, n) {
      SleepSets.MarkKeepsInv(m, n);
    } else if w :| Wakes(m, n, w) {
      SleepSets.WakeKeepsInv(m, n, w);
    } else {
      var i, pid :| Branches(m, n, i, pid);
      SleepSets.BranchKeepsInv(m, n, i, pid);
    }
  }

  lemma QuietIsAlike(m: SleepSets.Moment, n: SleepSets.Moment)
    requires m.Shape() && Quiet(m, n)
    ensures n.prefixIdx == m.prefixIdx && n.steps == m.steps && Alike(m.prefix, n.prefix, m.prefixIdx + 1)
  {
  }

  lemma SameAgree(m: SleepSets.Moment, n: SleepSets.Moment, clocks: seq<VClock>)
    requires Agree(m, clocks) && n.steps == m.steps
    ensures Agree(n, clocks)
  {
    assert forall p :: n.StepsOf(p) == m.StepsOf(p);
  }

  /** The event that begins: its number and what all threads have done before it. */
  ghost predicate Begins(m: SleepSets.Moment, n: SleepSets.Moment) {
    Replayed(m, n) || exists p :: Extended(m, n, p)
  }

  lemma BeginsRight(m: SleepSets.Moment, n: SleepSets.Moment)
    requires m.Inv() && Begins(m, n)
    ensures n.Inv() && n.prefixIdx == m.prefixIdx + 1 && Alike(m.prefix, n.prefix, m.prefixIdx + 1)
    ensures var p := n.prefix[n.prefixIdx].pid; n.prefix[n.prefixIdx].index == m.StepsOf(p) + 1 && n.steps == m.steps[p := m.StepsOf(p) + 1]
    ensures forall t :: SleepSets.StepsBefore(n.prefix, n.prefixIdx, t) == m.StepsOf(t)
  {
    SleepSets.DoneMeansAll(m);
    if Replayed(m, n) {
      SleepSets.ReplayKeepsInv(m, n);
      assert SleepSets.EventValid(n.prefix, n.prefixIdx);
    } else {
      var p :| Extended(m, n, p);
      SleepSets.NewKeepsInv(m, n, n.prefix[n.prefixIdx]);
      SleepSets.SameBelow(m.prefix, n.prefix, |m.prefix|, |m.prefix|);
    }
  }

  // ----- Clocks ------------------------------------------------------------------------------------------

  /** Thread `p` gets on, and no other thread's own entry changes. */
  lemma AllBoundedGrows(clocks: seq<VClock>, p: nat, c: VClock)
    requires AllBounded(clocks) && p < |clocks| && At(clocks[p], p) <= At(c, p)
    requires forall t :: t != p ==> At(c, t) <= Steps(clocks, t)
    ensures AllBounded(clocks[p := c]) && forall d :: Bounded(d, clocks) ==> Bounded(d, clocks[p := c])
  {
    var to := clocks[p := c];
    forall d | Bounded(d, clocks)
      ensures Bounded(d, to)
    {
      BoundedGrows(d, clocks, to);
    }
    forall q | 0 <= q < |to|
      ensures Bounded(to[q], to)
    {
      if q != p { assert Bounded(clocks[q], clocks); }
    }
  }

  lemma AllBoundedAppends(clocks: seq<VClock>, p: nat)
    requires AllBounded(clocks) && p < |clocks|
    ensures AllBounded(clocks + [clocks[p]]) && forall d :: Bounded(d, clocks) ==> Bounded(d, clocks + [clocks[p]])
    ensures forall t :: Steps(clocks + [clocks[p]], t) == Steps(clocks, t)
  {
    var to := clocks + [clocks[p]];
    assert Bounded(clocks[p], clocks);
    forall d | Bounded(d, clocks)
      ensures Bounded(d, to)
    {
    }
    forall q | 0 <= q < |to|
      ensures Bounded(to[q], to)
    {
      assert Bounded(clocks[if q < |clocks| then q else p], clocks);
    }
  }

  lemma LogGrows(log: seq<Store>, ipid: seq<nat>, clocks: seq<VClock>, to: seq<VClock>)
    requires LogValid(log, ipid, clocks) && forall d :: Bounded(d, clocks) ==> Bounded(d, to)
    ensures LogValid(log, ipid, to)
  {
    forall i | 0 <= i < |log|
      ensures log[i].proc < |ipid| && StepOf(log[i], ipid) >= 1 && Bounded(log[i].clock, to)
    {
      assert Bounded(log[i].clock, clocks);
    }
  }

  lemma {:induction false} StepsGrow(p: seq<Event>, k: int, l: int, t: int)
    requires 0 <= k <= l <= |p|
    ensures SleepSets.StepsBefore(p, k, t) <= SleepSets.StepsBefore(p, l, t)
    decreases l
  {
    if k < l {
      StepsGrow(p, k, l - 1, t);
    }
  }

  /** What event `k` has seen of thread `t` are steps of the events up to `k`. */
  lemma SeenSteps(p: seq<Event>, k: int, threads: nat, t: int)
    requires 0 <= k < |p| && EventFits(p, k, threads) && SleepSets.EventValid(p, k)
    ensures At(p[k].clock, t) <= SleepSets.StepsBefore(p, k, t) + if t == p[k].pid then 1 else 0
    ensures At(p[k].clock, t) <= SleepSets.StepsBefore(p, k + 1, t)
  {
  }

  /** The clock of an executed event may be seen by the current one. */
  lemma EventClockFits(s: State, k: int)
    requires s.Inv() && 0 <= k <= s.m.prefixIdx
    ensures Bounded(s.m.prefix[k].clock, s.clocks) && At(s.m.prefix[k].clock, s.Pid()) <= s.m.prefix[s.m.prefixIdx].index
  {
    var p, idx := s.m.prefix, s.m.prefixIdx;
    assert SleepSets.EventValid(p, k) && SleepSets.EventValid(p, idx) && EventFits(p, k, |s.threads|);
    forall t
      ensures At(p[k].clock, t) <= s.m.StepsOf(t) && (t == s.Pid() ==> At(p[k].clock, t) <= p[idx].index)
    {
      SeenSteps(p, k, |s.threads|, t);
      StepsGrow(p, if k < idx then k + 1 else k, idx, t);
    }
  }

  // ----- Steps of the run --------------------------------------------------------------------------------

  /** A new event, or the next one of the prefix: `schedule`. */
  function Begin(s: State, n: SleepSets.Moment): State
    requires 0 <= n.prefixIdx < |n.prefix| && n.prefix[n.prefixIdx].pid < |s.clocks|
  {
    var e := n.prefix[n.prefixIdx];
    var c := Set(s.clocks[e.pid], e.pid, At(s.clocks[e.pid], e.pid) + 1);
    s.(m := n.(prefix := n.prefix[n.prefixIdx := e.(clock := c)]), clocks := s.clocks[e.pid := c],
       source := s.source + [-1], stored := false)
  }

  lemma ClockKeepsMoment(m: SleepSets.Moment, c: VClock)
    requires m.Inv() && m.prefixIdx >= 0
    ensures m.(prefix := m.prefix[m.prefixIdx := m.prefix[m.prefixIdx].(clock := c)]).Inv()
  {
    RecordsKeepInv(m, m.prefix[m.prefixIdx := m.prefix[m.prefixIdx].(clock := c)]);
  }

  /** Thread `p` takes a step. */
  lemma AgreeSteps(m: SleepSets.Moment, n: SleepSets.Moment, clocks: seq<VClock>, p: nat, c: VClock)
    requires Agree(m, clocks) && p < |clocks| && n.steps == m.steps[p := m.StepsOf(p) + 1] && At(c, p) == At(clocks[p], p) + 1
    ensures Agree(n, clocks[p := c])
  {
    assert m.StepsOf(p) == Steps(clocks, p);
    forall q
      ensures n.StepsOf(q) == Steps(clocks[p := c], q)
    {
      assert m.StepsOf(q) == Steps(clocks, q);
    }
  }

  /** The events of the trace once a new one has begun. */
  lemma NewEventSees(m: SleepSets.Moment, n: SleepSets.Moment, clocks: seq<VClock>, c: VClock, q: seq<Event>)
    requires m.Inv() && Begins(m, n) && Agree(m, clocks) && AllBounded(clocks) && n.prefix[n.prefixIdx].pid < |clocks|
    requires EventsValid(m.prefix, m.prefixIdx + 1, |clocks|)
    requires var p := n.prefix[n.prefixIdx].pid; c == Set(clocks[p], p, At(clocks[p], p) + 1)
    requires 0 <= n.prefixIdx < |n.prefix| && q == n.prefix[n.prefixIdx := n.prefix[n.prefixIdx].(clock := c)]
    ensures EventsValid(q, n.prefixIdx + 1, |clocks|)
  {
    BeginsRight(m, n);
    var i := n.prefixIdx;
    var p := q[i].pid;
    AlikeEvents(m.prefix, q, i, |clocks|);
    SleepSets.StepsIgnoreWakeups(n.prefix, q, i);
    assert Bounded(clocks[p], clocks) && m.StepsOf(p) == Steps(clocks, p);
    forall t | 0 <= t < |c| && t != p
      ensures c[t] <= SleepSets.StepsBefore(q, i, t)
    {
      assert c[t] == At(c, t) == At(clocks[p], t) && m.StepsOf(t) == Steps(clocks, t);
    }
    assert EventFits(q, i, |clocks|);
  }

  lemma BeginKeepsInv(s: State, n: SleepSets.Moment)
    requires s.Inv() && s.Performed() && Begins(s.m, n)
    requires 0 <= n.prefixIdx < |n.prefix| && n.prefix[n.prefixIdx].pid < |s.threads|
    ensures Begin(s, n).Inv()
  {
    BeginsRight(s.m, n);
    var t, p := Begin(s, n), n.prefix[n.prefixIdx].pid;
    var c := t.clocks[p];
    assert Bounded(s.clocks[p], s.clocks);
    ClockKeepsMoment(n, c);
    AgreeSteps(s.m, t.m, s.clocks, p, c);
    AllBoundedGrows(s.clocks, p, c);
    NewEventSees(s.m, n, s.clocks, c, t.m.prefix);
    LogGrows(s.log, s.ipid, s.clocks, t.clocks);
    BeginKeepsSources(s, n);
    forall i | 0 <= i < |s.log| && s.log[i].proc < |s.ipid| && s.ipid[s.log[i].proc] == p
      ensures StepOf(s.log[i], s.ipid) < At(c, p)
    {
      assert Bounded(s.log[i].clock, s.clocks);
    }
  }

  lemma BeginKeepsSources(s: State, n: SleepSets.Moment)
    requires s.Inv() && s.Performed() && Begins(s.m, n)
    requires 0 <= n.prefixIdx < |n.prefix| && n.prefix[n.prefixIdx].pid < |s.threads|
    ensures var t := Begin(s, n); SourcesValid(t.m.prefix, t.source, t.threads, t.ipid, t.log, t.pending)
  {
    BeginsRight(s.m, n);
    var q := Begin(s, n).m.prefix;
    AlikeSources(s.m.prefix, q, s.source, s.threads, s.ipid, s.log, s.pending);
    OneMoreSource(q, s.source, s.threads, s.ipid, s.log, s.pending);
  }

  lemma OneMoreSource(p: seq<Event>, source: seq<int>, threads: seq<Thread>, ipid: seq<nat>, log: seq<Store>, pending: set<nat>)
    requires SourcesValid(p, source, threads, ipid, log, pending) && |source| < |p| && p[|source|].pid < |threads|
    requires var l := |source| - 1; l >= 0 && p[l].pid < |threads| && threads[p[l].pid].aux ==> source[l] >= 0
    ensures SourcesValid(p, source + [-1], threads, ipid, log, pending)
  {
  }

  /** The next step of an event that has more: `schedule` in a replay. */
  function Continue(s: State, n: SleepSets.Moment): State
    requires 0 <= s.m.prefixIdx < |s.m.prefix| && s.Pid() < |s.clocks|
  {
    var p := s.Pid();
    s.(m := n, clocks := s.clocks[p := Set(s.clocks[p], p, At(s.clocks[p], p) + 1)], stored := false)
  }

  lemma ContinueKeepsInv(s: State, n: SleepSets.Moment)
    requires s.Inv() && Continued(s.m, n)
    requires s.Pid() < |s.clocks|
    ensures Continue(s, n).Inv()
  {
    var t, p := Continue(s, n), s.Pid();
    var c := t.clocks[p];
    assert Bounded(s.clocks[p], s.clocks);
    SleepSets.ContinueKeepsInv(s.m, n);
    AgreeSteps(s.m, n, s.clocks, p, c);
    AllBoundedGrows(s.clocks, p, c);
    LogGrows(s.log, s.ipid, s.clocks, t.clocks);
    forall i | 0 <= i < |s.log| && s.log[i].proc < |s.ipid| && s.ipid[s.log[i].proc] == p
      ensures StepOf(s.log[i], s.ipid) < At(c, p)
    {
      assert Bounded(s.log[i].clock, s.clocks);
    }
  }

  lemma QuietKeepsInv(s: State, n: SleepSets.Moment)
    requires s.Inv() && Quiet(s.m, n)
    ensures s.(m := n).Inv()
  {
    QuietKeeps(s.m, n);
    SameAgree(s.m, n, s.clocks);
    AlikeEvents(s.m.prefix, n.prefix, n.prefixIdx + 1, |s.threads|);
    AlikeSources(s.m.prefix, n.prefix, s.source, s.threads, s.ipid, s.log, s.pending);
  }

  /** The current event and its thread see a clock: `see_events`, fences and joins. */
  function SeeClock(s: State, c: VClock): State
    requires 0 <= s.m.prefixIdx < |s.m.prefix| && s.Pid() < |s.clocks|
  {
    var i, p := s.m.prefixIdx, s.Pid();
    var e := s.m.prefix[i];
    s.(m := s.m.(prefix := s.m.prefix[i := e.(clock := Join(e.clock, c))]), clocks := s.clocks[p := Join(s.clocks[p], c)])
  }

  lemma SeeKeepsEvents(m: SleepSets.Moment, clocks: seq<VClock>, c: VClock, q: seq<Event>)
    requires m.Inv() && m.prefixIdx >= 0 && Agree(m, clocks) && EventsValid(m.prefix, m.prefixIdx + 1, |clocks|)
    requires Bounded(c, clocks) && At(c, m.prefix[m.prefixIdx].pid) <= m.prefix[m.prefixIdx].index
    requires var e := m.prefix[m.prefixIdx]; q == m.prefix[m.prefixIdx := e.(clock := Join(e.clock, c))]
    ensures EventsValid(q, m.prefixIdx + 1, |clocks|)
  {
    var i := m.prefixIdx;
    var e := m.prefix[i];
    AlikeEvents(m.prefix, q, i, |clocks|);
    SleepSets.StepsIgnoreWakeups(m.prefix, q, i);
    assert EventFits(m.prefix, i, |clocks|);
    var d := q[i].clock;
    forall t | 0 <= t < |d| && t != e.pid
      ensures d[t] <= SleepSets.StepsBefore(q, i, t)
    {
      assert d[t] == At(d, t) && m.StepsOf(t) == Steps(clocks, t);
      assert At(e.clock, t) <= SleepSets.StepsBefore(m.prefix, i, t);
    }
    assert At(d, e.pid) == At(e.clock, e.pid);
    forall k | 0 <= k <= i
      ensures EventFits(q, k, |clocks|)
    {
      assert k < i || EventFits(q, i, |clocks|);
    }
  }

  lemma JoinKeepsClocks(clocks: seq<VClock>, p: nat, c: VClock)
    requires AllBounded(clocks) && p < |clocks| && Bounded(c, clocks)
    ensures AllBounded(clocks[p := Join(clocks[p], c)])
    ensures forall d :: Bounded(d, clocks) ==> Bounded(d, clocks[p := Join(clocks[p], c)])
    ensures forall t :: Steps(clocks[p := Join(clocks[p], c)], t) == Steps(clocks, t)
  {
    assert Bounded(clocks[p], clocks);
    AllBoundedGrows(clocks, p, Join(clocks[p], c));
  }

  lemma SeeKeepsSources(s: State, c: VClock)
    requires s.Inv() && s.m.prefixIdx >= 0 && s.Pid() < |s.clocks|
    ensures var t := SeeClock(s, c); SourcesValid(t.m.prefix, t.source, t.threads, t.ipid, t.log, t.pending)
  {
    var q := SeeClock(s, c).m.prefix;
    forall k | 0 <= k < |s.source|
      ensures SourceValid(q[k], s.source[k], s.threads, s.ipid, s.log)
    {
      assert SourceValid(s.m.prefix[k], s.source[k], s.threads, s.ipid, s.log);
    }
  }

  lemma SeeKeepsInv(s: State, c: VClock)
    requires s.Inv() && s.m.prefixIdx >= 0 && s.Pid() < |s.clocks|
    requires Bounded(c, s.clocks) && At(c, s.Pid()) <= s.m.prefix[s.m.prefixIdx].index
    ensures SeeClock(s, c).Inv()
  {
    var t := SeeClock(s, c);
    ClockKeepsMoment(s.m, t.m.prefix[s.m.prefixIdx].clock);
    JoinKeepsClocks(s.clocks, s.Pid(), c);
    SeeKeepsEvents(s.m, s.clocks, c, t.m.prefix);
    LogGrows(s.log, s.ipid, s.clocks, t.clocks);
    SeeKeepsSources(s, c);
    SameAgree(s.m, t.m, s.clocks);
  }

  /** Another thread is told what the current event has seen: `cond_signal` and `cond_broadcast`. */
  function Tell(s: State, q: nat): State
    requires 0 <= s.m.prefixIdx < |s.m.prefix| && q < |s.clocks|
  {
    s.(clocks := s.clocks[q := Join(s.clocks[q], s.m.prefix[s.m.prefixIdx].clock)])
  }

  lemma TellKeepsInv(s: State, q: nat)
    requires s.Inv() && s.m.prefixIdx >= 0 && q < |s.clocks|
    ensures Tell(s, q).Inv()
  {
    EventClockFits(s, s.m.prefixIdx);
    JoinKeepsClocks(s.clocks, q, s.m.prefix[s.m.prefixIdx].clock);
    LogGrows(s.log, s.ipid, s.clocks, Tell(s, q).clocks);
  }

  /** `spawn`, of the next process. */
  function Spawn(s: State): State
    requires 0 <= s.m.prefixIdx < |s.m.prefix| && s.Pid() < |s.clocks|
  {
    s.(threads := s.threads + [Thread(|s.ipid|, false)], ipid := s.ipid + [|s.threads|], clocks := s.clocks + [s.clocks[s.Pid()]])
  }

  /** `store`, when the bytes have no auxiliary thread yet. */
  function SpawnAux(s: State): State
    requires 0 <= s.m.prefixIdx < |s.m.prefix| && s.Pid() < |s.clocks| && s.Pid() < |s.threads|
  {
    s.(threads := s.threads + [Thread(s.threads[s.Pid()].proc, true)], clocks := s.clocks + [s.clocks[s.Pid()]])
  }

  lemma MoreProcesses(log: seq<Store>, ipid: seq<nat>, to: seq<nat>, clocks: seq<VClock>)
    requires LogValid(log, ipid, clocks) && ipid <= to
    ensures LogValid(log, to, clocks)
    ensures forall i :: 0 <= i < |log| ==> log[i].proc < |ipid| && StepOf(log[i], to) == StepOf(log[i], ipid)
  {
    forall i | 0 <= i < |log|
      ensures log[i].proc < |ipid| && StepOf(log[i], to) == StepOf(log[i], ipid) && StepOf(log[i], to) >= 1
    {
      assert Bounded(log[i].clock, clocks);
    }
  }

  /** More threads, and more processes, are nothing to the events and stores so far. */
  lemma MoreThreads(s: State, t: State, p: nat)
    requires s.Inv() && p < |s.clocks| && s.threads <= t.threads && s.ipid <= t.ipid && TableValid(t.threads, t.ipid)
    requires t == s.(threads := t.threads, ipid := t.ipid, clocks := s.clocks + [s.clocks[p]]) && |t.threads| == |s.threads| + 1
    ensures t.Inv()
  {
    AllBoundedAppends(s.clocks, p);
    assert Agree(s.m, t.clocks) by {
      assert forall r :: s.m.StepsOf(r) == Steps(s.clocks, r);
    }
    LogGrows(s.log, s.ipid, s.clocks, t.clocks);
    MoreProcesses(s.log, s.ipid, t.ipid, t.clocks);
    assert EventsValid(s.m.prefix, s.m.prefixIdx + 1, |t.threads|) by {
      forall k | 0 <= k <= s.m.prefixIdx
        ensures EventFits(s.m.prefix, k, |t.threads|)
      {
        assert EventFits(s.m.prefix, k, |s.threads|);
      }
    }
    forall k | 0 <= k < |s.source|
      ensures SourceValid(s.m.prefix[k], s.source[k], t.threads, t.ipid, s.log)
    {
      assert SourceValid(s.m.prefix[k], s.source[k], s.threads, s.ipid, s.log);
    }
    assert SourcesValid(t.m.prefix, t.source, t.threads, t.ipid, t.log, t.pending);
    assert !t.stored && t.m.prefixIdx >= 0 ==> NotStored(t.log, t.ipid, t.Pid(), Steps(t.clocks, t.Pid()));
  }

  lemma SpawnKeepsInv(s: State)
    requires s.Inv() && s.m.prefixIdx >= 0 && s.Pid() < |s.threads|
    ensures Spawn(s).Inv() && SpawnAux(s).Inv()
  {
    MoreThreads(s, Spawn(s), s.Pid());
    MoreThreads(s, SpawnAux(s), s.Pid());
  }

  /** `store`: one store for a step, of a real thread. */
  function Issue(s: State): State
    requires 0 <= s.m.prefixIdx < |s.m.prefix| && s.Pid() < |s.clocks| && s.Pid() < |s.threads|
  {
    s.(log := s.log + [Store(s.threads[s.Pid()].proc, s.clocks[s.Pid()])], pending := s.pending + {|s.log|}, stored := true)
  }

  lemma OneMoreStore(log: seq<Store>, ipid: seq<nat>, clocks: seq<VClock>, x: Store)
    requires LogValid(log, ipid, clocks) && x.proc < |ipid| && StepOf(x, ipid) >= 1 && Bounded(x.clock, clocks)
    requires NotStored(log, ipid, ipid[x.proc], StepOf(x, ipid))
    ensures LogValid(log + [x], ipid, clocks)
  {
    forall i | 0 <= i < |log|
      ensures log[i].proc < |ipid| && StepOf(log[i], ipid) >= 1
    {
      assert Bounded(log[i].clock, clocks);
    }
  }

  lemma StoreKeepsSources(p: seq<Event>, source: seq<int>, threads: seq<Thread>, ipid: seq<nat>, log: seq<Store>, pending: set<nat>, x: Store)
    requires SourcesValid(p, source, threads, ipid, log, pending)
    ensures SourcesValid(p, source, threads, ipid, log + [x], pending + {|log|})
  {
    forall k | 0 <= k < |source|
      ensures SourceValid(p[k], source[k], threads, ipid, log + [x]) && source[k] !in pending + {|log|}
    {
      assert SourceValid(p[k], source[k], threads, ipid, log);
    }
  }

  lemma IssueKeepsInv(s: State)
    requires s.Inv() && s.m.prefixIdx >= 0 && s.Pid() < |s.threads| && !s.threads[s.Pid()].aux && !s.stored
    ensures Issue(s).Inv()
  {
    var p := s.Pid();
    var x := Store(s.threads[p].proc, s.clocks[p]);
    SameProgress(s.m, s.clocks);
    assert SleepSets.EventValid(s.m.prefix, s.m.prefixIdx);
    assert Bounded(s.clocks[p], s.clocks);
    OneMoreStore(s.log, s.ipid, s.clocks, x);
    StoreKeepsSources(s.m.prefix, s.source, s.threads, s.ipid, s.log, s.pending, x);
  }

  /** `atomic_store` of an auxiliary thread: memory is updated with store `i`, whose clock the event takes in. */
  function Update(s: State, i: nat): State
    requires 0 <= s.m.prefixIdx < |s.m.prefix| && s.Pid() < |s.clocks| && i < |s.log| && |s.source| == s.m.prefixIdx + 1
  {
    SeeClock(s.(m := Marked(s.m)), s.log[i].clock).(pending := s.pending - {i}, source := s.source[s.m.prefixIdx := i])
  }

  function Marked(m: SleepSets.Moment): SleepSets.Moment
    requires 0 <= m.prefixIdx < |m.prefix|
  {
    m.(prefix := m.prefix[m.prefixIdx := m.prefix[m.prefixIdx].(mayConflict := true)])
  }

  /** The current event may update memory with store `i`: it is the first step of a thread that is there for it. */
  ghost predicate MayUpdate(s: State, i: nat)
    requires s.Shape()
  {
    && s.m.Shape() && s.m.prefixIdx >= 0 && i in s.pending && i < |s.log|
    && s.threads[s.Pid()] == Thread(s.log[i].proc, true) && s.source[s.m.prefixIdx] == -1 && s.m.Progress() == 1
  }

  lemma UpdateKeepsInv(s: State, i: nat)
    requires s.Inv() && MayUpdate(s, i)
    ensures Update(s, i).Inv()
  {
    var marked := s.(m := Marked(s.m));
    assert Marks(s.m, marked.m);
    QuietKeepsInv(s, marked.m);
    var c := s.log[i].clock;
    assert Bounded(c, s.clocks) && s.m.StepsOf(s.Pid()) == Steps(s.clocks, s.Pid());
    SeeKeepsInv(marked, c);
    UpdateKeepsSources(SeeClock(marked, c), Update(s, i), i);
  }

  lemma UpdateKeepsSources(s: State, t: State, i: nat)
    requires s.Inv() && MayUpdate(s, i) && s.m.prefix[s.m.prefixIdx].mayConflict
    requires StepOf(s.log[i], s.ipid) <= At(s.m.prefix[s.m.prefixIdx].clock, s.ipid[s.log[i].proc])
    requires t == s.(pending := s.pending - {i}, source := s.source[s.m.prefixIdx := i])
    ensures t.Inv()
  {
    var idx := s.m.prefixIdx;
    assert SourceValid(t.m.prefix[idx], i, t.threads, t.ipid, t.log) by {
      assert Bounded(s.log[i].clock, s.clocks);
    }
    forall k | 0 <= k < |t.source|
      ensures SourceValid(t.m.prefix[k], t.source[k], t.threads, t.ipid, t.log) && t.source[k] !in t.pending
      ensures k != idx ==> t.source[k] != i
    {
      assert k != idx ==> t.source[k] == s.source[k] && SourceValid(s.m.prefix[k], s.source[k], s.threads, s.ipid, s.log);
    }
  }

  /** A store that has been issued is pending, with the clock of its step, until it has updated memory. */
  lemma IssuedIsPending(s: State)
    requires s.Inv() && s.m.prefixIdx >= 0 && s.Pid() < |s.threads|
    ensures var t, i := Issue(s), |s.log|;
      && i in t.pending && t.pending == s.pending + {i} && s.log <= t.log && |t.log| == i + 1 && t.stored
      && t.log[i].proc == s.threads[s.Pid()].proc && t.log[i].clock == s.clocks[s.Pid()]
  {
  }

  /** An event that an auxiliary thread of the process has just begun may update memory with it. */
  lemma BegunMayUpdate(s: State, n: SleepSets.Moment, i: nat)
    requires s.Inv() && s.Performed() && Begins(s.m, n) && 0 <= n.prefixIdx < |n.prefix| && n.prefix[n.prefixIdx].pid < |s.threads|
    requires i in s.pending && i < |s.log| && s.threads[n.prefix[n.prefixIdx].pid] == Thread(s.log[i].proc, true)
    ensures Begin(s, n).Inv() && MayUpdate(Begin(s, n), i)
  {
    BeginKeepsInv(s, n);
    BeginsRight(s.m, n);
  }

  /** Then the event is the update of that store, which is no longer pending, and has seen its step. */
  lemma UpdateIsRecorded(s: State, i: nat)
    requires s.Inv() && MayUpdate(s, i)
    ensures var t := Update(s, i);
      && t.Inv() && t.Performed() && i !in t.pending && s.pending == t.pending + {i} && t.source[s.m.prefixIdx] == i
      && t.log == s.log && View(t).prefix[s.m.prefixIdx].origin == StepOf(s.log[i], s.ipid)
      && (forall d :: At(t.m.prefix[s.m.prefixIdx].clock, d) ==
            if At(s.m.prefix[s.m.prefixIdx].clock, d) < At(s.log[i].clock, d) then At(s.log[i].clock, d)
            else At(s.m.prefix[s.m.prefixIdx].clock, d))
  {
    UpdateKeepsInv(s, i);
  }

  /** The last two events become one. */
  function Merge(s: State, n: SleepSets.Moment): State
    requires |s.source| > 0
  {
    s.(m := n, source := s.source[..|s.source| - 1])
  }

  lemma MergeKeepsInv(s: State, n: SleepSets.Moment)
    requires s.Inv() && s.Performed() && MergedTo(s.m, n)
    ensures |s.source| > 0 && Merge(s, n).Inv() && Merge(s, n).Performed()
  {
    SleepSets.MergeKeepsInv(s.m, n);
    SameAgree(s.m, n, s.clocks);
    var t, l := Merge(s, n), n.prefixIdx;
    assert Alike(s.m.prefix, n.prefix, l + 1);
    AlikeEvents(s.m.prefix, n.prefix, l + 1, |s.threads|);
    assert SourcesValid(s.m.prefix, t.source, s.threads, s.ipid, s.log, s.pending);
    AlikeSources(s.m.prefix, n.prefix, t.source, s.threads, s.ipid, s.log, s.pending);
    assert SourceValid(s.m.prefix[l + 1], s.source[l + 1], s.threads, s.ipid, s.log);
    assert SourceValid(s.m.prefix[l], s.source[l], s.threads, s.ipid, s.log);
  }

  /** A new event that is refused at once: `schedule`, then `refuse_schedule`. */
  function BeginInVain(s: State, n: SleepSets.Moment, p: nat): State
    requires p < |s.clocks|
  {
    var v := At(s.clocks[p], p);
    s.(m := n, clocks := s.clocks[p := Set(Set(s.clocks[p], p, v + 1), p, v)])
  }

  /** What is refused is as if it had not been. */
  lemma RefusalUndoes(m: SleepSets.Moment, k: SleepSets.Moment, n: SleepSets.Moment, p: nat)
    requires m.Inv() && Extended(m, k, p) && Refused(k, n, p)
    ensures n.Inv() && n.prefix == m.prefix && n.prefixIdx == m.prefixIdx && n.sleepers == m.sleepers
    ensures forall q :: n.StepsOf(q) == m.StepsOf(q)
  {
    SleepSets.NewKeepsInv(m, k, k.prefix[k.prefixIdx]);
    SleepSets.RefuseKeepsInv(k, n, p);
    assert k.StepsOf(p) == m.StepsOf(p) + 1;
    assert forall q :: q != p ==> k.StepsOf(q) == m.StepsOf(q) && n.StepsOf(q) == k.StepsOf(q);
  }

  lemma BeginInVainKeepsInv(s: State, k: SleepSets.Moment, n: SleepSets.Moment, p: nat)
    requires s.Inv() && p < |s.clocks| && Extended(s.m, k, p) && Refused(k, n, p)
    ensures BeginInVain(s, n, p).Inv()
  {
    RefusalUndoes(s.m, k, n, p);
    var t := BeginInVain(s, n, p);
    assert Bounded(s.clocks[p], s.clocks);
    AllBoundedGrows(s.clocks, p, t.clocks[p]);
    LogGrows(s.log, s.ipid, s.clocks, t.clocks);
    assert Agree(n, t.clocks) by {
      assert forall q :: s.m.StepsOf(q) == Steps(s.clocks, q) && Steps(t.clocks, q) == Steps(s.clocks, q);
    }
  }

  // ----- Runs --------------------------------------------------------------------------------------------

  /** After the constructor, or after `reset`. */
  ghost predicate Init(s: State) {
    && s.m.Inv() && s.m.prefixIdx == -1
    && s == State(s.m, [[]], [Thread(0, false)], [0], [], {}, [], false)
  }

  lemma InitHasInv(s: State)
    requires Init(s)
    ensures s.Inv() && s.Performed()
  {
    assert forall p :: s.m.StepsOf(p) == Steps(s.clocks, p);
  }

  ghost predicate Step(s: State, t: State)
    requires s.Shape()
  {
    || (s.Performed() && (exists n :: BeginsWith(s, n, t)))
    || (s.Performed() && |s.source| > 0 && MergedTo(s.m, t.m) && t == Merge(s, t.m))
    || (exists k, p :: RefusedWith(s, k, p, t))
    || (Quiet(s.m, t.m) && t == s.(m := t.m))
    || (s.m.prefixIdx >= 0 && StepOfCurrent(s, t))
  }

  ghost predicate BeginsWith(s: State, n: SleepSets.Moment, t: State)
    requires s.Shape()
  {
    Begins(s.m, n) && 0 <= n.prefixIdx < |n.prefix| && n.prefix[n.prefixIdx].pid < |s.threads| && t == Begin(s, n)
  }

  ghost predicate RefusedWith(s: State, k: SleepSets.Moment, p: nat, t: State)
    requires s.Shape()
  {
    p < |s.threads| && Extended(s.m, k, p) && Refused(k, t.m, p) && t == BeginInVain(s, t.m, p)
  }

  /** What the current step may do. */
  ghost predicate StepOfCurrent(s: State, t: State)
    requires s.Shape() && s.m.prefixIdx >= 0
  {
    || (Continued(s.m, t.m) && t == Continue(s, t.m))
    || (exists k :: SeesEvent(s, k, t))
    || (exists q :: SeesThread(s, q, t))
    || (exists q: nat :: q < |s.threads| && t == Tell(s, q))
    || t == Spawn(s)
    || (!s.threads[s.Pid()].aux && t == SpawnAux(s))
    || (!s.threads[s.Pid()].aux && !s.stored && t == Issue(s))
    || (exists i: nat :: MayUpdate(s, i) && t == Update(s, i))
  }

  ghost predicate SeesEvent(s: State, k: int, t: State)
    requires s.Shape() && s.m.prefixIdx >= 0
  {
    0 <= k <= s.m.prefixIdx && t == SeeClock(s, s.m.prefix[k].clock)
  }

  /** A join: of a thread that knows no later step of the current event than its first. */
  ghost predicate SeesThread(s: State, q: int, t: State)
    requires s.Shape() && s.m.prefixIdx >= 0
  {
    && 0 <= q < |s.threads| && At(s.clocks[q], s.Pid()) <= s.m.prefix[s.m.prefixIdx].index
    && t == SeeClock(s, s.clocks[q])
  }

  /** Each step of a real thread may issue a store, whether it starts an event or continues one. */
  lemma EachStepMayIssue(s: State, n: SleepSets.Moment)
    requires s.Inv() && 0 <= n.prefixIdx < |n.prefix| && n.prefix[n.prefixIdx].pid < |s.threads|
    requires !s.threads[n.prefix[n.prefixIdx].pid].aux
    ensures s.Performed() && Begins(s.m, n) ==> var t := Begin(s, n); t.Inv() && t.m.prefixIdx >= 0 && StepOfCurrent(t, Issue(t))
    ensures s.m.prefixIdx >= 0 && Continued(s.m, n) ==> var t := Continue(s, n); t.Inv() && StepOfCurrent(t, Issue(t))
  {
    if s.Performed() && Begins(s.m, n) {
      BeginKeepsInv(s, n);
    }
    if s.m.prefixIdx >= 0 && Continued(s.m, n) {
      ContinueKeepsInv(s, n);
    }
  }

  lemma CurrentKeepsInv(s: State, t: State)
    requires s.Inv() && s.m.prefixIdx >= 0 && StepOfCurrent(s, t)
    ensures t.Inv()
  {
    if Continued(s.m, t.m) && t == Continue(s, t.m) {
      ContinueKeepsInv(s, t.m);
    } else if k :| SeesEvent(s, k, t) {
      EventClockFits(s, k);
      SeeKeepsInv(s, s.m.prefix[k].clock);
    } else if q :| SeesThread(s, q, t) {
      assert Bounded(s.clocks[q], s.clocks);
      SeeKeepsInv(s, s.clocks[q]);
    } else if q: nat :| q < |s.threads| && t == Tell(s, q) {
      TellKeepsInv(s, q);
    } else if i: nat :| MayUpdate(s, i) && t == Update(s, i) {
      UpdateKeepsInv(s, i);
    } else if !s.threads[s.Pid()].aux && !s.stored && t == Issue(s) {
      IssueKeepsInv(s);
    } else {
      SpawnKeepsInv(s);
    }
  }

  lemma StepKeepsInv(s: State, t: State)
    requires s.Inv() && Step(s, t)
    ensures t.Inv()
  {
    if n :| s.Performed() && BeginsWith(s, n, t) {
      BeginKeepsInv(s, n);
    } else if s.Performed() && |s.source| > 0 && MergedTo(s.m, t.m) && t == Merge(s, t.m) {
      MergeKeepsInv(s, t.m);
    } else if k, p :| RefusedWith(s, k, p, t) {
      BeginInVainKeepsInv(s, k, t.m, p);
    } else if Quiet(s.m, t.m) && t == s.(m := t.m) {
      QuietKeepsInv(s, t.m);
    } else {
      CurrentKeepsInv(s, t);
    }
  }

  ghost predicate Follows(s: State, t: State) {
    s.Shape() && Step(s, t)
  }

  ghost predicate IsRun(run: seq<State>)
    decreases |run|
  {
    var n := |run| - 1;
    n >= 0 && if n == 0 then Init(run[0]) else IsRun(run[..n]) && Follows(run[n - 1], run[n])
  }

  lemma {:induction false} RunHasInv(run: seq<State>)
    requires IsRun(run)
    ensures run[|run| - 1].Inv()
    decreases |run|
  {
    var n := |run| - 1;
    if n == 0 {
      InitHasInv(run[0]);
    } else {
      RunHasInv(run[..n]);
      assert run[..n][n - 1] == run[n - 1];
      FollowsKeepsInv(run[n - 1], run[n]);
    }
  }

  lemma FollowsKeepsInv(s: State, t: State)
    requires s.Inv() && Follows(s, t)
    ensures t.Inv()
  {
    StepKeepsInv(s, t);
  }

  /** After every run the trace is what `ScReplay` takes for granted. */
  lemma TraceOfRunIsValid(run: seq<State>, s: State)
    requires IsRun(run) && s == run[|run| - 1]
    ensures s.Inv() && (s.Performed() ==> View(s).Valid())
  {
    RunHasInv(run);
    if s.Performed() {
      ViewIsValid(s);
    }
  }
}
