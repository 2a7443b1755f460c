/**
 * src/PSOTraceBuilder.cpp: scheduling, dry runs, wake-ups and `reset`, as far as sleep sets are concerned.
 *
 * The set `sleepers` is kept up to date step by step.  It must always agree with `sleep_set_at`, which
 * recomputes the sleep set at an event from the fields recorded in the prefix.
 */
module SleepSets {
  import opened TraceEvents
  import opened VecSets

  /** What `schedule` decides: an ordinary step, a dry run, or nothing left to do. */
  datatype Pick = Step(pid: int) | DryRun(pid: int) | Nothing

  datatype AccessType = R | W | WAllMemory

  /** What a sleeping thread will access next, found by dry running it. */
  datatype NextAccess = NextAccess(readSet: set<int>, writeSet: set<int>, fullConflict: bool)

  const NO_ACCESS := NextAccess({}, {}, false)

  function Elements(s: seq<int>): set<int> {
    set p | p in s
  }

  predicate AllLess(s: seq<int>, p: int) {
    forall q :: q in s ==> q < p
  }

  lemma InAscendingOrder(s: seq<int>, k: int)
    requires Sorted(s) && 0 <= k < |s|
    ensures AllLess(s[..k], s[k])
  {
    InOrder(s);
  }

  /** The steps that thread `p` takes in the first `k` events. */
  function StepsBefore(prefix: seq<Event>, k: int, p: int): nat
    requires 0 <= k <= |prefix|
  {
    if k == 0 then 0
    else StepsBefore(prefix, k - 1, p) + if prefix[k - 1].pid == p then prefix[k - 1].size else 0
  }

  /** What `schedule` and `add_branch` record about event `k`. */
  ghost predicate EventValid(prefix: seq<Event>, k: int)
    requires 0 <= k < |prefix|
  {
    var e := prefix[k];
    && e.size >= 1 && Sorted(e.sleep) && e.index == StepsBefore(prefix, k, e.pid) + 1
    && (!e.mayConflict ==> e.wakeup == {} && (e.sleep == [] ==> e.branch == {}))
    && e.pid !in SleepSetAt(prefix, k)
    && (forall b :: b in e.branch ==> b.alt == 0 && b.pid >= 0 && b.pid != e.pid && b.pid !in SleepSetAt(prefix, k))
  }

  ghost predicate PrefixValid(prefix: seq<Event>) {
    forall k {:trigger EventValid(prefix, k)} :: 0 <= k < |prefix| ==> EventValid(prefix, k)
  }

  /** The recorded fields below `n` decide the sleep sets and steps up to there. */
  lemma {:induction false} SameBelow(p: seq<Event>, q: seq<Event>, n: int, k: int)
    requires 0 <= k <= n <= |p| && n <= |q|
    requires forall j :: 0 <= j < n ==>
      q[j].sleep == p[j].sleep && q[j].wakeup == p[j].wakeup && q[j].pid == p[j].pid && q[j].size == p[j].size
    ensures SleepAfter(q, k) == SleepAfter(p, k)
    ensures k < n ==> SleepSetAt(q, k) == SleepSetAt(p, k)
    ensures forall t :: StepsBefore(q, k, t) == StepsBefore(p, k, t)
    decreases k
  {
    if k > 0 {
      SameBelow(p, q, n, k - 1);
    }
  }

  // ----- One moment of the scheduler ---------------------------------------------------------------------

  /** `woken` are the threads woken since the current event started; `steps` is `threads[p].clock[p]`. */
  datatype Moment = Moment(
    prefix: seq<Event>, prefixIdx: int, drySleepers: nat, replay: bool, sleepers: set<int>,
    steps: map<int, nat>, woken: set<int>)
  {
    function StepsOf(p: int): nat {
      if p in steps then steps[p] else 0
    }

    ghost predicate Shape() {
      && -1 <= prefixIdx < |prefix|
      && (!replay ==> prefixIdx == |prefix| - 1 && drySleepers == 0)
      && (drySleepers > 0 ==> prefixIdx + 1 < |prefix| && drySleepers <= |prefix[prefixIdx + 1].sleep|)
    }

    /** The threads asleep once the current event has woken what it has woken so far. */
    ghost function AfterCurrent(): set<int>
      requires Shape()
    {
      if prefixIdx == -1 then {} else SleepSetAt(prefix, prefixIdx) - woken
    }

    /** The threads that have been dry run for the next event. */
    ghost function GoneToSleep(): set<int>
      requires Shape()
    {
      if drySleepers == 0 then {} else Elements(prefix[prefixIdx + 1].sleep[..drySleepers])
    }

    /** The set kept incrementally is the one that the recorded fields determine. */
    ghost predicate SleepersValid()
      requires Shape()
    {
      && sleepers == AfterCurrent() + GoneToSleep()
      && (prefixIdx == -1 ==> woken == {})
      && (0 <= prefixIdx ==> woken <= prefix[prefixIdx].wakeup)
      && (0 <= prefixIdx == |prefix| - 1 ==> woken == prefix[prefixIdx].wakeup)
    }

    /** How many steps of the current event have been taken. */
    function Progress(): int
      requires Shape() && prefixIdx >= 0
    {
      StepsOf(prefix[prefixIdx].pid) - prefix[prefixIdx].index + 1
    }

    ghost predicate StepsValid()
      requires Shape()
    {
      && (prefixIdx == -1 ==> forall p :: StepsOf(p) == 0)
      && (prefixIdx >= 0 ==>
            && 1 <= Progress() <= prefix[prefixIdx].size
            && (!replay ==> Progress() == prefix[prefixIdx].size)
            && forall p :: p != prefix[prefixIdx].pid ==> StepsOf(p) == StepsBefore(prefix, prefixIdx, p))
    }

    ghost predicate Inv() {
      && Shape() && PrefixValid(prefix) && SleepersValid() && StepsValid()
      && (prefixIdx < |prefix| - 1 ==> prefix[|prefix| - 1].wakeup == {})
    }

    /** The current event has been executed, with the recorded effect on sleeping threads. */
    ghost predicate CurrentDone()
      requires Shape()
    {
      prefixIdx >= 0 ==> Progress() == prefix[prefixIdx].size && woken == prefix[prefixIdx].wakeup
    }
  }

  /** With the current event done, every thread has taken the steps recorded so far. */
  lemma DoneMeansAll(m: Moment)
    requires m.Inv() && m.CurrentDone()
    ensures m.AfterCurrent() == SleepAfter(m.prefix, m.prefixIdx + 1)
    ensures forall p :: m.StepsOf(p) == StepsBefore(m.prefix, m.prefixIdx + 1, p)
  {
    if m.prefixIdx >= 0 { assert EventValid(m.prefix, m.prefixIdx); }
  }

  /** `schedule`, when the next thread to fall asleep is dry run first. */
  lemma DryRunKeepsInv(m: Moment, n: Moment)
    requires m.Inv() && m.CurrentDone() && m.replay && m.prefixIdx + 1 < |m.prefix|
    requires m.drySleepers < |m.prefix[m.prefixIdx + 1].sleep|
    requires n == m.(drySleepers := m.drySleepers + 1,
                     sleepers := m.sleepers + {m.prefix[m.prefixIdx + 1].sleep[m.drySleepers]})
    ensures n.Inv()
  {
    var sleep := m.prefix[m.prefixIdx + 1].sleep;
    assert sleep[..m.drySleepers + 1] == sleep[..m.drySleepers] + [sleep[m.drySleepers]];
    assert n.GoneToSleep() == m.GoneToSleep() + {sleep[m.drySleepers]};
    assert n.AfterCurrent() == m.AfterCurrent();
    assert forall p :: n.StepsOf(p) == m.StepsOf(p);
  }

  /** `schedule`, going to the next event of the prefix: all that fall asleep before it have been dry run. */
  lemma ReplayKeepsInv(m: Moment, n: Moment)
    requires m.Inv() && m.CurrentDone() && m.replay && m.prefixIdx + 1 < |m.prefix|
    requires m.drySleepers == |m.prefix[m.prefixIdx + 1].sleep|
    requires n.prefix == m.prefix && n.prefixIdx == m.prefixIdx + 1 && n.drySleepers == 0 && n.replay
    requires n.woken == {} && n.sleepers == m.sleepers
    requires n.steps == m.steps[m.prefix[n.prefixIdx].pid := m.StepsOf(m.prefix[n.prefixIdx].pid) + 1]
    ensures n.sleepers == SleepSetAt(n.prefix, n.prefixIdx)
    ensures n.Inv()
  {
    DoneMeansAll(m);
    var e := m.prefix[n.prefixIdx];
    assert EventValid(m.prefix, n.prefixIdx);
    assert e.sleep[..|e.sleep|] == e.sleep;
    assert n.Progress() == 1;
    assert forall p :: p != e.pid ==> n.StepsOf(p) == m.StepsOf(p);
  }

  /** `schedule`, continuing the current event of several steps. */
  lemma ContinueKeepsInv(m: Moment, n: Moment)
    requires m.Inv() && m.replay && m.prefixIdx >= 0 && m.Progress() < m.prefix[m.prefixIdx].size
    requires n == m.(steps := m.steps[m.prefix[m.prefixIdx].pid := m.StepsOf(m.prefix[m.prefixIdx].pid) + 1])
    ensures n.Inv()
  {
    assert forall p :: p != m.prefix[m.prefixIdx].pid ==> n.StepsOf(p) == m.StepsOf(p);
    assert n.AfterCurrent() == m.AfterCurrent();
  }

  /** The replay is over once the last event of the prefix is done. */
  lemma EndReplayKeepsInv(m: Moment, n: Moment)
    requires m.Inv() && m.CurrentDone() && m.prefixIdx + 1 == |m.prefix|
    requires n == m.(replay := false)
    ensures n.Inv()
  {
    assert forall p :: n.StepsOf(p) == m.StepsOf(p);
    assert n.AfterCurrent() == m.AfterCurrent();
  }

  function Merge(prefix: seq<Event>): seq<Event>
    requires |prefix| > 1
  {
    var l := |prefix| - 2;
    prefix[..l] + [prefix[l].(size := prefix[l].size + 1)]
  }

  /** The last two events become one; the last one has put nobody to sleep and woken nobody. */
  lemma MergeKeepsInv(m: Moment, n: Moment)
    requires m.Inv() && !m.replay && |m.prefix| > 1
    requires m.prefix[|m.prefix| - 1].pid == m.prefix[|m.prefix| - 2].pid && m.prefix[|m.prefix| - 1].size == 1
    requires !m.prefix[|m.prefix| - 1].mayConflict && m.prefix[|m.prefix| - 1].sleep == []
    requires n == m.(prefix := Merge(m.prefix), prefixIdx := m.prefixIdx - 1, woken := m.prefix[|m.prefix| - 2].wakeup)
    ensures n.Inv() && n.sleepers == m.sleepers
  {
    var l := |m.prefix| - 2;
    assert EventValid(m.prefix, l) && EventValid(m.prefix, l + 1);
    forall k | 0 <= k <= l
      ensures EventValid(n.prefix, k)
    {
      assert EventValid(m.prefix, k);
      SameBelow(m.prefix, n.prefix, l, k);
    }
    SameBelow(m.prefix, n.prefix, l, l);
    var last := m.prefix[l + 1].sleep;
    assert (set p | p in last) == {};
    assert SleepSetAt(m.prefix, l + 1) == SleepSetAt(n.prefix, l) - m.prefix[l].wakeup;
    forall p
      ensures n.StepsOf(p) == m.StepsOf(p)
      ensures p != m.prefix[l].pid ==> StepsBefore(m.prefix, l + 1, p) == StepsBefore(n.prefix, l, p)
    {
    }
  }

  /** A new event for a thread that is awake. */
  lemma NewKeepsInv(m: Moment, n: Moment, e: Event)
    requires m.Inv() && !m.replay && e.pid !in m.sleepers
    requires e.index == m.StepsOf(e.pid) + 1 && e.size == 1 && e.branch == {} && e.sleep == [] && e.wakeup == {}
    requires n == m.(prefix := m.prefix + [e], prefixIdx := m.prefixIdx + 1, woken := {}, steps := m.steps[e.pid := e.index])
    ensures n.Inv() && n.sleepers == SleepSetAt(n.prefix, n.prefixIdx)
  {
    DoneMeansAll(m);
    var i := n.prefixIdx;
    SameBelow(m.prefix, n.prefix, i, i);
    forall k | 0 <= k <= i
      ensures EventValid(n.prefix, k)
    {
      SameBelow(m.prefix, n.prefix, i, k);
      if k < i { assert EventValid(m.prefix, k); }
    }
    assert forall p :: p != e.pid ==> n.StepsOf(p) == m.StepsOf(p);
  }

  /** `refuse_schedule` takes the new event back. */
  lemma RefuseKeepsInv(m: Moment, n: Moment, p: int)
    requires m.Inv() && !m.replay && m.prefixIdx >= 0
    requires m.prefix[m.prefixIdx].size == 1 && !m.prefix[m.prefixIdx].mayConflict && m.prefix[m.prefixIdx].sleep == []
    requires p == m.prefix[m.prefixIdx].pid && m.StepsOf(p) >= 1
    requires n == m.(prefix := m.prefix[..m.prefixIdx], prefixIdx := m.prefixIdx - 1, steps := m.steps[p := m.StepsOf(p) - 1],
                     woken := if m.prefixIdx == 0 then {} else m.prefix[m.prefixIdx - 1].wakeup)
    ensures n.Inv() && n.sleepers == m.sleepers
  {
    var i := m.prefixIdx;
    var e := m.prefix[i];
    assert EventValid(m.prefix, i);
    forall k | 0 <= k < i
      ensures EventValid(n.prefix, k)
    {
      assert EventValid(m.prefix, k);
      SameBelow(m.prefix, n.prefix, i, k);
    }
    SameBelow(m.prefix, n.prefix, i, i);
    var sleep := e.sleep;
    assert (set t | t in sleep) == {};
    assert m.sleepers == SleepAfter(n.prefix, i);
    forall t
      ensures n.StepsOf(t) == StepsBefore(n.prefix, i, t)
    {
      if t == e.pid {
        assert m.StepsOf(t) == e.index;
      }
    }
    if i > 0 {
      assert EventValid(n.prefix, i - 1);
    }
  }

  /** More recorded wake-ups can only shrink the sleep sets that follow. */
  lemma {:induction false} WakeupShrinks(p: seq<Event>, q: seq<Event>, k: int)
    requires |p| == |q| && 0 <= k < |p|
    requires forall j :: 0 <= j < |p| ==> q[j].sleep == p[j].sleep && p[j].wakeup <= q[j].wakeup
    ensures SleepSetAt(q, k) <= SleepSetAt(p, k)
    decreases k
  {
    if k > 0 {
      WakeupShrinks(p, q, k - 1);
    }
  }

  function Wake(prefix: seq<Event>, i: int, woken: set<int>): seq<Event>
    requires 0 <= i < |prefix|
  {
    prefix[i := prefix[i].(wakeup := prefix[i].wakeup + woken)]
  }

  /** Sleeping threads are woken by the current event. */
  lemma WakeKeepsInv(m: Moment, n: Moment, w: set<int>)
    requires m.Inv() && m.prefixIdx >= 0 && m.drySleepers == 0 && w <= m.sleepers
    requires m.prefix[m.prefixIdx].mayConflict
    requires n == m.(prefix := Wake(m.prefix, m.prefixIdx, w), sleepers := m.sleepers - w, woken := m.woken + w)
    ensures n.Inv()
  {
    var i := m.prefixIdx;
    forall k | 0 <= k < |n.prefix|
      ensures EventValid(n.prefix, k)
    {
      assert EventValid(m.prefix, k);
      WakeupShrinks(m.prefix, n.prefix, k);
      StepsIgnoreWakeups(m.prefix, n.prefix, k);
    }
    SameBelow(m.prefix, n.prefix, i, i);
    assert SleepSetAt(n.prefix, i) == SleepSetAt(m.prefix, i);
    assert forall p :: n.StepsOf(p) == m.StepsOf(p);
    StepsIgnoreWakeups(m.prefix, n.prefix, i);
  }

  lemma {:induction false} StepsIgnoreWakeups(p: seq<Event>, q: seq<Event>, k: int)
    requires |p| == |q| && 0 <= k <= |p|
    requires forall j :: 0 <= j < |p| ==> q[j].pid == p[j].pid && q[j].size == p[j].size
    ensures forall t :: StepsBefore(q, k, t) == StepsBefore(p, k, t)
    decreases k
  {
    if k > 0 {
      StepsIgnoreWakeups(p, q, k - 1);
    }
  }

  /** A branch for a thread that neither runs nor sleeps at event `i`, as `add_branch` chooses it. */
  lemma BranchKeepsInv(m: Moment, n: Moment, i: int, pid: int)
    requires m.Inv() && 0 <= i < |m.prefix| && m.prefix[i].mayConflict
    requires pid >= 0 && pid != m.prefix[i].pid && pid !in SleepSetAt(m.prefix, i)
    requires n == m.(prefix := m.prefix[i := m.prefix[i].(branch := m.prefix[i].branch + {Branch(pid, 0)})])
    ensures n.Inv()
  {
    assert SameButBranches(m.prefix, n.prefix);
    forall k | 0 <= k < |n.prefix|
      ensures EventValid(n.prefix, k) && SleepSetAt(n.prefix, k) == SleepSetAt(m.prefix, k)
    {
      assert EventValid(m.prefix, k);
      BranchesDoNotSleep(m.prefix, n.prefix, k);
      StepsIgnoreWakeups(m.prefix, n.prefix, k);
    }
    assert forall p :: n.StepsOf(p) == m.StepsOf(p);
    if m.prefixIdx >= 0 { StepsIgnoreWakeups(m.prefix, n.prefix, m.prefixIdx); }
  }

  // ----- Backtracking ------------------------------------------------------------------------------------

  /** The event that `schedule` appends. */
  function NewEvent(pid: nat, index: nat): Event {
    Event(pid, index, 1, 0, [], false, {}, [], {})
  }

  /** Thread `p` is the first in the list that is not asleep. */
  ghost predicate FirstAwake(ready: seq<nat>, sleepers: set<int>, p: int) {
    exists k :: 0 <= k < |ready| && ready[k] == p && p !in sleepers && forall l :: 0 <= l < k ==> ready[l] in sleepers
  }

  /** The event that `reset` puts in place of event `i`, to try branch `br`. */
  function BranchEvent(prefix: seq<Event>, i: int, br: Branch, index: nat): Event
    requires 0 <= i < |prefix| && br.pid >= 0
  {
    var e := prefix[i];
    Event(br.pid, index, 1, br.alt, [], false, e.branch - {br},
          if br.pid == e.pid then e.sleep else Inserted(e.sleep, e.pid), {})
  }

  /** The part of `reset` that sets up the new event. */
  method SetUp(prefix: seq<Event>, i: int, br: Branch, index: nat) returns (e: Event)
    requires 0 <= i < |prefix| && br.pid >= 0 && Sorted(prefix[i].sleep)
    ensures e == BranchEvent(prefix, i, br, index)
  {
    e := Event(br.pid, index, 1, br.alt, [], false, prefix[i].branch - {br}, prefix[i].sleep, {});
    if br.pid != prefix[i].pid {
      var sleep, isNew := Insert(e.sleep, prefix[i].pid);
      e := e.(sleep := sleep);
    }
  }

  lemma MayBranch(prefix: seq<Event>, i: int, br: Branch)
    requires PrefixValid(prefix) && 0 <= i < |prefix| && br in prefix[i].branch
    ensures br.pid >= 0 && Sorted(prefix[i].sleep)
  {
    assert EventValid(prefix, i);
  }

  /** The sleep set at the end of `trace` when the thread tried before joins the sleepers of `prefix[i]`. */
  lemma BranchEventSleeps(prefix: seq<Event>, i: int, e: Event, trace: seq<Event>)
    requires 0 <= i < |prefix| && trace == prefix[..i] + [e] && e.sleep == Inserted(prefix[i].sleep, prefix[i].pid)
    ensures SleepSetAt(trace, i) == SleepSetAt(prefix, i) + {prefix[i].pid}
    ensures forall t :: StepsBefore(trace, i, t) == StepsBefore(prefix, i, t)
  {
    SameBelow(prefix, trace, i, i);
    InsertedElements(prefix[i].sleep, prefix[i].pid);
    assert trace[i] == e;
  }

  lemma InsertedElements(s: seq<int>, t: int)
    ensures (set p | p in Inserted(s, t)) == (set p | p in s) + {t}
  {
  }

  lemma BranchEventIsValid(prefix: seq<Event>, i: int, br: Branch, e: Event, trace: seq<Event>)
    requires 0 <= i < |prefix| && EventValid(prefix, i) && br in prefix[i].branch && br.pid >= 0
    requires e == BranchEvent(prefix, i, br, StepsBefore(prefix, i, br.pid) + 1) && trace == prefix[..i] + [e]
    ensures EventValid(trace, i) && SleepSetAt(trace, i) == SleepSetAt(prefix, i) + {prefix[i].pid} && br.pid !in SleepSetAt(trace, i)
  {
    var was := prefix[i];
    assert e.sleep == Inserted(was.sleep, was.pid) && was.pid in e.sleep;
    BranchEventSleeps(prefix, i, e, trace);
    assert trace[i] == e && e.pid == br.pid;
    forall b | b in e.branch
      ensures b.alt == 0 && b.pid >= 0 && b.pid != e.pid && b.pid !in SleepSetAt(trace, i)
    {
      assert b in was.branch && b != br;
    }
  }

  lemma BelowStaysValid(prefix: seq<Event>, trace: seq<Event>, i: int, k: int)
    requires 0 <= k < i < |prefix| && i <= |trace| && trace[..i] == prefix[..i] && EventValid(prefix, k)
    ensures EventValid(trace, k)
  {
    assert forall j :: 0 <= j < i ==> trace[..i][j] == trace[j] && prefix[..i][j] == prefix[j];
    SameBelow(prefix, trace, i, k);
  }

  lemma BranchTraceIsValid(prefix: seq<Event>, i: int, br: Branch, trace: seq<Event>)
    requires PrefixValid(prefix) && 0 <= i < |prefix| && br in prefix[i].branch && br.pid >= 0
    requires trace == prefix[..i] + [BranchEvent(prefix, i, br, StepsBefore(prefix, i, br.pid) + 1)]
    ensures PrefixValid(trace) && SleepSetAt(trace, i) == SleepSetAt(prefix, i) + {prefix[i].pid} && br.pid !in SleepSetAt(trace, i)
  {
    assert EventValid(prefix, i);
    BranchEventIsValid(prefix, i, br, trace[i], trace);
    forall k | 0 <= k < i
      ensures EventValid(trace, k)
    {
      assert EventValid(prefix, k);
      BelowStaysValid(prefix, trace, i, k);
    }
  }

  /** After `reset` the threads tried before at event `i` are asleep there, and the new one is not. */
  lemma ResetKeepsInv(prefix: seq<Event>, i: int, br: Branch, n: Moment)
    requires PrefixValid(prefix) && 0 <= i < |prefix| && br in prefix[i].branch && br.pid >= 0
    requires n == Moment(prefix[..i] + [BranchEvent(prefix, i, br, StepsBefore(prefix, i, br.pid) + 1)], -1, 0, true, {}, map[], {})
    ensures n.Inv()
    ensures SleepSetAt(n.prefix, i) == SleepSetAt(prefix, i) + {prefix[i].pid}
    ensures br.pid !in SleepSetAt(n.prefix, i)
  {
    BranchTraceIsValid(prefix, i, br, n.prefix);
    assert n.AfterCurrent() == {} && n.GoneToSleep() == {};
  }

  // ----- Waking sleeping threads -------------------------------------------------------------------------

  /** A sleeping thread: its process, the bytes it has stores pending to, and its next access. */
  datatype Sleeper = Sleeper(proc: int, pending: set<int>, next: NextAccess)

  function NextOf(next: map<int, NextAccess>, p: int): NextAccess {
    if p in next then next[p] else NO_ACCESS
  }

  /** The accesses of threads that are awake are unknown. */
  ghost predicate OnlySleepersWait(next: map<int, NextAccess>, sleepers: set<int>) {
    forall p {:trigger NextOf(next, p)} :: p !in sleepers ==> NextOf(next, p) == NO_ACCESS
  }

  lemma NoteKeepsWaiting(next: map<int, NextAccess>, sleepers: set<int>, p: int, a: NextAccess)
    requires OnlySleepersWait(next, sleepers) && p in sleepers
    ensures OnlySleepersWait(next[p := a], sleepers)
  {
    forall q | q !in sleepers
      ensures NextOf(next[p := a], q) == NO_ACCESS
    {
      assert NextOf(next, q) == NO_ACCESS;
    }
  }

  lemma WakeKeepsWaiting(next: map<int, NextAccess>, sleepers: set<int>, w: set<int>)
    requires OnlySleepersWait(next, sleepers)
    ensures OnlySleepersWait(next - w, sleepers - w)
    ensures forall p :: NextOf(next - w, p) == if p in sleepers - w then NextOf(next, p) else NO_ACCESS
  {
    forall q
      ensures NextOf(next - w, q) == if q in sleepers - w then NextOf(next, q) else NO_ACCESS
    {
      assert q !in sleepers ==> NextOf(next, q) == NO_ACCESS;
    }
  }

  /** The three tests of `wakeup`. */
  predicate Wakes(t: AccessType, ml: int, proc: int, s: Sleeper) {
    match t
    case WAllMemory => s.next.fullConflict || s.next.writeSet != {} || exists b :: b in s.next.readSet && b !in s.pending
    case R => s.next.fullConflict || (s.proc != proc && ml in s.next.writeSet)
    case W =>
      s.next.fullConflict || (s.proc != proc && (ml in s.next.writeSet || (ml in s.next.readSet && ml !in s.pending)))
  }

  /** The bytes that an access reads or writes. */
  ghost predicate Touches(t: AccessType, ml: int, b: int) {
    t.WAllMemory? || b == ml
  }

  /** The bytes that a sleeper's next access takes from memory, not from its own store buffer. */
  ghost function MemoryReads(s: Sleeper): set<int> {
    s.next.readSet - s.pending
  }

  /**
   * A sleeper is woken exactly when the two accesses conflict: they touch a common byte of memory, one of
   * them writes it, and they are not of the same process (a full memory access conflicts with everybody).
   */
  lemma WakesOnConflict(t: AccessType, ml: int, proc: int, s: Sleeper)
    ensures Wakes(t, ml, proc, s) <==>
      s.next.fullConflict ||
      ((t.WAllMemory? || s.proc != proc) &&
       exists b :: Touches(t, ml, b) && (b in s.next.writeSet || (!t.R? && b in MemoryReads(s))))
  {
    if b :| b in s.next.writeSet {
      assert Touches(WAllMemory, ml, b);
    } else {
      assert forall b :: b !in s.next.writeSet;
    }
    if b :| b in s.next.readSet && b !in s.pending {
      assert b in MemoryReads(s);
    }
    assert Touches(t, ml, ml);
  }

  // ----- The scheduler -----------------------------------------------------------------------------------

  /** The test of `schedule` for merging event `k` into the one before. */
  predicate CouldMerge(prefix: seq<Event>, k: int)
    requires 0 < k < |prefix|
  {
    prefix[k].pid == prefix[k - 1].pid && !prefix[k].mayConflict && prefix[k].sleep == []
  }

  /** Only a last event of one step may still be merged: all others have been. */
  ghost predicate Merged(prefix: seq<Event>) {
    forall k {:trigger CouldMerge(prefix, k)} ::
      0 < k < |prefix| && (k < |prefix| - 1 || prefix[k].size > 1) ==> !CouldMerge(prefix, k)
  }

  /** Event `e` with `n` steps. */
  ghost predicate SameButSize(e: Event, f: Event, n: nat) {
    && f.size == n && f.pid == e.pid && f.index == e.index && f.alt == e.alt && f.clock == e.clock
    && f.mayConflict == e.mayConflict && f.branch == e.branch && f.sleep == e.sleep && f.wakeup == e.wakeup
  }

  /**
   * What `schedule` does to the last two events: they become one, of one step more and otherwise the earlier one,
   * exactly if they are of the same thread and the last one cannot conflict and puts nobody to sleep.
   */
  ghost predicate LastMerged(p: seq<Event>, q: seq<Event>) {
    var n := |p|;
    if n > 1 && p[n - 1].pid == p[n - 2].pid && !p[n - 1].mayConflict && p[n - 1].sleep == []
    then |q| == n - 1 && q[..n - 2] == p[..n - 2] && SameButSize(p[n - 2], q[n - 2], p[n - 2].size + 1)
    else q == p
  }

  /** A new event of one step: nothing is known of it, and nobody sleeps, wakes or is to be tried. */
  ghost predicate IsNewEvent(e: Event, pid: int, index: nat) {
    && e.pid == pid && e.index == index && e.size == 1 && e.alt == 0 && !e.mayConflict
    && e.branch == {} && e.sleep == [] && e.wakeup == {}
  }

  /** The trace after `schedule` has started a new event for thread `pid`. */
  ghost predicate NewEventAdded(p: seq<Event>, q: seq<Event>, pid: int, index: nat) {
    |q| > 0 && LastMerged(p, q[..|q| - 1]) && IsNewEvent(q[|q| - 1], pid, index)
  }

  lemma MergeKeepsMerged(p: seq<Event>)
    requires Merged(p) && |p| > 1
    ensures Merged(Merge(p))
    ensures |p| > 2 ==> !CouldMerge(Merge(p), |p| - 2)
  {
    var q := Merge(p);
    forall k | 0 < k < |q|
      ensures !CouldMerge(q, k)
    {
      assert !CouldMerge(p, k);
    }
  }

  lemma AppendKeepsMerged(p: seq<Event>, e: Event)
    requires Merged(p) && e.size == 1
    requires |p| > 1 ==> !CouldMerge(p, |p| - 1)
    ensures Merged(p + [e])
  {
    var q := p + [e];
    forall k | 0 < k < |q| && (k < |q| - 1 || q[k].size > 1)
      ensures !CouldMerge(q, k)
    {
      assert !CouldMerge(p, k);
    }
  }

  lemma CutKeepsMerged(p: seq<Event>, i: int)
    requires Merged(p) && 0 <= i < |p|
    ensures Merged(p[..i])
    ensures i > 1 ==> !CouldMerge(p[..i], i - 1)
  {
    var q := p[..i];
    forall k | 0 < k < |q|
      ensures !CouldMerge(q, k)
    {
      assert !CouldMerge(p, k);
    }
  }

  lemma SetKeepsMerged(p: seq<Event>, i: int, e: Event)
    requires Merged(p) && 0 <= i < |p|
    requires e.pid == p[i].pid && e.sleep == p[i].sleep && e.size == p[i].size && (p[i].mayConflict ==> e.mayConflict)
    ensures Merged(p[i := e])
  {
    var q := p[i := e];
    forall k | 0 < k < |q| && (k < |q| - 1 || q[k].size > 1)
      ensures !CouldMerge(q, k)
    {
      assert !CouldMerge(p, k);
    }
  }

  lemma MarkKeepsInv(m: Moment, n: Moment)
    requires m.Inv() && m.prefixIdx >= 0
    requires n == m.(prefix := m.prefix[m.prefixIdx := m.prefix[m.prefixIdx].(mayConflict := true)])
    ensures n.Inv()
  {
    forall k | 0 <= k < |n.prefix|
      ensures EventValid(n.prefix, k) && SleepSetAt(n.prefix, k) == SleepSetAt(m.prefix, k)
    {
      assert EventValid(m.prefix, k);
      SameBelow(m.prefix, n.prefix, |m.prefix|, k);
    }
    assert forall p :: n.StepsOf(p) == m.StepsOf(p);
    SameBelow(m.prefix, n.prefix, |m.prefix|, m.prefixIdx);
  }

  predicate BranchBelow(b: Branch, c: Branch) {
    b.pid < c.pid || (b.pid == c.pid && b.alt < c.alt)
  }

  ghost predicate IsLeast(b: Branch, s: set<Branch>) {
    b in s && forall c :: c in s ==> c == b || BranchBelow(b, c)
  }

  lemma {:induction false} LeastExists(s: set<Branch>)
    requires s != {}
    ensures exists b :: IsLeast(b, s)
    decreases s
  {
    var x :| x in s;
    if s - {x} == {} {
      assert s == {x};
      assert IsLeast(x, s);
    } else {
      LeastExists(s - {x});
      var b :| IsLeast(b, s - {x});
      assert forall c :: c in s ==> c == x || c in s - {x};
      if BranchBelow(x, b) {
        assert IsLeast(x, s);
      } else {
        assert IsLeast(b, s);
      }
    }
  }

  lemma {:induction false} NoStepsBetween(prefix: seq<Event>, j: int, k: int, p: int)
    requires 0 <= j <= k <= |prefix|
    requires forall l :: j <= l < k ==> prefix[l].pid != p
    ensures StepsBefore(prefix, k, p) == StepsBefore(prefix, j, p)
    decreases k
  {
    if j < k {
      NoStepsBetween(prefix, j, k - 1, p);
    }
  }

  /** The number of the next step of thread `p` at event `i`, found by searching backwards. */
  method NextIndex(prefix: seq<Event>, i: int, p: int) returns (index: nat)
    requires PrefixValid(prefix) && 0 <= i < |prefix|
    ensures index == StepsBefore(prefix, i, p) + 1
  {
    index := 1;
    var j := i - 1;
    while index == 1 && 0 <= j
      invariant -1 <= j < i
      invariant index == 1 ==> forall l :: j < l < i ==> prefix[l].pid != p
      invariant index != 1 ==> index == StepsBefore(prefix, i, p) + 1
    {
      if prefix[j].pid == p {
        assert EventValid(prefix, j);
        NoStepsBetween(prefix, j + 1, i, p);
        index := prefix[j].index + prefix[j].size;
      }
      j := j - 1;
    }
    if index == 1 {
      NoStepsBetween(prefix, 0, i, p);
    }
  }

  lemma ResetKeepsMerged(p: seq<Event>, i: int, e: Event)
    requires Merged(p) && 0 <= i < |p| && e.size == 1
    ensures Merged(p[..i] + [e])
  {
    var q := p[..i] + [e];
    forall k | 0 < k < |q| && (k < |q| - 1 || q[k].size > 1)
      ensures !CouldMerge(q, k)
    {
      assert !CouldMerge(p, k);
    }
  }

  /** The trace to explore after `p`: the last event of `q` is a branch recorded at the same place. */
  ghost predicate WasReset(p: seq<Event>, q: seq<Event>)
    requires 0 < |q| <= |p|
  {
    var i := |q| - 1;
    && q[..i] == p[..i] && Branch(q[i].pid, q[i].alt) in p[i].branch
    && (forall c :: c in p[i].branch ==> q[i].pid < c.pid || (q[i].pid == c.pid && q[i].alt <= c.alt))
    && q[i].branch == p[i].branch - {Branch(q[i].pid, q[i].alt)}
    && q[i].index == StepsBefore(p, i, q[i].pid) + 1 && q[i].size == 1 && q[i].wakeup == {} && !q[i].mayConflict
    && Sorted(q[i].sleep) && (forall t :: t in q[i].sleep <==> t in p[i].sleep || t == p[i].pid)
    && SleepSetAt(q, i) == SleepSetAt(p, i) + {p[i].pid}
    && q[i].pid !in SleepSetAt(q, i)
  }

  lemma ResetTakesBranch(p: seq<Event>, i: int, br: Branch, q: seq<Event>)
    requires PrefixValid(p) && Merged(p) && 0 <= i < |p| && IsLeast(br, p[i].branch) && br.pid >= 0
    requires q == p[..i] + [BranchEvent(p, i, br, StepsBefore(p, i, br.pid) + 1)]
    ensures Merged(q) && WasReset(p, q) && Moment(q, -1, 0, true, {}, map[], {}).Inv()
  {
    ResetKeepsMerged(p, i, q[i]);
    ResetKeepsInv(p, i, br, Moment(q, -1, 0, true, {}, map[], {}));
    assert q[..i] == p[..i];
    MayBranch(p, i, br);
    assert EventValid(p, i) && br.pid != p[i].pid;
  }

  /** The last event with an untried branch, or -1. */
  method LastBranching(prefix: seq<Event>) returns (i: int)
    ensures -1 <= i < |prefix| && (i >= 0 ==> prefix[i].branch != {})
    ensures forall k :: i < k < |prefix| ==> prefix[k].branch == {}
  {
    i := |prefix| - 1;
    while 0 <= i && prefix[i].branch == {}
      invariant -1 <= i < |prefix| && forall k :: i < k < |prefix| ==> prefix[k].branch == {}
    {
      i := i - 1;
    }
  }

  /** The threads asleep, and what `is_replaying` and `schedule` need to know. */
  class Scheduler {
    var prefix: seq<Event>
    var prefixIdx: int
    var drySleepers: nat
    var dryrun: bool
    var replay: bool
    var sleepers: set<int>
    var steps: map<int, nat>
    var next: map<int, NextAccess>
    ghost var woken: set<int>

    ghost function Now(): Moment
      reads this
    {
      Moment(prefix, prefixIdx, drySleepers, replay, sleepers, steps, woken)
    }

    ghost predicate Valid()
      reads this
    {
      && Now().Inv() && Merged(prefix)
      && (dryrun <==> drySleepers > 0) && (dryrun ==> !Unfinished())
      && OnlySleepersWait(next, sleepers)
    }

    function StepsOf(p: int): nat
      reads this
    {
      if p in steps then steps[p] else 0
    }

    /** The current event still has steps to replay. */
    predicate Unfinished()
      reads this
      requires -1 <= prefixIdx < |prefix|
    {
      0 <= prefixIdx && StepsOf(prefix[prefixIdx].pid) < prefix[prefixIdx].index + prefix[prefixIdx].size - 1
    }

    constructor ()
      ensures Valid() && prefix == [] && !replay && sleepers == {}
    {
      prefix, prefixIdx, drySleepers, dryrun, replay := [], -1, 0, false, false;
      sleepers, steps, next, woken := {}, map[], map[], {};
    }

    /** Continue the current event. */
    method Continue() returns (pid: int)
      requires Valid() && replay && Unfinished()
      modifies this`steps, this`dryrun
      ensures Valid() && !dryrun && pid == prefix[prefixIdx].pid
      ensures steps == old(steps)[pid := old(StepsOf(pid)) + 1]
    {
      ghost var was := Now();
      dryrun := false;
      pid := prefix[prefixIdx].pid;
      steps := steps[pid := StepsOf(pid) + 1];
      ContinueKeepsInv(was, Now());
    }

    /** Put the next thread to sleep that does so before the next event. */
    method FallAsleep() returns (pid: int)
      requires Valid() && replay && !Unfinished() && prefixIdx + 1 < |prefix| && Now().CurrentDone()
      requires drySleepers < |prefix[prefixIdx + 1].sleep|
      modifies this`drySleepers, this`sleepers, this`dryrun
      ensures Valid() && dryrun && drySleepers == old(drySleepers) + 1
      ensures pid == prefix[prefixIdx + 1].sleep[old(drySleepers)] && sleepers == old(sleepers) + {pid}
      ensures AllLess(prefix[prefixIdx + 1].sleep[..old(drySleepers)], pid)
    {
      ghost var was := Now();
      pid := prefix[prefixIdx + 1].sleep[drySleepers];
      drySleepers := drySleepers + 1;
      sleepers := sleepers + {pid};
      dryrun := true;
      assert EventValid(prefix, prefixIdx + 1);
      InAscendingOrder(prefix[prefixIdx + 1].sleep, drySleepers - 1);
      DryRunKeepsInv(was, Now());
    }

    /** Start the next recorded event. */
    method Replay() returns (pid: int)
      requires Valid() && replay && !Unfinished() && prefixIdx + 1 < |prefix| && Now().CurrentDone()
      requires drySleepers == |prefix[prefixIdx + 1].sleep|
      modifies this`drySleepers, this`prefixIdx, this`steps, this`woken, this`dryrun
      ensures Valid() && !dryrun && prefixIdx == old(prefixIdx) + 1 && drySleepers == 0 && woken == {}
      ensures pid == prefix[prefixIdx].pid && steps == old(steps)[pid := old(StepsOf(pid)) + 1]
      ensures sleepers == SleepSetAt(prefix, prefixIdx)
    {
      ghost var was := Now();
      dryrun := false;
      drySleepers := 0;
      prefixIdx := prefixIdx + 1;
      pid := prefix[prefixIdx].pid;
      steps := steps[pid := StepsOf(pid) + 1];
      woken := {};
      ReplayKeepsInv(was, Now());
    }

    /** Merge the last two events if the last one cannot matter to any other thread. */
    method MergeLast()
      requires Valid() && !replay && !dryrun
      modifies this`prefix, this`prefixIdx, this`woken
      ensures Valid() && LastMerged(old(prefix), prefix)
      ensures |prefix| > 1 ==> !CouldMerge(prefix, |prefix| - 1)
    {
      if |prefix| > 1 && CouldMerge(prefix, |prefix| - 1) {
        ghost var was := Now();
        assert prefix[|prefix| - 1].size == 1 by { assert EventValid(prefix, |prefix| - 1); }
        MergeKeepsMerged(prefix);
        var l := |prefix| - 2;
        prefix := prefix[..l] + [prefix[l].(size := prefix[l].size + 1)];
        prefixIdx := prefixIdx - 1;
        woken := prefix[prefixIdx].wakeup;
        MergeKeepsInv(was, Now());
      }
    }

    /** Start a new event for the first of the ready threads that is awake. */
    method Extend(ready: seq<nat>) returns (pick: Pick)
      requires Valid() && !replay && !dryrun && (|prefix| > 1 ==> !CouldMerge(prefix, |prefix| - 1))
      modifies this`prefix, this`prefixIdx, this`steps, this`woken
      ensures Valid() && !pick.DryRun?
      ensures pick.Nothing? ==> prefix == old(prefix) && forall p :: p in ready ==> p in sleepers
      ensures pick.Step? ==> FirstAwake(ready, sleepers, pick.pid) && prefixIdx == |old(prefix)|
      ensures pick.Step? ==> |prefix| == |old(prefix)| + 1 && prefix[..|old(prefix)|] == old(prefix)
      ensures pick.Step? ==> IsNewEvent(prefix[prefixIdx], pick.pid, old(StepsOf(pick.pid)) + 1)
      ensures steps == if pick.Step? then old(steps)[pick.pid := old(StepsOf(pick.pid)) + 1] else old(steps)
      ensures pick.Step? ==> woken == {} && sleepers == SleepSetAt(prefix, prefixIdx)
    {
      var k := 0;
      while k < |ready| && ready[k] in sleepers
        invariant 0 <= k <= |ready| && forall l :: 0 <= l < k ==> ready[l] in sleepers
      {
        k := k + 1;
      }
      if k == |ready| {
        return Nothing;
      }
      ghost var was := Now();
      var e := NewEvent(ready[k], StepsOf(ready[k]) + 1);
      AppendKeepsMerged(prefix, e);
      prefixIdx := prefixIdx + 1;
      prefix := prefix + [e];
      steps := steps[e.pid := e.index];
      woken := {};
      NewKeepsInv(was, Now(), e);
      return Step(ready[k]);
    }

    /** `schedule` in a replay. */
    method ScheduleReplay() returns (pick: Pick)
      requires Valid() && replay && (Unfinished() || Now().CurrentDone())
      modifies this`prefixIdx, this`drySleepers, this`dryrun, this`replay, this`sleepers, this`steps, this`woken
      ensures Valid() && (dryrun <==> pick.DryRun?)
      ensures pick == old(ReplayPick())
      ensures sleepers == if pick.DryRun? then old(sleepers) + {pick.pid} else old(sleepers)
      ensures prefixIdx == if pick.Step? && !old(Unfinished()) then old(prefixIdx) + 1 else old(prefixIdx)
      ensures pick.Step? ==> steps == old(steps)[pick.pid := old(StepsOf(pick.pid)) + 1]
      ensures !pick.Step? ==> steps == old(steps)
      ensures pick.Step? && !old(Unfinished()) ==> woken == {} && sleepers == SleepSetAt(prefix, prefixIdx)
      ensures replay <==> !pick.Nothing?
    {
      if Unfinished() {
        var p := Continue();
        return Step(p);
      } else if prefixIdx + 1 == |prefix| {
        ghost var was := Now();
        dryrun := false;
        replay := false;
        EndReplayKeepsInv(was, Now());
        return Nothing;
      } else if drySleepers < |prefix[prefixIdx + 1].sleep| {
        var p := FallAsleep();
        return DryRun(p);
      } else {
        var p := Replay();
        return Step(p);
      }
    }

    /** What the recorded prefix says is next: `Nothing` when the replay is over. */
    function ReplayPick(): Pick
      reads this
      requires -1 <= prefixIdx < |prefix|
    {
      if Unfinished() then Step(prefix[prefixIdx].pid)
      else if prefixIdx + 1 == |prefix| then Nothing
      else if drySleepers < |prefix[prefixIdx + 1].sleep| then DryRun(prefix[prefixIdx + 1].sleep[drySleepers])
      else Step(prefix[prefixIdx + 1].pid)
    }

    /** `schedule` when there is nothing to replay. */
    method ScheduleNew(ready: seq<nat>) returns (pick: Pick)
      requires Valid() && !replay && !dryrun
      modifies this`prefix, this`prefixIdx, this`steps, this`woken
      ensures Valid() && !pick.DryRun?
      ensures pick.Nothing? ==> LastMerged(old(prefix), prefix) && forall p :: p in ready ==> p in sleepers
      ensures pick.Step? ==> FirstAwake(ready, sleepers, pick.pid) && prefixIdx >= 0
      ensures pick.Step? ==> NewEventAdded(old(prefix), prefix, pick.pid, old(StepsOf(pick.pid)) + 1)
      ensures steps == if pick.Step? then old(steps)[pick.pid := old(StepsOf(pick.pid)) + 1] else old(steps)
      ensures pick.Step? ==> woken == {} && sleepers == SleepSetAt(prefix, prefixIdx)
    {
      MergeLast();
      pick := Extend(ready);
    }

    /**
     * `schedule`.  The threads that could run, in order of priority, are given.  In a replay the current
     * event must have woken what it is recorded to wake by the time the scheduler leaves it.
     */
    method Schedule(ready: seq<nat>) returns (pick: Pick)
      requires Valid() && (replay ==> Unfinished() || Now().CurrentDone())
      modifies this`prefix, this`prefixIdx, this`drySleepers, this`dryrun, this`replay, this`sleepers, this`steps, this`woken
      ensures Valid() && (dryrun <==> pick.DryRun?)
      ensures replay ==> pick == old(ReplayPick()) && prefix == old(prefix)
      ensures !replay && pick.Step? ==> pick.pid >= 0 && FirstAwake(ready, sleepers, pick.pid)
      ensures !replay && pick.Step? ==> NewEventAdded(old(prefix), prefix, pick.pid, old(StepsOf(pick.pid)) + 1)
      ensures !replay && !pick.Step? ==> LastMerged(old(prefix), prefix) && forall p :: p in ready ==> p in sleepers
      ensures sleepers == if pick.DryRun? then old(sleepers) + {pick.pid} else old(sleepers)
      ensures pick.Step? ==> 0 <= prefixIdx < |prefix|
      ensures steps == if pick.Step? then old(steps)[pick.pid := old(StepsOf(pick.pid)) + 1] else old(steps)
      ensures replay ==> prefixIdx == if pick.Step? && !old(Unfinished()) then old(prefixIdx) + 1 else old(prefixIdx)
      ensures pick.Step? && !(replay && old(Unfinished())) ==> woken == {} && sleepers == SleepSetAt(prefix, prefixIdx)
    {
      if replay {
        pick := ScheduleReplay();
        if !pick.Nothing? {
          return;
        }
      }
      pick := ScheduleNew(ready);
    }

    /** `refuse_schedule`: the step just scheduled cannot be taken after all. */
    method RefuseSchedule()
      requires Valid() && !replay && prefixIdx >= 0
      requires prefix[prefixIdx].size == 1 && !prefix[prefixIdx].mayConflict && prefix[prefixIdx].sleep == []
      modifies this`prefix, this`prefixIdx, this`steps, this`woken
      ensures Valid() && prefix == old(prefix[..prefixIdx])
      ensures forall p :: StepsOf(p) == if p == old(prefix[prefixIdx].pid) then old(StepsOf(p)) - 1 else old(StepsOf(p))
    {
      ghost var was := Now();
      var p := prefix[prefixIdx].pid;
      assert StepsOf(p) >= 1 by { assert EventValid(prefix, prefixIdx); }
      CutKeepsMerged(prefix, prefixIdx);
      prefix := prefix[..prefixIdx];
      prefixIdx := prefixIdx - 1;
      steps := steps[p := StepsOf(p) - 1];
      woken := if prefixIdx == -1 then {} else prefix[prefixIdx].wakeup;
      RefuseKeepsInv(was, Now(), p);
    }

    /** The current step is an access that other threads may conflict with. */
    method MayConflict()
      requires Valid() && prefixIdx >= 0 && !dryrun
      modifies this`prefix
      ensures Valid() && prefix == old(prefix)[prefixIdx := old(prefix)[prefixIdx].(mayConflict := true)]
    {
      ghost var was := Now();
      SetKeepsMerged(prefix, prefixIdx, prefix[prefixIdx].(mayConflict := true));
      prefix := prefix[prefixIdx := prefix[prefixIdx].(mayConflict := true)];
      MarkKeepsInv(was, Now());
    }

    /** In a dry run the accesses of the thread are noted, and nothing else happens. */
    method NoteAccess(reading: set<int>, writing: set<int>, full: bool)
      requires Valid() && dryrun
      modifies this`next
      ensures Valid()
      ensures var p := prefix[prefixIdx + 1].sleep[drySleepers - 1]; var a := NextOf(old(next), p);
        && NextOf(next, p) == NextAccess(a.readSet + reading, a.writeSet + writing, a.fullConflict || full)
        && forall q :: q != p ==> NextOf(next, q) == NextOf(old(next), q)
    {
      var p := prefix[prefixIdx + 1].sleep[drySleepers - 1];
      var a := NextOf(next, p);
      assert p in prefix[prefixIdx + 1].sleep[..drySleepers];
      NoteKeepsWaiting(next, sleepers, p, NextAccess(a.readSet + reading, a.writeSet + writing, a.fullConflict || full));
      next := next[p := NextAccess(a.readSet + reading, a.writeSet + writing, a.fullConflict || full)];
    }

    /** `wakeup`: exactly the sleepers whose next access conflicts are woken. */
    method Wakeup(t: AccessType, ml: int, proc: map<int, int>, pending: map<int, set<int>>)
      requires Valid() && prefixIdx >= 0 && !dryrun && prefix[prefixIdx].mayConflict && prefix[prefixIdx].pid in proc
      requires sleepers <= proc.Keys && sleepers <= pending.Keys
      modifies this`prefix, this`sleepers, this`next, this`woken
      ensures Valid()
      ensures forall p :: p in sleepers <==>
        p in old(sleepers) && !Wakes(t, ml, proc[old(prefix[prefixIdx].pid)], Sleeper(proc[p], pending[p], NextOf(old(next), p)))
      ensures prefix == Wake(old(prefix), prefixIdx, old(sleepers) - sleepers)
      ensures woken == old(woken) + (old(sleepers) - sleepers)
      ensures forall p :: NextOf(next, p) == if p in sleepers then NextOf(old(next), p) else NO_ACCESS
    {
      var mine := proc[prefix[prefixIdx].pid];
      var w := set p | p in sleepers && Wakes(t, ml, mine, Sleeper(proc[p], pending[p], NextOf(next, p)));
      WakeUp(w);
      assert w == old(sleepers) - sleepers;
    }

    /** The last loop of `wakeup`. */
    method WakeUp(w: set<int>)
      requires Valid() && prefixIdx >= 0 && !dryrun && prefix[prefixIdx].mayConflict && w <= sleepers
      modifies this`prefix, this`sleepers, this`next, this`woken
      ensures Valid() && sleepers == old(sleepers) - w && prefix == Wake(old(prefix), prefixIdx, w) && woken == old(woken) + w
      ensures forall p :: NextOf(next, p) == if p in sleepers then NextOf(old(next), p) else NO_ACCESS
    {
      ghost var was := Now();
      SetKeepsMerged(prefix, prefixIdx, prefix[prefixIdx].(wakeup := prefix[prefixIdx].wakeup + w));
      WakeKeepsWaiting(next, sleepers, w);
      next := next - w;
      sleepers := sleepers - w;
      prefix := Wake(prefix, prefixIdx, w);
      woken := woken + w;
      WakeKeepsInv(was, Now(), w);
    }

    /** `add_branch` inserts a branch for a thread that neither runs nor sleeps at event `i`. */
    method InsertBranch(i: int, pid: nat)
      requires Valid() && 0 <= i < |prefix| && prefix[i].mayConflict
      requires pid != prefix[i].pid && pid !in SleepSetAt(prefix, i)
      modifies this`prefix
      ensures Valid() && prefix == old(prefix)[i := old(prefix)[i].(branch := old(prefix)[i].branch + {Branch(pid, 0)})]
    {
      ghost var was := Now();
      SetKeepsMerged(prefix, i, prefix[i].(branch := prefix[i].branch + {Branch(pid, 0)}));
      prefix := prefix[i := prefix[i].(branch := prefix[i].branch + {Branch(pid, 0)})];
      BranchKeepsInv(was, Now(), i, pid);
    }

    /**
     * `reset`: replay the trace up to the last event with an untried branch, and take that branch there,
     * with the thread that was tried before asleep.
     */
    method Reset() returns (more: bool)
      requires Valid()
      modifies this
      ensures !more ==> prefix == old(prefix) && forall i :: 0 <= i < |prefix| ==> prefix[i].branch == {}
      ensures more ==> Valid() && replay && prefixIdx == -1 && sleepers == {} && 0 < |prefix| <= |old(prefix)|
      ensures more ==> forall k :: |prefix| <= k < |old(prefix)| ==> old(prefix)[k].branch == {}
      ensures more ==> WasReset(old(prefix), prefix)
    {
      var i := LastBranching(prefix);
      if i < 0 {
        return false;
      }
      LeastExists(prefix[i].branch);
      var br :| br in prefix[i].branch && forall c :: c in prefix[i].branch ==> c == br || BranchBelow(br, c);
      MayBranch(prefix, i, br);
      var index := NextIndex(prefix, i, br.pid);
      var e := SetUp(prefix, i, br, index);
      Restart(prefix[..i] + [e], i, br);
      return true;
    }

    /** Forget everything about the last execution but the trace to replay. */
    method Restart(trace: seq<Event>, ghost i: int, ghost br: Branch)
      requires Valid() && 0 <= i < |prefix| && IsLeast(br, prefix[i].branch) && br.pid >= 0
      requires trace == prefix[..i] + [BranchEvent(prefix, i, br, StepsBefore(prefix, i, br.pid) + 1)]
      modifies this
      ensures Valid() && replay && prefixIdx == -1 && sleepers == {} && prefix == trace
      ensures WasReset(old(prefix), prefix)
    {
      ResetTakesBranch(prefix, i, br, trace);
      prefix := trace;
      prefixIdx, drySleepers, dryrun, replay := -1, 0, false, true;
      sleepers, steps, next, woken := {}, map[], map[], {};
      assert Now() == Moment(trace, -1, 0, true, {}, map[], {});
    }
  }
}
