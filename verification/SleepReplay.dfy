/**
 * Why a replayed event wakes the same threads as before (src/PSOTraceBuilder.cpp): what an event wakes is
 * decided by its accesses and by what the dry runs of the sleeping threads have noted.
 */
module SleepReplay {
  import opened TraceEvents
  import opened SleepSets

  /** An access of the current event, with the process of each thread and its pending stores at that time. */
  datatype Deed = Deed(t: AccessType, ml: int, proc: map<int, int>, pending: map<int, set<int>>)
  {
    predicate Wakes(pid: int, p: int, next: NextAccess)
      requires pid in proc && p in proc && p in pending
    {
      SleepSets.Wakes(t, ml, proc[pid], Sleeper(proc[p], pending[p], next))
    }

    predicate Knows(pid: int, sleepers: set<int>) {
      pid in proc && sleepers <= proc.Keys && sleepers <= pending.Keys
    }
  }

  predicate AllKnow(deeds: seq<Deed>, pid: int, sleepers: set<int>) {
    forall i :: 0 <= i < |deeds| ==> deeds[i].Knows(pid, sleepers)
  }

  /** Some of the accesses wakes sleeper `p`. */
  predicate SomeWakes(deeds: seq<Deed>, pid: int, p: int, next: NextAccess) {
    exists i :: 0 <= i < |deeds| && deeds[i].Knows(pid, {p}) && deeds[i].Wakes(pid, p, next)
  }

  /** The threads that the accesses of thread `pid` wake. */
  function WokenBy(deeds: seq<Deed>, pid: int, sleepers: set<int>, next: map<int, NextAccess>): set<int> {
    set p | p in sleepers && SomeWakes(deeds, pid, p, NextOf(next, p))
  }

  lemma WokenByOneMore(deeds: seq<Deed>, n: nat, pid: int, p: int, next: NextAccess)
    requires n < |deeds| && deeds[n].Knows(pid, {p})
    ensures SomeWakes(deeds[..n + 1], pid, p, next) <==> SomeWakes(deeds[..n], pid, p, next) || deeds[n].Wakes(pid, p, next)
  {
    var a, b := deeds[..n + 1], deeds[..n];
    if i :| 0 <= i < |a| && a[i].Knows(pid, {p}) && a[i].Wakes(pid, p, next) {
      assert i < n ==> b[i] == a[i];
    }
    if i :| 0 <= i < |b| && b[i].Knows(pid, {p}) && b[i].Wakes(pid, p, next) {
      assert a[i] == b[i];
    }
    assert a[n] == deeds[n];
  }

  /** Equal dry runs and equal accesses wake the same threads. */
  lemma SameNotesSameWakes(deeds: seq<Deed>, pid: int, sleepers: set<int>, a: map<int, NextAccess>, b: map<int, NextAccess>)
    requires forall p :: p in sleepers ==> NextOf(a, p) == NextOf(b, p)
    ensures WokenBy(deeds, pid, sleepers, a) == WokenBy(deeds, pid, sleepers, b)
  {
  }

  lemma WokenStep(deeds: seq<Deed>, n: nat, pid: int, sleepers: set<int>, next: map<int, NextAccess>,
                  before: set<int>, after: set<int>, now: map<int, NextAccess>)
    requires n < |deeds| && AllKnow(deeds, pid, sleepers) && before == sleepers - WokenBy(deeds[..n], pid, sleepers, next)
    requires forall p :: p in before ==> NextOf(now, p) == NextOf(next, p)
    requires deeds[n].Knows(pid, before)
    requires forall p :: p in after <==> p in before && !deeds[n].Wakes(pid, p, NextOf(now, p))
    ensures after == sleepers - WokenBy(deeds[..n + 1], pid, sleepers, next)
    ensures WokenBy(deeds[..n + 1], pid, sleepers, next) == WokenBy(deeds[..n], pid, sleepers, next) + (before - after)
  {
    var v, w := WokenBy(deeds[..n], pid, sleepers, next), WokenBy(deeds[..n + 1], pid, sleepers, next);
    forall p
      ensures p in w <==> p in v || p in before - after
      ensures p in after <==> p in sleepers && p !in w
    {
      if p in sleepers {
        assert deeds[n].Knows(pid, sleepers) && deeds[n].Knows(pid, {p});
        WokenByOneMore(deeds, n, pid, p, NextOf(next, p));
      }
    }
  }

  /** How far the accesses of an event have got. */
  ghost predicate Performed(s: Scheduler, deeds: seq<Deed>, pid: int, sleepers: set<int>, next: map<int, NextAccess>,
                            prefix: seq<Event>, woken: set<int>)
    requires 0 <= s.prefixIdx < |prefix|
    reads s
  {
    var w := WokenBy(deeds, pid, sleepers, next);
    && s.sleepers == sleepers - w && s.woken == woken + w && s.prefix == Wake(prefix, s.prefixIdx, w)
    && forall p :: p in s.sleepers ==> NextOf(s.next, p) == NextOf(next, p)
  }

  /** One access more. */
  method PerformOne(s: Scheduler, deeds: seq<Deed>, n: nat, ghost pid: int, ghost sleepers: set<int>, ghost next: map<int, NextAccess>,
                    ghost prefix: seq<Event>, ghost woken: set<int>)
    requires n < |deeds| && s.Valid() && 0 <= s.prefixIdx < |prefix| && !s.dryrun && prefix[s.prefixIdx].mayConflict
    requires pid == prefix[s.prefixIdx].pid && AllKnow(deeds, pid, sleepers) && Performed(s, deeds[..n], pid, sleepers, next, prefix, woken)
    modifies s`prefix, s`sleepers, s`next, s`woken
    ensures s.Valid() && Performed(s, deeds[..n + 1], pid, sleepers, next, prefix, woken)
  {
    ghost var before, now, w := s.sleepers, s.next, WokenBy(deeds[..n], pid, sleepers, next);
    var d := deeds[n];
    assert d.Knows(pid, sleepers) && d.Knows(pid, before);
    s.Wakeup(d.t, d.ml, d.proc, d.pending);
    WokenStep(deeds, n, pid, sleepers, next, before, s.sleepers, now);
    WakeTwice(prefix, s.prefixIdx, w, before - s.sleepers);
  }

  /** The accesses of the current event, one after the other. */
  method Perform(s: Scheduler, deeds: seq<Deed>)
    requires s.Valid() && s.prefixIdx >= 0 && !s.dryrun && s.prefix[s.prefixIdx].mayConflict
    requires AllKnow(deeds, s.prefix[s.prefixIdx].pid, s.sleepers)
    modifies s`prefix, s`sleepers, s`next, s`woken
    ensures s.Valid()
    ensures Performed(s, deeds, old(s.prefix[s.prefixIdx].pid), old(s.sleepers), old(s.next), old(s.prefix), old(s.woken))
  {
    ghost var pid, sleepers, next, prefix, woken := s.prefix[s.prefixIdx].pid, s.sleepers, s.next, s.prefix, s.woken;
    assert WokenBy(deeds[..0], pid, sleepers, next) == {};
    assert prefix[s.prefixIdx].wakeup + {} == prefix[s.prefixIdx].wakeup;
    for n := 0 to |deeds|
      invariant s.Valid() && Performed(s, deeds[..n], pid, sleepers, next, prefix, woken)
    {
      PerformOne(s, deeds, n, pid, sleepers, next, prefix, woken);
    }
    assert deeds[..|deeds|] == deeds;
  }

  lemma WakeTwice(p: seq<Event>, i: int, v: set<int>, w: set<int>)
    requires 0 <= i < |p|
    ensures |Wake(p, i, v)| == |p| && Wake(Wake(p, i, v), i, w) == Wake(p, i, v + w)
  {
    assert p[i].wakeup + v + w == p[i].wakeup + (v + w);
  }

  /** An event that is executed for the first time records what it wakes. */
  method PerformFirst(s: Scheduler, deeds: seq<Deed>)
    requires s.Valid() && s.prefixIdx >= 0 && !s.dryrun && s.prefix[s.prefixIdx].mayConflict
    requires AllKnow(deeds, s.prefix[s.prefixIdx].pid, s.sleepers)
    requires s.sleepers == SleepSetAt(s.prefix, s.prefixIdx) && s.prefix[s.prefixIdx].wakeup == {}
    modifies s`prefix, s`sleepers, s`next, s`woken
    ensures s.Valid() && 0 <= s.prefixIdx < |s.prefix| && SleepSetAt(s.prefix, s.prefixIdx) == old(s.sleepers)
    ensures s.prefix[s.prefixIdx].pid == old(s.prefix[s.prefixIdx].pid)
    ensures s.prefix[s.prefixIdx].wakeup == WokenBy(deeds, s.prefix[s.prefixIdx].pid, SleepSetAt(s.prefix, s.prefixIdx), old(s.next))
  {
    ghost var was := s.prefix;
    Perform(s, deeds);
    SameBelow(was, s.prefix, s.prefixIdx, s.prefixIdx);
  }

  /**
   * When it is replayed, with the same accesses and after equal dry runs, it wakes the same threads, so the
   * prefix is as before, and `schedule` may go on once all its steps have been taken.
   */
  method PerformAgain(s: Scheduler, deeds: seq<Deed>, ghost notes: map<int, NextAccess>)
    requires s.Valid() && s.prefixIdx >= 0 && !s.dryrun && s.prefix[s.prefixIdx].mayConflict && s.woken == {}
    requires AllKnow(deeds, s.prefix[s.prefixIdx].pid, s.sleepers) && s.sleepers == SleepSetAt(s.prefix, s.prefixIdx)
    requires s.prefix[s.prefixIdx].wakeup == WokenBy(deeds, s.prefix[s.prefixIdx].pid, SleepSetAt(s.prefix, s.prefixIdx), notes)
    requires forall p :: p in s.sleepers ==> NextOf(s.next, p) == NextOf(notes, p)
    modifies s`prefix, s`sleepers, s`next, s`woken
    ensures s.Valid() && s.prefix == old(s.prefix) && s.woken == s.prefix[s.prefixIdx].wakeup
    ensures !s.Unfinished() ==> s.Now().CurrentDone()
  {
    SameNotesSameWakes(deeds, s.prefix[s.prefixIdx].pid, s.sleepers, s.next, notes);
    ghost var was, w := s.prefix, s.prefix[s.prefixIdx].wakeup;
    Perform(s, deeds);
    assert w + w == w;
  }
}
