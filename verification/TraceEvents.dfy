/** Vector clocks (src/VClock.h) and the events of a trace (src/PSOTraceBuilder.h). */
module TraceEvents {

  /** A vector clock; entries beyond the end are zero. */
  type VClock = seq<nat>

  function At(c: VClock, d: int): nat {
    if 0 <= d < |c| then c[d] else 0
  }

  predicate Leq(c: VClock, d: VClock) {
    forall i :: 0 <= i < |c| ==> c[i] <= At(d, i)
  }

  /** The least clock above both: `operator+`. */
  function Join(c: VClock, d: VClock): (r: VClock)
    ensures forall i :: At(r, i) == if At(c, i) < At(d, i) then At(d, i) else At(c, i)
  {
    seq(if |c| < |d| then |d| else |c|, i => if At(c, i) < At(d, i) then At(d, i) else At(c, i))
  }

  /** `clock[d] = n` for the growing vector. */
  function Set(c: VClock, d: nat, n: nat): (r: VClock)
    ensures forall i :: At(r, i) == if i == d then n else At(c, i)
  {
    (if |c| <= d then c + seq(d + 1 - |c|, _ => 0) else c)[d := n]
  }

  lemma LeqIsPointwise(c: VClock, d: VClock)
    ensures Leq(c, d) <==> forall i :: At(c, i) <= At(d, i)
  {
  }

  lemma LeqTrans(c: VClock, d: VClock, e: VClock)
    requires Leq(c, d) && Leq(d, e)
    ensures Leq(c, e)
  {
    LeqIsPointwise(c, d);
    LeqIsPointwise(d, e);
    LeqIsPointwise(c, e);
  }

  lemma JoinLeq(c: VClock, d: VClock)
    ensures Leq(c, Join(c, d)) && Leq(d, Join(c, d))
  {
    LeqIsPointwise(c, Join(c, d));
    LeqIsPointwise(d, Join(c, d));
  }

  datatype Branch = Branch(pid: int, alt: int)

  /** A sequence of consecutive steps of one thread, with the clock of its first step. */
  datatype Event = Event(
    pid: nat, index: nat, size: nat, alt: int, clock: VClock, mayConflict: bool,
    branch: set<Branch>, sleep: seq<int>, wakeup: set<int>)

  /** Event `k` happens after event `m`, according to its clock. */
  predicate After(prefix: seq<Event>, k: int, m: int)
    requires 0 <= m < |prefix| && 0 <= k < |prefix|
  {
    prefix[m].index <= At(prefix[k].clock, prefix[m].pid)
  }

  /** A clock that has seen an event has seen all that the event has seen. */
  ghost predicate ClosedClock(prefix: seq<Event>, c: VClock) {
    forall m {:trigger Leq(prefix[m].clock, c)} ::
      0 <= m < |prefix| && prefix[m].index <= At(c, prefix[m].pid) ==> Leq(prefix[m].clock, c)
  }

  /** The clocks of a trace encode a transitive happens-before relation that contains program order. */
  ghost predicate ClocksValid(prefix: seq<Event>) {
    && (forall k :: 0 <= k < |prefix| ==> prefix[k].index >= 1 && At(prefix[k].clock, prefix[k].pid) == prefix[k].index)
    && (forall k, m :: 0 <= m < k < |prefix| ==> At(prefix[m].clock, prefix[k].pid) < prefix[k].index)
    && (forall k {:trigger ClosedClock(prefix, prefix[k].clock)} ::
          0 <= k < |prefix| ==> ClosedClock(prefix, prefix[k].clock))
  }

  /** For an earlier event, comparing whole clocks and looking up one entry are the same test. */
  lemma AfterIsLeq(prefix: seq<Event>, k: int, m: int)
    requires ClocksValid(prefix) && 0 <= m < |prefix| && 0 <= k < |prefix|
    ensures Leq(prefix[m].clock, prefix[k].clock) <==> After(prefix, k, m)
    ensures After(prefix, k, m) ==> m <= k
  {
    assert ClosedClock(prefix, prefix[k].clock);
    LeqIsPointwise(prefix[m].clock, prefix[k].clock);
  }

  lemma AfterTrans(prefix: seq<Event>, k: int, l: int, m: int)
    requires ClocksValid(prefix) && 0 <= k < |prefix| && 0 <= l < |prefix| && 0 <= m < |prefix|
    requires After(prefix, k, l) && After(prefix, l, m)
    ensures After(prefix, k, m)
  {
    AfterIsLeq(prefix, k, l);
    AfterIsLeq(prefix, l, m);
    AfterIsLeq(prefix, k, m);
    LeqTrans(prefix[m].clock, prefix[l].clock, prefix[k].clock);
  }

  lemma ProgramOrder(prefix: seq<Event>, k: int, m: int)
    requires ClocksValid(prefix) && 0 <= m <= k < |prefix| && prefix[m].pid == prefix[k].pid
    ensures After(prefix, k, m)
  {
  }

  /** `sleep_set_at`, after the wake-ups of the first `i` events. */
  function SleepAfter(prefix: seq<Event>, i: int): set<int>
    requires 0 <= i <= |prefix|
    decreases i, 0
  {
    if i == 0 then {} else SleepSetAt(prefix, i - 1) - prefix[i - 1].wakeup
  }

  /** The threads asleep when event `i` starts. */
  function SleepSetAt(prefix: seq<Event>, i: int): set<int>
    requires 0 <= i < |prefix|
    decreases i, 1
  {
    SleepAfter(prefix, i) + (set p | p in prefix[i].sleep)
  }

  /** The traces differ in recorded branches only. */
  ghost predicate SameButBranches(p: seq<Event>, q: seq<Event>) {
    |p| == |q| && forall k :: 0 <= k < |p| ==> q[k] == p[k].(branch := q[k].branch)
  }

  lemma {:induction false} BranchesDoNotSleep(p: seq<Event>, q: seq<Event>, i: int)
    requires SameButBranches(p, q) && 0 <= i < |p|
    ensures SleepSetAt(q, i) == SleepSetAt(p, i)
    decreases i
  {
    if i > 0 {
      BranchesDoNotSleep(p, q, i - 1);
    }
  }

  lemma BranchesKeepClocks(p: seq<Event>, q: seq<Event>)
    requires SameButBranches(p, q) && ClocksValid(p)
    ensures ClocksValid(q)
  {
    forall k | 0 <= k < |q|
      ensures ClosedClock(q, q[k].clock)
    {
      assert ClosedClock(p, p[k].clock);
    }
  }

  lemma {:induction false} SleepOfPrefix(p: seq<Event>, n: int, i: int)
    requires 0 <= i < n <= |p|
    ensures SleepSetAt(p[..n], i) == SleepSetAt(p, i)
    decreases i
  {
    if i > 0 {
      SleepOfPrefix(p, n, i - 1);
    }
  }
}
