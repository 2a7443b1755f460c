/**
 * `has_cycle` of src/PSOTraceBuilder.cpp: can the trace be replayed under sequential consistency?
 *
 * A step of a real thread must wait for the steps of other threads that its event has seen.  A store must
 * also wait for the steps that its update has seen, although the update happened later.
 */
module ScReplay {
  import opened TraceEvents
  import opened Options

  /**
   * An event of thread `pid`, which is process `proc` or one of its auxiliary threads.  An auxiliary event
   * updates memory with the store that was step `origin` of the process.
   */
  datatype Ev = Ev(pid: nat, proc: nat, aux: bool, index: nat, size: nat, origin: nat, clock: VClock)

  datatype StoreUpdate = StoreUpdate(store: nat, update: nat)

  datatype Trace = Trace(prefix: seq<Ev>, ipid: seq<nat>)
  {
    /** The steps of process `t` in the first `k` events. */
    function StepsBefore(k: int, t: int): nat
      requires 0 <= k <= |prefix|
    {
      if k == 0 then 0
      else StepsBefore(k - 1, t) + if Mine(k - 1, t) then prefix[k - 1].size else 0
    }

    function Total(t: int): nat {
      StepsBefore(|prefix|, t)
    }

    /** Event `k` consists of steps of process `t`. */
    predicate Mine(k: int, t: int)
      requires 0 <= k < |prefix|
    {
      !prefix[k].aux && prefix[k].proc == t
    }

    /** Event `k` is the update of the store that is step `n` of process `t`. */
    predicate Updates(k: int, t: int, n: int)
      requires 0 <= k < |prefix|
    {
      prefix[k].aux && prefix[k].proc == t && prefix[k].origin == n
    }

    /** Event `k` contains step `n` of process `t`, or updates memory with it. */
    predicate Carries(k: int, t: int, n: int)
      requires 0 <= k < |prefix|
    {
      Updates(k, t, n) || (Mine(k, t) && prefix[k].index <= n < prefix[k].index + prefix[k].size)
    }

    /** How many steps of process `i` event `k` has seen. */
    function Seen(k: int, i: int): nat
      requires 0 <= k < |prefix| && 0 <= i < |ipid|
    {
      At(prefix[k].clock, ipid[i])
    }

    ghost predicate EvValid(k: int)
      requires 0 <= k < |prefix|
    {
      var e := prefix[k];
      && e.proc < |ipid| && e.size >= 1
      && (!e.aux ==> e.pid == ipid[e.proc] && e.index == StepsBefore(k, e.proc) + 1 && Seen(k, e.proc) == e.index)
      && (e.aux ==> e.pid !in ipid && 1 <= e.origin <= Seen(k, e.proc))
      && (forall i :: 0 <= i < |ipid| && (e.aux || i != e.proc) ==> Seen(k, i) <= StepsBefore(k, i))
      && (e.aux ==> forall l :: 0 <= l < |prefix| && Updates(l, e.proc, e.origin) ==> l == k)
    }

    /** The update has seen a later step of its own process than the store. */
    predicate Ahead(u: int)
      requires 0 <= u < |prefix|
    {
      prefix[u].aux && prefix[u].proc < |ipid| && Seen(u, prefix[u].proc) > prefix[u].origin
    }

    ghost predicate Valid() {
      && |ipid| > 0
      && (forall i, j :: 0 <= i < j < |ipid| ==> ipid[i] != ipid[j])
      && (forall k {:trigger EvValid(k)} :: 0 <= k < |prefix| ==> EvValid(k))
    }

    // ----- Sequentially consistent runs --------------------------------------------------------------------

    /**
     * After the given steps (each process takes its steps in order, so it is enough to say whose step it is),
     * process `t` may take its next step: it takes place after all that its event has seen and, if it is a
     * store, after all that its update has seen.
     */
    ghost predicate Allowed(done: seq<int>, t: int) {
      && 0 <= t < |ipid| && Count(done, t) < Total(t)
      && forall k, i {:trigger Seen(k, i)} ::
           0 <= k < |prefix| && 0 <= i < |ipid| && Carries(k, t, Count(done, t) + 1) ==> Seen(k, i) <= Count(done + [t], i)
    }

    ghost predicate IsRun(done: seq<int>) {
      done == [] || (IsRun(done[..|done| - 1]) && Allowed(done[..|done| - 1], done[|done| - 1]))
    }

    /** All steps, in a sequentially consistent order. */
    ghost predicate IsScOrder(order: seq<int>) {
      IsRun(order) && forall t :: 0 <= t < |ipid| ==> Count(order, t) == Total(t)
    }

    /** What the replay asks for: it only compares the progress of the other processes. */
    ghost predicate Unblocked(done: seq<int>, t: int) {
      && 0 <= t < |ipid| && Count(done, t) < Total(t)
      && forall k, i {:trigger Seen(k, i)} ::
           0 <= k < |prefix| && 0 <= i < |ipid| && i != t && Carries(k, t, Count(done, t) + 1) ==>
             Seen(k, i) <= Count(done, i)
    }

    ghost predicate IsReplay(done: seq<int>) {
      done == [] || (IsReplay(done[..|done| - 1]) && Unblocked(done[..|done| - 1], done[|done| - 1]))
    }

    ghost predicate IsReplayOrder(order: seq<int>) {
      IsReplay(order) && forall t :: 0 <= t < |ipid| ==> Count(order, t) == Total(t)
    }

    /** Step `n` of process `t` is a store, and `u` an update of it that is ahead. */
    predicate AheadAt(u: int, t: int, n: int) {
      0 <= u < |prefix| && Updates(u, t, n) && Ahead(u)
    }

    ghost predicate StoreIsAhead(t: int, n: int) {
      exists u :: AheadAt(u, t, n)
    }

    /** A replay comes to a store with an update that is ahead, and is not kept from taking it. */
    ghost predicate ReachesAhead(done: seq<int>, u: int) {
      && IsReplay(done) && 0 <= u < |prefix| && AheadAt(u, prefix[u].proc, Count(done, prefix[u].proc) + 1)
      && Unblocked(done, prefix[u].proc)
    }

    ghost predicate SomeAhead() {
      exists u :: 0 <= u < |prefix| && Ahead(u)
    }

    /** The two differ in the own entry of the clock only, which matters exactly if the update is ahead. */
    lemma AllowedIff(done: seq<int>, t: int)
      requires Valid()
      ensures Allowed(done, t) <==> Unblocked(done, t) && !StoreIsAhead(t, Count(done, t) + 1)
    {
      forall i
        ensures Count(done + [t], i) == Count(done, i) + if i == t then 1 else 0
      {
        CountAppend(done, t, i);
      }
      var n := Count(done, t) + 1;
      if u :| AheadAt(u, t, n) {
        assert Carries(u, t, n) && Seen(u, t) > Count(done + [t], t);
      } else {
        forall k | 0 <= k < |prefix| && 0 <= t < |ipid| && Carries(k, t, n)
          ensures Seen(k, t) <= Count(done + [t], t)
        {
          assert EvValid(k) && !AheadAt(k, t, n);
        }
      }
    }

    /** What is sequentially consistent can be replayed. */
    lemma {:induction false} RunIsReplay(done: seq<int>)
      requires Valid() && IsRun(done)
      ensures IsReplay(done)
    {
      if done != [] {
        RunIsReplay(done[..|done| - 1]);
        AllowedIff(done[..|done| - 1], done[|done| - 1]);
      }
    }

    /** Without updates that are ahead, what can be replayed is sequentially consistent. */
    lemma {:induction false} ReplayIsRun(done: seq<int>)
      requires Valid() && IsReplay(done) && !SomeAhead()
      ensures IsRun(done)
    {
      if done != [] {
        ReplayIsRun(done[..|done| - 1]);
        AllowedIff(done[..|done| - 1], done[|done| - 1]);
      }
    }

    /** In a run, no store has been taken whose update is ahead. */
    lemma {:induction false} RunTakesNoneAhead(done: seq<int>, u: int)
      requires Valid() && IsRun(done) && 0 <= u < |prefix| && Ahead(u)
      ensures Count(done, prefix[u].proc) < prefix[u].origin
    {
      if done == [] {
        assert EvValid(u);
      } else {
        var before, t := done[..|done| - 1], done[|done| - 1];
        RunTakesNoneAhead(before, u);
        AllowedIff(before, t);
        assert !AheadAt(u, t, Count(before, t) + 1);
      }
    }

    /** An update that is ahead closes a cycle: there is no sequentially consistent order. */
    lemma AheadMeansNone(order: seq<int>)
      requires Valid() && SomeAhead()
      ensures !IsScOrder(order)
    {
      var u :| 0 <= u < |prefix| && Ahead(u);
      assert EvValid(u);
      StepsMonotone(u, |prefix|, prefix[u].proc);
      if IsScOrder(order) {
        RunTakesNoneAhead(order, u);
      }
    }

    lemma {:induction false} StepsMonotone(j: int, k: int, t: int)
      requires 0 <= j <= k <= |prefix|
      ensures StepsBefore(j, t) <= StepsBefore(k, t)
      decreases k
    {
      if j < k {
        StepsMonotone(j, k - 1, t);
      }
    }

    lemma {:induction false} RunIsBounded(done: seq<int>, t: int)
      requires IsReplay(done) && 0 <= t < |ipid|
      ensures Count(done, t) <= Total(t)
    {
      if done != [] {
        RunIsBounded(done[..|done| - 1], t);
      }
    }

    /** What a step waited for stays satisfied. */
    lemma {:induction false} RunMeetsDemands(done: seq<int>, k: int, q: int, n: int, i: int)
      requires IsReplay(done) && 0 <= k < |prefix| && 0 <= i < |ipid| && i != q && 0 <= q < |ipid|
      requires Carries(k, q, n) && 1 <= n <= Count(done, q)
      ensures Seen(k, i) <= Count(done, i)
    {
      var before := done[..|done| - 1];
      if n <= Count(before, q) {
        RunMeetsDemands(before, k, q, n, i);
      } else {
        assert Unblocked(before, q);
      }
    }

    lemma StaysUnblocked(before: seq<int>, done: seq<int>, t: int)
      requires Unblocked(before, t) && forall i :: 0 <= i < |ipid| ==> Count(before, i) <= Count(done, i)
      ensures Count(before, t) == Count(done, t) ==> Unblocked(done, t)
    {
    }

    /**
     * If no process that has steps left may take one, then no order overtakes the run anywhere: as long as it
     * has not, it is waiting for the same steps.
     */
    lemma {:induction false} NoOrderOvertakes(done: seq<int>, order: seq<int>, t: int)
      requires forall i :: 0 <= i < |ipid| ==> !Unblocked(done, i)
      requires IsReplay(done) && IsReplay(order) && 0 <= t < |ipid|
      ensures Count(order, t) <= Count(done, t)
      decreases |order|
    {
      if order != [] {
        var before, p := order[..|order| - 1], order[|order| - 1];
        forall i | 0 <= i < |ipid|
          ensures Count(before, i) <= Count(done, i)
        {
          NoOrderOvertakes(done, before, i);
        }
        RunIsBounded(done, p);
        StaysUnblocked(before, done, p);
      }
    }

    /** A run that is stuck before its end shows that no order of all steps can be replayed. */
    lemma StuckMeansNone(done: seq<int>, t: int)
      requires IsReplay(done) && forall i :: 0 <= i < |ipid| ==> !Unblocked(done, i)
      requires 0 <= t < |ipid| && Count(done, t) < Total(t)
      ensures !exists order :: IsReplayOrder(order)
    {
      forall order | IsReplayOrder(order)
        ensures false
      {
        NoOrderOvertakes(done, order, t);
      }
    }

    /** Only one event contains a given step. */
    lemma CarrierIsUnique(k: int, l: int, t: int, n: int)
      requires Valid() && 0 <= k < |prefix| && 0 <= l < |prefix| && Carries(k, t, n) && Carries(l, t, n)
      requires prefix[k].aux == prefix[l].aux
      ensures k == l
    {
      assert EvValid(k) && EvValid(l);
      if !prefix[k].aux {
        if k < l { StepsMonotone(k + 1, l, t); }
        if l < k { StepsMonotone(l + 1, k, t); }
      }
    }
  }

  function Count(s: seq<int>, t: int): nat {
    if s == [] then 0 else Count(s[..|s| - 1], t) + if s[|s| - 1] == t then 1 else 0
  }

  lemma CountAppend(s: seq<int>, t: int, i: int)
    ensures Count(s + [t], i) == Count(s, i) + if i == t then 1 else 0
  {
    assert (s + [t])[..|s|] == s;
  }

  // ----- The stores --------------------------------------------------------------------------------------

  /** All stores of process `t` with an update, in program order. */
  ghost predicate StoresOf(tr: Trace, t: int, stores: seq<StoreUpdate>) {
    && (forall a, b :: 0 <= a < b < |stores| ==> stores[a].store < stores[b].store)
    && (forall a :: 0 <= a < |stores| ==> stores[a].update < |tr.prefix| && tr.Updates(stores[a].update, t, stores[a].store))
    && (forall k :: 0 <= k < |tr.prefix| && tr.prefix[k].aux && tr.prefix[k].proc == t ==>
          StoreUpdate(tr.prefix[k].origin, k) in stores)
  }

  method InsertSorted(s: seq<StoreUpdate>, x: StoreUpdate) returns (r: seq<StoreUpdate>)
    requires forall a, b :: 0 <= a < b < |s| ==> s[a].store < s[b].store
    requires forall y :: y in s ==> y.store != x.store
    ensures forall a, b :: 0 <= a < b < |r| ==> r[a].store < r[b].store
    ensures forall y :: y in r <==> y in s || y == x
  {
    var k := 0;
    while k < |s| && s[k].store < x.store
      invariant 0 <= k <= |s| && forall a :: 0 <= a < k ==> s[a].store < x.store
    {
      k := k + 1;
    }
    r := s[..k] + [x] + s[k..];
    assert s == s[..k] + s[k..];
  }

  /** `std::sort` by store index. */
  method SortStores(s: seq<StoreUpdate>) returns (r: seq<StoreUpdate>)
    requires forall a, b :: 0 <= a < b < |s| ==> s[a].store != s[b].store
    ensures forall a, b :: 0 <= a < b < |r| ==> r[a].store < r[b].store
    ensures forall y :: y in r <==> y in s
  {
    r := [];
    for k := 0 to |s|
      invariant forall a, b :: 0 <= a < b < |r| ==> r[a].store < r[b].store
      invariant forall y :: y in r <==> y in s[..k]
    {
      assert s[..k + 1] == s[..k] + [s[k]];
      r := InsertSorted(r, s[k]);
    }
    assert s[..|s|] == s;
  }

  // ----- The replay --------------------------------------------------------------------------------------

  /** `thread_t`. */
  datatype ThreadState = ThreadState(pc: nat, pfxIndex: nat, storeIndex: nat, blocked: bool, blockClock: VClock)

  /** Event `st.pfxIndex` of the prefix holds the next step of process `t`. */
  ghost predicate AtStep(tr: Trace, t: int, st: ThreadState) {
    && st.pfxIndex < |tr.prefix| && tr.Mine(st.pfxIndex, t)
    && tr.prefix[st.pfxIndex].index <= st.pc + 1 < tr.prefix[st.pfxIndex].index + tr.prefix[st.pfxIndex].size
  }

  /** Event `st.pfxIndex` has been reached, and its steps not all been taken. */
  ghost predicate Positioned(tr: Trace, t: int, st: ThreadState) {
    && st.pfxIndex <= |tr.prefix|
    && (AtStep(tr, t, st) || (st.pc == tr.StepsBefore(st.pfxIndex, t) && !(st.pfxIndex < |tr.prefix| && tr.Mine(st.pfxIndex, t))))
  }

  /** The stores that have been considered, those up to step `pc`. */
  ghost predicate StoresSplit(stores: seq<StoreUpdate>, storeIndex: int, pc: int) {
    && 0 <= storeIndex <= |stores|
    && (forall a :: 0 <= a < storeIndex ==> stores[a].store <= pc)
    && (forall a :: storeIndex <= a < |stores| ==> stores[a].store > pc)
  }

  /** `c` says what the next step of process `t`, in event `k`, waits for. */
  ghost predicate IsBlockClock(tr: Trace, t: int, k: int, n: nat, stores: seq<StoreUpdate>, storeIndex: int, c: VClock)
    requires 0 <= k < |tr.prefix| && 0 <= t < |tr.ipid|
  {
    var own := Set(tr.prefix[k].clock, tr.ipid[t], n);
    if 0 < storeIndex <= |stores| && stores[storeIndex - 1].store == n && stores[storeIndex - 1].update < |tr.prefix|
    then c == Join(own, tr.prefix[stores[storeIndex - 1].update].clock)
    else c == own
  }

  ghost predicate ThreadValid(tr: Trace, t: int, stores: seq<StoreUpdate>, st: ThreadState)
    requires 0 <= t < |tr.ipid|
  {
    && Positioned(tr, t, st)
    && (if st.blocked then
          && AtStep(tr, t, st) && StoresSplit(stores, st.storeIndex, st.pc + 1)
          && IsBlockClock(tr, t, st.pfxIndex, st.pc + 1, stores, st.storeIndex, st.blockClock)
        else StoresSplit(stores, st.storeIndex, st.pc))
  }

  /** Move on to the next event of the process. */
  method Advance(tr: Trace, t: int, st: ThreadState) returns (r: ThreadState)
    requires tr.Valid() && 0 <= t < |tr.ipid| && Positioned(tr, t, st)
    ensures Positioned(tr, t, r) && r == st.(pfxIndex := r.pfxIndex)
    ensures r.pfxIndex == |tr.prefix| || AtStep(tr, t, r)
    ensures AtStep(tr, t, st) ==> r == st
    ensures r.pfxIndex == |tr.prefix| ==> r.pc == tr.Total(t)
  {
    var k := st.pfxIndex;
    while k < |tr.prefix| && tr.prefix[k].pid != tr.ipid[t]
      invariant st.pfxIndex <= k <= |tr.prefix|
      invariant Positioned(tr, t, st.(pfxIndex := k)) && (AtStep(tr, t, st) ==> k == st.pfxIndex)
    {
      assert tr.EvValid(k);
      k := k + 1;
      if k < |tr.prefix| {
        assert tr.EvValid(k);
      }
    }
    if k < |tr.prefix| {
      assert tr.EvValid(k);
    }
    r := st.(pfxIndex := k);
  }

  /** Find out what the next step of a process that is not blocked has to wait for. */
  method Consider(tr: Trace, t: int, stores: seq<StoreUpdate>, st: ThreadState) returns (r: ThreadState)
    requires tr.Valid() && 0 <= t < |tr.ipid| && StoresOf(tr, t, stores)
    requires ThreadValid(tr, t, stores, st) && AtStep(tr, t, st) && !st.blocked
    ensures r == st.(storeIndex := r.storeIndex, blockClock := r.blockClock)
    ensures ThreadValid(tr, t, stores, r.(blocked := true))
  {
    var e := tr.prefix[st.pfxIndex];
    assert tr.EvValid(st.pfxIndex);
    assert e.pid == tr.ipid[t] && At(e.clock, tr.ipid[t]) <= st.pc + 1;
    var c := Set(e.clock, tr.ipid[t], st.pc + 1);
    var a := st.storeIndex;
    if a < |stores| && stores[a].store == st.pc + 1 {
      c := Join(c, tr.prefix[stores[a].update].clock);
      a := a + 1;
    }
    r := st.(storeIndex := a, blockClock := c);
  }

  /** The next step is in its event, and in the update of the store that has been considered last. */
  lemma OnlyTwoCarriers(tr: Trace, t: int, stores: seq<StoreUpdate>, st: ThreadState, l: int)
    requires tr.Valid() && 0 <= t < |tr.ipid| && StoresOf(tr, t, stores) && AtStep(tr, t, st) && StoresSplit(stores, st.storeIndex, st.pc + 1)
    requires 0 <= l < |tr.prefix| && tr.Carries(l, t, st.pc + 1)
    ensures l == st.pfxIndex || (0 < st.storeIndex && stores[st.storeIndex - 1] == StoreUpdate(st.pc + 1, l))
  {
    if !tr.prefix[l].aux {
      tr.CarrierIsUnique(st.pfxIndex, l, t, st.pc + 1);
    } else {
      assert StoreUpdate(st.pc + 1, l) in stores;
    }
  }

  /** The block clock says exactly whether the next step is blocked. */
  lemma BlockClockIsDemand(tr: Trace, t: int, stores: seq<StoreUpdate>, st: ThreadState, done: seq<int>)
    requires tr.Valid() && 0 <= t < |tr.ipid| && StoresOf(tr, t, stores) && st.blocked && ThreadValid(tr, t, stores, st)
    requires Count(done, t) == st.pc
    ensures tr.Unblocked(done, t) <==>
      forall i :: 0 <= i < |tr.ipid| && i != t ==> At(st.blockClock, tr.ipid[i]) <= Count(done, i)
  {
    var k, n := st.pfxIndex, st.pc + 1;
    assert tr.EvValid(k);
    tr.StepsMonotone(k + 1, |tr.prefix|, t);
    forall l | 0 <= l < |tr.prefix| && tr.Carries(l, t, n)
      ensures l == k || (0 < st.storeIndex && stores[st.storeIndex - 1] == StoreUpdate(n, l))
    {
      OnlyTwoCarriers(tr, t, stores, st, l);
    }
    if tr.Unblocked(done, t) {
      forall i | 0 <= i < |tr.ipid| && i != t
        ensures At(st.blockClock, tr.ipid[i]) <= Count(done, i)
      {
        assert tr.Seen(k, i) <= Count(done, i);
        if 0 < st.storeIndex && stores[st.storeIndex - 1].store == n {
          assert tr.Carries(stores[st.storeIndex - 1].update, t, n);
          assert tr.Seen(stores[st.storeIndex - 1].update, i) <= Count(done, i);
        }
      }
    }
  }

  /** The own entry of the block clock is the number of the step, unless it is a store with an update ahead of it. */
  lemma OwnEntryIsExact(tr: Trace, t: int, stores: seq<StoreUpdate>, st: ThreadState)
    requires tr.Valid() && 0 <= t < |tr.ipid| && StoresOf(tr, t, stores) && st.blocked && ThreadValid(tr, t, stores, st)
    ensures At(st.blockClock, tr.ipid[t]) == st.pc + 1 <==> !tr.StoreIsAhead(t, st.pc + 1)
  {
    var n := st.pc + 1;
    if 0 < st.storeIndex && stores[st.storeIndex - 1].store == n {
      var u := stores[st.storeIndex - 1].update;
      assert tr.EvValid(u);
      assert At(st.blockClock, tr.ipid[t]) == n <==> !tr.AheadAt(u, t, n);
    }
    if u :| tr.AheadAt(u, t, n) {
      assert tr.EvValid(u) && StoreUpdate(n, u) in stores;
    }
  }

  /** Steps after the first one of an event that are not stores wait for nothing new. */
  lemma {:induction false} JumpIsRun(tr: Trace, t: int, k: int, done: seq<int>, m: nat) returns (after: seq<int>)
    requires tr.Valid() && 0 <= t < |tr.ipid| && 0 <= k < |tr.prefix| && tr.Mine(k, t) && tr.IsReplay(done)
    requires tr.prefix[k].index <= Count(done, t) <= m < tr.prefix[k].index + tr.prefix[k].size
    requires forall i :: 0 <= i < |tr.ipid| && i != t ==> tr.Seen(k, i) <= Count(done, i)
    requires forall l, n :: 0 <= l < |tr.prefix| && Count(done, t) < n <= m ==> !tr.Updates(l, t, n)
    ensures tr.IsReplay(after) && Count(after, t) == m
    ensures forall i :: i != t ==> Count(after, i) == Count(done, i)
    decreases m - Count(done, t)
  {
    if Count(done, t) == m {
      after := done;
    } else {
      var n := Count(done, t) + 1;
      assert tr.EvValid(k);
      tr.StepsMonotone(k + 1, |tr.prefix|, t);
      forall l | 0 <= l < |tr.prefix| && tr.Carries(l, t, n)
        ensures l == k
      {
        tr.CarrierIsUnique(k, l, t, n);
      }
      assert tr.Unblocked(done, t);
      var next := done + [t];
      assert next[..|next| - 1] == done;
      forall i ensures Count(next, i) == Count(done, i) + if i == t then 1 else 0 { CountAppend(done, t, i); }
      after := JumpIsRun(tr, t, k, next, m);
    }
  }

  ghost predicate ReplayInv(tr: Trace, stores: seq<seq<StoreUpdate>>, threads: seq<ThreadState>, done: seq<int>) {
    && |threads| == |tr.ipid| == |stores| && tr.IsReplay(done)
    && (forall t {:trigger ThreadReady(tr, t, stores, threads, done)} ::
          0 <= t < |tr.ipid| ==> ThreadReady(tr, t, stores, threads, done))
  }

  ghost predicate ThreadReady(tr: Trace, t: int, stores: seq<seq<StoreUpdate>>, threads: seq<ThreadState>, done: seq<int>)
    requires 0 <= t < |tr.ipid| == |threads| == |stores|
  {
    && StoresOf(tr, t, stores[t]) && ThreadValid(tr, t, stores[t], threads[t]) && Count(done, t) == threads[t].pc
  }

  /** The process has finished, or cannot take its next step after `done`. */
  ghost predicate Settled(tr: Trace, t: int, st: ThreadState, done: seq<int>) {
    if st.blocked then AtStep(tr, t, st) && !tr.Unblocked(done, t)
    else st.pfxIndex == |tr.prefix| && st.pc == tr.Total(t)
  }

  datatype Outcome = Finished | Blocked | Stepped

  /** The test whether the process has to wait for another one. */
  method MustWait(tr: Trace, t: int, threads: seq<ThreadState>, c: VClock) returns (b: bool)
    requires |threads| == |tr.ipid|
    ensures b <==> exists i :: 0 <= i < |threads| && i != t && threads[i].pc < At(c, tr.ipid[i])
  {
    for i := 0 to |threads|
      invariant forall l :: 0 <= l < i && l != t ==> threads[l].pc >= At(c, tr.ipid[l])
    {
      if i != t && threads[i].pc < At(c, tr.ipid[i]) {
        return true;
      }
    }
    return false;
  }

  /**
   * Take the step, and those after it up to the end of the event or the next store.  The result `exact` says
   * whether the assertion about the own entry of the block clock holds.
   */
  method TakeStep(tr: Trace, t: int, stores: seq<StoreUpdate>, st: ThreadState, ghost done: seq<int>)
    returns (r: ThreadState, exact: bool, ghost after: seq<int>)
    requires tr.Valid() && 0 <= t < |tr.ipid| && StoresOf(tr, t, stores)
    requires st.blocked && ThreadValid(tr, t, stores, st) && Count(done, t) == st.pc && tr.IsReplay(done) && tr.Unblocked(done, t)
    ensures !r.blocked && ThreadValid(tr, t, stores, r) && Count(after, t) == r.pc > st.pc && tr.IsReplay(after)
    ensures forall i :: i != t ==> Count(after, i) == Count(done, i)
    ensures exact <==> !tr.StoreIsAhead(t, st.pc + 1)
    ensures forall u, n :: tr.AheadAt(u, t, n) && st.pc < n <= r.pc ==> n == st.pc + 1
  {
    var e := tr.prefix[st.pfxIndex];
    assert tr.EvValid(st.pfxIndex);
    var pc := st.pc + 1;
    OwnEntryIsExact(tr, t, stores, st);
    exact := pc == At(st.blockClock, tr.ipid[t]);
    var next := e.index + e.size - 1;
    if st.storeIndex < |stores| && stores[st.storeIndex].store - 1 < next {
      next := stores[st.storeIndex].store - 1;
    }
    assert pc <= next;
    r := st.(pc := next, pfxIndex := if next + 1 == e.index + e.size then st.pfxIndex + 1 else st.pfxIndex, blocked := false);
    SteppedIsValid(tr, t, stores, st, next, r);
    after := StepsAreRun(tr, t, stores, st, done, next);
  }

  lemma SteppedIsValid(tr: Trace, t: int, stores: seq<StoreUpdate>, st: ThreadState, next: nat, r: ThreadState)
    requires tr.Valid() && 0 <= t < |tr.ipid| && AtStep(tr, t, st) && StoresSplit(stores, st.storeIndex, st.pc + 1)
    requires st.pc + 1 <= next < tr.prefix[st.pfxIndex].index + tr.prefix[st.pfxIndex].size
    requires (st.storeIndex < |stores| ==> next < stores[st.storeIndex].store) &&
      (forall a, b :: 0 <= a < b < |stores| ==> stores[a].store < stores[b].store)
    requires var e := tr.prefix[st.pfxIndex];
      r == st.(pc := next, pfxIndex := if next + 1 == e.index + e.size then st.pfxIndex + 1 else st.pfxIndex, blocked := false)
    ensures ThreadValid(tr, t, stores, r)
  {
    assert tr.EvValid(st.pfxIndex);
    if r.pfxIndex < |tr.prefix| {
      assert tr.EvValid(r.pfxIndex);
    }
  }

  lemma StepsAreRun(tr: Trace, t: int, stores: seq<StoreUpdate>, st: ThreadState, done: seq<int>, next: nat) returns (after: seq<int>)
    requires tr.Valid() && 0 <= t < |tr.ipid| && StoresOf(tr, t, stores) && AtStep(tr, t, st) && tr.IsReplay(done)
    requires StoresSplit(stores, st.storeIndex, st.pc + 1) && Count(done, t) == st.pc && tr.Unblocked(done, t)
    requires st.pc + 1 <= next < tr.prefix[st.pfxIndex].index + tr.prefix[st.pfxIndex].size
    requires st.storeIndex < |stores| ==> next < stores[st.storeIndex].store
    ensures Count(after, t) == next && tr.IsReplay(after) && forall i :: i != t ==> Count(after, i) == Count(done, i)
    ensures forall u, n :: tr.AheadAt(u, t, n) && st.pc < n <= next ==> n == st.pc + 1
  {
    assert tr.EvValid(st.pfxIndex);
    FirstStep(tr, t, st.pfxIndex, done);
    forall l | 0 <= l < |tr.prefix| && tr.prefix[l].aux && tr.prefix[l].proc == t
      ensures tr.prefix[l].origin <= st.pc + 1 || next < tr.prefix[l].origin
    {
      assert StoreUpdate(tr.prefix[l].origin, l) in stores;
    }
    after := JumpIsRun(tr, t, st.pfxIndex, done + [t], next);
  }

  lemma FirstStep(tr: Trace, t: int, k: int, done: seq<int>)
    requires tr.IsReplay(done) && tr.Unblocked(done, t) && 0 <= k < |tr.prefix| && tr.Carries(k, t, Count(done, t) + 1)
    ensures tr.IsReplay(done + [t]) && Count(done + [t], t) == Count(done, t) + 1
    ensures forall i :: i != t ==> Count(done + [t], i) == Count(done, i)
    ensures forall i :: 0 <= i < |tr.ipid| && i != t ==> tr.Seen(k, i) <= Count(done + [t], i)
  {
    var next := done + [t];
    assert next[..|next| - 1] == done;
    forall i
      ensures Count(next, i) == Count(done, i) + if i == t then 1 else 0
    {
      CountAppend(done, t, i);
    }
  }

  /** Only the first of the steps taken is a store that has been considered; its update is ahead if not `exact`. */
  ghost predicate VisitedExactly(tr: Trace, t: int, done: seq<int>, after: seq<int>, exact: bool)
    requires 0 <= t < |tr.ipid|
  {
    && tr.IsReplay(done) && tr.Unblocked(done, t) && (forall i :: i != t ==> Count(after, i) == Count(done, i))
    && (exact <==> !tr.StoreIsAhead(t, Count(done, t) + 1))
    && (forall u, n :: tr.AheadAt(u, t, n) && Count(done, t) < n <= Count(after, t) ==> n == Count(done, t) + 1)
  }

  /** One turn of the scheduled process. */
  method Visit(tr: Trace, t: int, stores: seq<seq<StoreUpdate>>, threads: seq<ThreadState>, ghost done: seq<int>)
    returns (r: seq<ThreadState>, outcome: Outcome, exact: bool, ghost after: seq<int>)
    requires tr.Valid() && ReplayInv(tr, stores, threads, done) && 0 <= t < |threads|
    ensures ReplayInv(tr, stores, r, after) && r == threads[t := r[t]]
    ensures !outcome.Stepped? ==> exact
    ensures outcome.Stepped? ==> VisitedExactly(tr, t, done, after, exact)
    ensures outcome.Stepped? ==> r[t].pc > threads[t].pc
    ensures !outcome.Stepped? ==> after == done && Settled(tr, t, r[t], done) && r[t].pc == threads[t].pc
  {
    assert ThreadReady(tr, t, stores, threads, done);
    var st := Advance(tr, t, threads[t]);
    if |tr.prefix| <= st.pfxIndex {
      r, outcome, exact, after := threads[t := st], Finished, true, done;
      KeepOthers(tr, t, stores, threads, done, r, after);
      return;
    }
    if !st.blocked {
      st := Consider(tr, t, stores[t], st);
      st := st.(blocked := true);
    }
    BlockClockIsDemand(tr, t, stores[t], st, done);
    forall i | 0 <= i < |threads| && i != t
      ensures Count(done, i) == threads[i].pc
    {
      assert ThreadReady(tr, i, stores, threads, done);
    }
    var blocked := MustWait(tr, t, threads, st.blockClock);
    if blocked {
      r, outcome, exact, after := threads[t := st], Blocked, true, done;
    } else {
      st, exact, after := TakeStep(tr, t, stores[t], st, done);
      r, outcome := threads[t := st], Stepped;
    }
    KeepOthers(tr, t, stores, threads, done, r, after);
  }

  lemma KeepOthers(tr: Trace, t: int, stores: seq<seq<StoreUpdate>>, threads: seq<ThreadState>, done: seq<int>,
                   r: seq<ThreadState>, after: seq<int>)
    requires ReplayInv(tr, stores, threads, done) && 0 <= t < |threads| && |r| == |threads| && r == threads[t := r[t]]
    requires tr.IsReplay(after) && ThreadReady(tr, t, stores, r, after)
    requires forall i :: i != t ==> Count(after, i) == Count(done, i)
    ensures ReplayInv(tr, stores, r, after)
  {
    forall i | 0 <= i < |tr.ipid|
      ensures ThreadReady(tr, i, stores, r, after)
    {
      if i != t { assert ThreadReady(tr, i, stores, threads, done); }
    }
  }

  /** The steps left to the first `m` processes. */
  function Left(tr: Trace, threads: seq<ThreadState>, m: nat): int
    requires m <= |threads|
  {
    if m == 0 then 0 else Left(tr, threads, m - 1) + tr.Total(m - 1) - threads[m - 1].pc
  }

  lemma {:induction false} LeftShrinks(tr: Trace, threads: seq<ThreadState>, r: seq<ThreadState>, t: int, m: nat)
    requires 0 <= t < |threads| == |r| && r == threads[t := r[t]] && m <= |threads|
    ensures Left(tr, r, m) == Left(tr, threads, m) - if t < m then r[t].pc - threads[t].pc else 0
  {
    if m > 0 {
      LeftShrinks(tr, threads, r, t, m - 1);
    }
  }

  lemma {:induction false} LeftIsNat(tr: Trace, stores: seq<seq<StoreUpdate>>, threads: seq<ThreadState>, done: seq<int>, m: nat)
    requires ReplayInv(tr, stores, threads, done) && m <= |threads|
    ensures Left(tr, threads, m) >= 0
  {
    if m > 0 {
      LeftIsNat(tr, stores, threads, done, m - 1);
      assert ThreadReady(tr, m - 1, stores, threads, done);
      tr.RunIsBounded(done, m - 1);
    }
  }

  /** No store has been taken whose update is ahead; or the replay can come to one. */
  ghost predicate ExactSoFar(tr: Trace, done: seq<int>, exact: bool)
    requires tr.Valid()
  {
    if exact then forall u :: 0 <= u < |tr.prefix| && tr.Ahead(u) ==> Count(done, tr.prefix[u].proc) < tr.prefix[u].origin
    else exists d, u :: tr.ReachesAhead(d, u)
  }

  lemma VisitKeepsExact(tr: Trace, t: int, done: seq<int>, after: seq<int>, was: bool, exact: bool)
    requires tr.Valid() && 0 <= t < |tr.ipid| && ExactSoFar(tr, done, was) && VisitedExactly(tr, t, done, after, exact)
    ensures ExactSoFar(tr, after, was && exact)
  {
    if !exact {
      var n := Count(done, t) + 1;
      var u :| tr.AheadAt(u, t, n);
      assert tr.ReachesAhead(done, u);
    } else if was {
      forall u | 0 <= u < |tr.prefix| && tr.Ahead(u)
        ensures Count(after, tr.prefix[u].proc) < tr.prefix[u].origin
      {
        assert tr.AheadAt(u, tr.prefix[u].proc, tr.prefix[u].origin);
      }
    }
  }

  /** A turn shortens what is left, or settles the process and changes nothing for the others. */
  method Turn(tr: Trace, t: int, stores: seq<seq<StoreUpdate>>, threads: seq<ThreadState>, was: bool, ghost done: seq<int>)
    returns (r: seq<ThreadState>, outcome: Outcome, exact: bool, ghost after: seq<int>)
    requires tr.Valid() && ReplayInv(tr, stores, threads, done) && 0 <= t < |threads| && ExactSoFar(tr, done, was)
    ensures ReplayInv(tr, stores, r, after) && |r| == |threads| && ExactSoFar(tr, after, exact)
    ensures outcome.Stepped? ==> 0 <= Left(tr, r, |r|) < Left(tr, threads, |threads|)
    ensures !outcome.Stepped? ==> after == done && Left(tr, r, |r|) == Left(tr, threads, |threads|)
    ensures !outcome.Stepped? && AllSettledBelow(tr, threads, done, t) ==> AllSettledBelow(tr, r, done, t + 1)
  {
    r, outcome, exact, after := Visit(tr, t, stores, threads, done);
    LeftShrinks(tr, threads, r, t, |threads|);
    LeftIsNat(tr, stores, r, after, |threads|);
    if outcome.Stepped? {
      VisitKeepsExact(tr, t, done, after, was, exact);
    }
    exact := was && exact;
  }

  /** The threads are where the steps `done` have led, and none can take another step. */
  ghost predicate RanOut(tr: Trace, stores: seq<seq<StoreUpdate>>, threads: seq<ThreadState>, exact: bool, done: seq<int>)
    requires tr.Valid()
  {
    ReplayInv(tr, stores, threads, done) && AllSettledBelow(tr, threads, done, |threads|) && ExactSoFar(tr, done, exact)
  }

  ghost predicate AllSettledBelow(tr: Trace, threads: seq<ThreadState>, done: seq<int>, n: nat)
    requires tr.Valid() && n <= |threads| == |tr.ipid|
  {
    forall t :: 0 <= t < n ==> Settled(tr, t, threads[t], done)
  }

  ghost predicate Underway(tr: Trace, stores: seq<seq<StoreUpdate>>, threads: seq<ThreadState>, exact: bool, done: seq<int>)
    requires tr.Valid()
  {
    ReplayInv(tr, stores, threads, done) && ExactSoFar(tr, done, exact)
  }

  lemma Wrap(thread: nat, n: nat)
    requires thread < n
    ensures (thread + 1) % n == if thread + 1 == n then 0 else thread + 1
  {
  }

  /**
   * Replay as far as possible: round after round, until nobody has taken a step for a whole round.  The result
   * `exact` says whether the assertion about block clocks has held throughout.
   */
  method Replay(tr: Trace, stores: seq<seq<StoreUpdate>>) returns (threads: seq<ThreadState>, exact: bool)
    requires tr.Valid() && |stores| == |tr.ipid| && forall t :: 0 <= t < |stores| ==> StoresOf(tr, t, stores[t])
    ensures exists done :: RanOut(tr, stores, threads, exact, done)
  {
    threads := seq(|tr.ipid|, _ => ThreadState(0, 0, 0, false, []));
    ghost var done := [];
    StartIsValid(tr, stores, threads);
    exact := true;
    var thread, alive := 0, false;
    while true
      invariant 0 <= thread < |tr.ipid| == |threads| && Underway(tr, stores, threads, exact, done)
      invariant !alive ==> AllSettledBelow(tr, threads, done, thread)
      decreases Left(tr, threads, |threads|), alive, |tr.ipid| - thread
    {
      var outcome: Outcome;
      threads, outcome, exact, done := Turn(tr, thread, stores, threads, exact, done);
      if outcome.Stepped? {
        alive := true;
      } else {
        Wrap(thread, |tr.ipid|);
        thread := (thread + 1) % |tr.ipid|;
        if thread == 0 {
          if !alive {
            break;
          }
          alive := false;
        }
      }
    }
    assert RanOut(tr, stores, threads, exact, done);
  }

  lemma StartIsValid(tr: Trace, stores: seq<seq<StoreUpdate>>, threads: seq<ThreadState>)
    requires tr.Valid() && |stores| == |tr.ipid| && forall t :: 0 <= t < |stores| ==> StoresOf(tr, t, stores[t])
    requires |threads| == |tr.ipid| && forall t :: 0 <= t < |threads| ==> threads[t] == ThreadState(0, 0, 0, false, [])
    ensures ReplayInv(tr, stores, threads, []) && ExactSoFar(tr, [], true)
  {
    forall u | 0 <= u < |tr.prefix| && tr.Ahead(u)
      ensures tr.prefix[u].origin > 0
    {
      assert tr.EvValid(u);
    }
    forall t | 0 <= t < |tr.ipid|
      ensures ThreadReady(tr, t, stores, threads, [])
    {
      if |tr.prefix| > 0 { assert tr.EvValid(0); }
      forall a | 0 <= a < |stores[t]|
        ensures stores[t][a].store > 0
      {
        assert tr.EvValid(stores[t][a].update);
      }
    }
  }

  /** The stores with updates among the first `m` events, by process, as they were found. */
  ghost predicate Found(tr: Trace, m: int, stores: seq<seq<StoreUpdate>>)
    requires 0 <= m <= |tr.prefix|
  {
    && |stores| == |tr.ipid|
    && (forall t, a :: 0 <= t < |stores| && 0 <= a < |stores[t]| ==>
          stores[t][a].update < m && tr.Updates(stores[t][a].update, t, stores[t][a].store))
    && (forall t, a, b :: 0 <= t < |stores| && 0 <= a < b < |stores[t]| ==> stores[t][a].update < stores[t][b].update)
    && (forall k :: 0 <= k < m && tr.prefix[k].aux && tr.prefix[k].proc < |stores| ==>
          StoreUpdate(tr.prefix[k].origin, k) in stores[tr.prefix[k].proc])
  }

  lemma FindKeepsFound(tr: Trace, m: int, stores: seq<seq<StoreUpdate>>, r: seq<seq<StoreUpdate>>)
    requires 0 <= m < |tr.prefix| && Found(tr, m, stores) && tr.prefix[m].proc < |tr.ipid|
    requires var t := tr.prefix[m].proc;
      r == if tr.prefix[m].aux then stores[t := stores[t] + [StoreUpdate(tr.prefix[m].origin, m)]] else stores
    ensures Found(tr, m + 1, r)
  {
    forall k | 0 <= k < m + 1 && tr.prefix[k].aux && tr.prefix[k].proc < |stores|
      ensures StoreUpdate(tr.prefix[k].origin, k) in r[tr.prefix[k].proc]
    {
      var t := tr.prefix[k].proc;
      if k < m {
        assert StoreUpdate(tr.prefix[k].origin, k) in stores[t];
      } else {
        assert r[t][|stores[t]|] == StoreUpdate(tr.prefix[k].origin, k);
      }
    }
  }

  /** The list of all store events of each process, in program order. */
  method CollectStores(tr: Trace) returns (stores: seq<seq<StoreUpdate>>)
    requires tr.Valid()
    ensures |stores| == |tr.ipid| && forall t :: 0 <= t < |stores| ==> StoresOf(tr, t, stores[t])
  {
    var found: seq<seq<StoreUpdate>> := seq(|tr.ipid|, _ => []);
    for k := 0 to |tr.prefix|
      invariant Found(tr, k, found)
    {
      assert tr.EvValid(k);
      ghost var was := found;
      if tr.prefix[k].aux {
        var t := tr.prefix[k].proc;
        found := found[t := found[t] + [StoreUpdate(tr.prefix[k].origin, k)]];
      }
      FindKeepsFound(tr, k, was, found);
    }
    stores := [];
    for t := 0 to |tr.ipid|
      invariant |stores| == t && forall l :: 0 <= l < t ==> StoresOf(tr, l, stores[l])
    {
      forall a, b | 0 <= a < b < |found[t]|
        ensures found[t][a].store != found[t][b].store
      {
        assert tr.EvValid(found[t][a].update) && tr.EvValid(found[t][b].update);
      }
      var s := SortStores(found[t]);
      forall a | 0 <= a < |s|
        ensures s[a].update < |tr.prefix| && tr.Updates(s[a].update, t, s[a].store)
      {
        assert s[a] in found[t];
      }
      stores := stores + [s];
    }
  }

  // ----- The verdict -------------------------------------------------------------------------------------

  /** After `done` nobody can take a step. */
  ghost predicate Stuck(tr: Trace, done: seq<int>) {
    tr.IsReplay(done) && forall i :: 0 <= i < |tr.ipid| ==> !tr.Unblocked(done, i)
  }

  /** Event `u` updates memory with a store that cannot be taken after `done`. */
  ghost predicate StuckUpdate(tr: Trace, done: seq<int>, u: int) {
    && 0 <= u < |tr.prefix| && tr.prefix[u].aux && tr.prefix[u].proc < |tr.ipid|
    && tr.prefix[u].origin == Count(done, tr.prefix[u].proc) + 1 <= tr.Total(tr.prefix[u].proc)
  }

  /** The latest update among the stores at which the replay got stuck. */
  ghost predicate IsLatestStuck(tr: Trace, u: int) {
    exists done :: Stuck(tr, done) && StuckUpdate(tr, done, u) && forall v :: StuckUpdate(tr, done, v) ==> v <= u
  }

  ghost predicate StuckUpdateOf(tr: Trace, u: int, t: int, n: int) {
    0 <= u < |tr.prefix| && tr.Updates(u, t, n)
  }

  /** A process blocked at a step that is not a store waits for one that is blocked at an earlier event. */
  lemma BlockedByEarlier(tr: Trace, t: int, n: int, stores: seq<seq<StoreUpdate>>, threads: seq<ThreadState>, done: seq<int>)
    returns (q: int)
    requires tr.Valid() && ReplayInv(tr, stores, threads, done) && 0 <= t < |threads| && threads[t].blocked
    requires forall i :: 0 <= i < |threads| ==> Settled(tr, i, threads[i], done)
    requires n == threads[t].pc + 1 && forall u :: !StuckUpdateOf(tr, u, t, n)
    ensures 0 <= q < |threads| && threads[q].blocked && threads[q].pfxIndex < threads[t].pfxIndex
  {
    var k := threads[t].pfxIndex;
    assert ThreadReady(tr, t, stores, threads, done) && tr.EvValid(k);
    BlockClockIsDemand(tr, t, stores[t], threads[t], done);
    q :| 0 <= q < |tr.ipid| && q != t && At(threads[t].blockClock, tr.ipid[q]) > Count(done, q);
    var a := threads[t].storeIndex - 1;
    assert a >= 0 && stores[t][a].store == n ==> StuckUpdateOf(tr, stores[t][a].update, t, n);
    assert tr.Seen(k, q) > Count(done, q);
    assert ThreadReady(tr, q, stores, threads, done);
    tr.StepsMonotone(k, |tr.prefix|, q);
    assert threads[q].blocked;
    assert tr.EvValid(threads[q].pfxIndex);
    if k <= threads[q].pfxIndex {
      tr.StepsMonotone(k, threads[q].pfxIndex, q);
    }
  }

  /** Hence some process is blocked at a store. */
  lemma {:induction false} SomeStoreIsStuck(tr: Trace, t: int, stores: seq<seq<StoreUpdate>>, threads: seq<ThreadState>, done: seq<int>)
    requires tr.Valid() && ReplayInv(tr, stores, threads, done) && 0 <= t < |threads| && threads[t].blocked
    requires forall i :: 0 <= i < |threads| ==> Settled(tr, i, threads[i], done)
    ensures exists u :: StuckUpdate(tr, done, u)
    decreases threads[t].pfxIndex
  {
    assert ThreadReady(tr, t, stores, threads, done);
    var n := threads[t].pc + 1;
    if u :| StuckUpdateOf(tr, u, t, n) {
      assert tr.EvValid(threads[t].pfxIndex);
      tr.StepsMonotone(threads[t].pfxIndex + 1, |tr.prefix|, t);
      assert StuckUpdate(tr, done, u);
    } else {
      var q := BlockedByEarlier(tr, t, n, stores, threads, done);
      SomeStoreIsStuck(tr, q, stores, threads, done);
    }
  }

  /** The update that a blocked process waits to take its store for, as the last loop looks it up. */
  lemma BlockedAtStore(tr: Trace, t: int, stores: seq<seq<StoreUpdate>>, threads: seq<ThreadState>, done: seq<int>, u: int)
    requires tr.Valid() && ReplayInv(tr, stores, threads, done) && 0 <= t < |threads| && Settled(tr, t, threads[t], done)
    requires 0 <= u < |tr.prefix| && tr.prefix[u].proc == t
    ensures StuckUpdate(tr, done, u) <==>
      var st := threads[t];
      st.blocked && 0 < st.storeIndex <= |stores[t]| && stores[t][st.storeIndex - 1] == StoreUpdate(st.pc + 1, u)
  {
    assert ThreadReady(tr, t, stores, threads, done);
    if threads[t].blocked {
      assert tr.EvValid(threads[t].pfxIndex);
      tr.StepsMonotone(threads[t].pfxIndex + 1, |tr.prefix|, t);
    }
    if StuckUpdate(tr, done, u) {
      assert StoreUpdate(tr.prefix[u].origin, u) in stores[t];
    }
  }

  /** The answer of the replay and the truth differ exactly if the answer is no and some update is ahead. */
  lemma RightIff(tr: Trace)
    requires tr.Valid()
    ensures (exists order :: tr.IsScOrder(order)) <==> (exists order :: tr.IsReplayOrder(order)) && !tr.SomeAhead()
  {
    if order :| tr.IsScOrder(order) {
      tr.RunIsReplay(order);
      assert tr.IsReplayOrder(order);
      if tr.SomeAhead() { tr.AheadMeansNone(order); }
    }
    if order :| tr.IsReplayOrder(order) {
      if !tr.SomeAhead() {
        tr.ReplayIsRun(order);
        assert tr.IsScOrder(order);
      }
    }
  }

  /** If the assertion has held until the replay ran out, no replay can make it fail. */
  lemma ExactMeansNeverReached(tr: Trace, done: seq<int>, d: seq<int>, u: int)
    requires tr.Valid() && Stuck(tr, done) && ExactSoFar(tr, done, true)
    ensures !tr.ReachesAhead(d, u)
  {
    if tr.ReachesAhead(d, u) {
      var t := tr.prefix[u].proc;
      FirstStep(tr, t, u, d);
      tr.NoOrderOvertakes(done, d + [t], t);
    }
  }

  /** Nor can the order be completed if there is an update ahead: its store is never taken. */
  lemma ExactMeansRight(tr: Trace, done: seq<int>)
    requires tr.Valid() && Stuck(tr, done) && ExactSoFar(tr, done, true) && tr.SomeAhead()
    ensures !exists order :: tr.IsReplayOrder(order)
  {
    var u :| 0 <= u < |tr.prefix| && tr.Ahead(u);
    assert tr.EvValid(u);
    tr.StepsMonotone(u, |tr.prefix|, tr.prefix[u].proc);
    forall order | tr.IsReplayOrder(order)
      ensures false
    {
      tr.NoOrderOvertakes(done, order, tr.prefix[u].proc);
    }
  }

  lemma Verdict(tr: Trace, done: seq<int>, exact: bool)
    requires tr.Valid() && Stuck(tr, done) && ExactSoFar(tr, done, exact)
    ensures exact <==> !exists d, u :: tr.ReachesAhead(d, u)
    ensures exact && tr.SomeAhead() ==> !exists order :: tr.IsReplayOrder(order)
    ensures (exists order :: tr.IsScOrder(order)) <==> (exists order :: tr.IsReplayOrder(order)) && !tr.SomeAhead()
  {
    if exact {
      forall d, u
        ensures !tr.ReachesAhead(d, u)
      {
        ExactMeansNeverReached(tr, done, d, u);
      }
      if tr.SomeAhead() { ExactMeansRight(tr, done); }
    }
    RightIff(tr);
  }

  /** The last loop: the latest update of a store at which a process is blocked. */
  method LatestStuck(tr: Trace, stores: seq<seq<StoreUpdate>>, threads: seq<ThreadState>, exact: bool, ghost done: seq<int>)
    returns (cycle: bool, loc: Option<nat>)
    requires tr.Valid() && RanOut(tr, stores, threads, exact, done)
    ensures cycle <==> exists t :: 0 <= t < |threads| && threads[t].blocked
    ensures cycle <==> loc.Some?
    ensures cycle ==> StuckUpdate(tr, done, loc.value) && forall v :: StuckUpdate(tr, done, v) ==> v <= loc.value
  {
    var upd: int := -1;
    cycle := false;
    loc := None;
    for i := 0 to |threads|
      invariant cycle <==> exists t :: 0 <= t < i && threads[t].blocked
      invariant (loc.None? && upd == -1) || (cycle && loc == Some(upd) && StuckUpdate(tr, done, upd))
      invariant forall v :: StuckUpdate(tr, done, v) && tr.prefix[v].proc < i ==> v <= upd
    {
      var st := threads[i];
      assert ThreadReady(tr, i, stores, threads, done);
      forall u | 0 <= u < |tr.prefix| && tr.prefix[u].proc == i
        ensures StuckUpdate(tr, done, u) <==>
          (st.blocked && 0 < st.storeIndex && stores[i][st.storeIndex - 1] == StoreUpdate(st.pc + 1, u))
      {
        BlockedAtStore(tr, i, stores, threads, done, u);
      }
      if st.blocked {
        cycle := true;
        if 0 < st.storeIndex && stores[i][st.storeIndex - 1].store == st.pc + 1 {
          var u := stores[i][st.storeIndex - 1].update;
          if u > upd {
            upd := u;
            loc := Some(u);
          }
        }
      }
    }
    if t :| 0 <= t < |threads| && threads[t].blocked {
      SomeStoreIsStuck(tr, t, stores, threads, done);
    }
    assert !cycle || 0 <= upd;
  }

  /**
   * `has_cycle`: the latest update that is part of a cycle, if there is any.  The result `exact` says whether
   * the assertion about block clocks has held throughout; where assertions are compiled away, the replay goes on.
   */
  method HasCycle(tr: Trace) returns (cycle: bool, loc: Option<nat>, exact: bool)
    requires tr.Valid()
    ensures exact <==> !exists done, u :: tr.ReachesAhead(done, u)
    ensures exact || !tr.SomeAhead() ==> (cycle <==> !exists order :: tr.IsScOrder(order))
    ensures (cycle <==> !exists order :: tr.IsScOrder(order)) <==> (cycle || !tr.SomeAhead())
    ensures cycle <==> !exists order :: tr.IsReplayOrder(order)
    ensures cycle <==> loc.Some?
    ensures cycle ==> IsLatestStuck(tr, loc.value)
  {
    var stores := CollectStores(tr);
    var threads;
    threads, exact := Replay(tr, stores);
    ghost var done :| RanOut(tr, stores, threads, exact, done);
    AllSettled(tr, stores, threads, done);
    Verdict(tr, done, exact);
    cycle, loc := LatestStuck(tr, stores, threads, exact, done);
  }

  /**
   * A store, a full memory conflict of the same process while the store is pending, and the update.  The
   * update sees the conflict, so its clock is ahead.
   */
  const AHEAD_EXAMPLE := Trace(
    [Ev(0, 0, false, 1, 1, 1, [1]), Ev(0, 0, false, 2, 1, 2, [2]), Ev(1, 0, true, 1, 1, 1, [2, 1])], [0])

  /** The assertion fails on it at once; if assertions are compiled away, the cycle is missed. */
  lemma AheadExample()
    ensures AHEAD_EXAMPLE.Valid() && AHEAD_EXAMPLE.ReachesAhead([], 2)
    ensures AHEAD_EXAMPLE.IsReplayOrder([0, 0]) && !exists order :: AHEAD_EXAMPLE.IsScOrder(order)
  {
    var tr := AHEAD_EXAMPLE;
    assert tr.StepsBefore(1, 0) == 1 && tr.StepsBefore(2, 0) == 2 && tr.Total(0) == 2;
    assert tr.EvValid(0) && tr.EvValid(1) && tr.EvValid(2);
    assert tr.Valid() && tr.Ahead(2);
    assert Count([], 0) == 0 && tr.Unblocked([], 0) && tr.AheadAt(2, 0, 1);
    assert [0][..0] == [] && tr.IsReplay([0]) && Count([0], 0) == 1;
    assert tr.Unblocked([0], 0);
    assert [0, 0][..1] == [0] && tr.IsReplay([0, 0]) && Count([0, 0], 0) == 2;
    RightIff(tr);
  }

  /** When all are settled, the run is complete or proves that no order can be replayed. */
  lemma AllSettled(tr: Trace, stores: seq<seq<StoreUpdate>>, threads: seq<ThreadState>, done: seq<int>)
    requires tr.Valid() && ReplayInv(tr, stores, threads, done)
    requires forall t :: 0 <= t < |threads| ==> Settled(tr, t, threads[t], done)
    ensures Stuck(tr, done)
    ensures (exists t :: 0 <= t < |threads| && threads[t].blocked) <==> !exists order :: tr.IsReplayOrder(order)
  {
    forall i | 0 <= i < |threads|
      ensures !tr.Unblocked(done, i) && Count(done, i) == threads[i].pc
    {
      assert ThreadReady(tr, i, stores, threads, done);
    }
    if t :| 0 <= t < |threads| && threads[t].blocked {
      assert ThreadReady(tr, t, stores, threads, done) && tr.EvValid(threads[t].pfxIndex);
      tr.StepsMonotone(threads[t].pfxIndex + 1, |tr.prefix|, t);
      tr.StuckMeansNone(done, t);
    } else {
      assert tr.IsReplayOrder(done);
    }
  }
}
