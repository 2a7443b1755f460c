/**
 * The work-stealing scheduler of src/RFSCDecisionTree.cpp driven by the worker loop of
 * src/DPORDriver.cpp, as interleaved steps.  A step is what a worker does between two points where another
 * worker may come in: taking a lock, one access to a queue, a flag or the counter, or leaving a lock.
 *
 * A node that is dequeued in a pruned subtree of the decision tree is dropped (src/RFSCTraceBuilder.cpp): it is
 * not explored, and not counted down either.
 */
module WorkStealing {
  import opened WorkQueues
  import opened DecisionTrees

  /** Where a worker is in its loop. */
  datatype PC =
    | Start                                 // about to call `dequeue`
    | DequeueOwn                            // holds its own queue lock, about to read the flag
    | OwnQueue                              // holds its own queue lock, about to look at its queue
    | WantBig                               // found its own queue empty; wants the big lock
    | Scan                                  // holds the big lock, at the head of the loop in `dequeue`
    | ScanQueue                             // holds the big lock, has found the flag unset
    | TryOthers(others: seq<int>)           // holds the big lock; wants the lock of others[0], or will wait
    | Robbing(victim: int, others: seq<int>)// holds the big lock and the lock of the victim
    | Waiting                               // in `cv.wait`, not notified
    | Notified                              // in `cv.wait`, wants the big lock back
    | Checking(node: Node, at: int)         // in `is_pruned`, at a node above the one that was dequeued
    | Working(node: Node)                   // explores a node
    | Announced(node: Node, child: Node)    // in `enqueue`: has counted the child; wants its own queue lock
    | Pushing(node: Node, child: Node)      // in `enqueue`: holds its own queue lock
    | Pushed(node: Node)                    // in `enqueue`: has pushed; will notify one and leave the lock
    | Done(node: Node)                      // explored; wants the state lock
    | Counting(node: Node)                  // holds the state lock, about to decrement the counter
    | WantHalt                              // holds the state lock, in `halt`; wants the big lock
    | Halting                               // holds the state and big locks, about to set the flag
    | Halted                                // has set the flag, about to notify all
    | Exited

  datatype State = State(
    pcs: seq<PC>, queues: seq<Queue>, outstanding: int, halting: bool,
    created: set<Node>, handedOut: set<Node>, finished: set<Node>, dropped: set<Node>,
    tree: seq<DecisionNode>, aborted: bool)
  {
    ghost predicate IsWorker(w: int) {
      0 <= w < |pcs|
    }

    ghost predicate Shape() {
      |pcs| == |queues|
    }
  }

  // ----- Locks and nodes held at each point --------------------------------------------------------------

  /** Does worker `w`, being at `pc`, hold the lock of queue `q`? */
  predicate HoldsQueue(pc: PC, w: int, q: int) {
    match pc
    case DequeueOwn => q == w
    case OwnQueue => q == w
    case Pushing(_, _) => q == w
    case Pushed(_) => q == w
    case Robbing(victim, _) => q == victim
    case _ => false
  }

  predicate HoldsBig(pc: PC) {
    pc.Scan? || pc.ScanQueue? || pc.TryOthers? || pc.Robbing? || pc.Halting? || pc.Halted?
  }

  predicate HoldsState(pc: PC) {
    pc.Counting? || pc.WantHalt? || pc.Halting? || pc.Halted?
  }

  ghost predicate QueueFree(s: State, q: int) {
    forall v :: s.IsWorker(v) ==> !HoldsQueue(s.pcs[v], v, q)
  }

  ghost predicate BigFree(s: State) {
    forall v :: s.IsWorker(v) ==> !HoldsBig(s.pcs[v])
  }

  ghost predicate StateFree(s: State) {
    forall v :: s.IsWorker(v) ==> !HoldsState(s.pcs[v])
  }

  /** The queues that worker `w` reads or writes at `pc`. */
  predicate Accesses(pc: PC, w: int, q: int) {
    match pc
    case OwnQueue => q == w
    case Pushing(_, _) => q == w
    case ScanQueue => q == w
    case TryOthers(_) => q == w
    case Robbing(victim, _) => q == w || q == victim
    case _ => false
  }

  /** The node that a worker has taken and not yet finished. */
  function Explored(pc: PC): set<Node> {
    match pc
    case Checking(n, _) => {n}
    case Working(n) => {n}
    case Announced(n, _) => {n}
    case Pushing(n, _) => {n}
    case Pushed(n) => {n}
    case Done(n) => {n}
    case Counting(n) => {n}
    case _ => {}
  }

  /** The node that a worker has counted and not yet pushed. */
  function Child(pc: PC): set<Node> {
    match pc
    case Announced(_, c) => {c}
    case Pushing(_, c) => {c}
    case _ => {}
  }

  // ----- Steps -------------------------------------------------------------------------------------------

  /**
   * What exploration does next: it ends, enqueues a node, puts a new node into the decision tree below another
   * one, or prunes the subtree of a node.
   */
  datatype Job = Finish | Enqueue(child: Node) | Extend(parent: int) | Prune(top: int)

  /**
   * What is left open by a step: the depth that is popped, the depth that is stolen from, the order of the
   * others, whom `notify_one` picks, what exploration does, and whether the exploration is to be stopped
   * because of an error.
   */
  const NOBODY := -1

  datatype Choice = Choice(
    depth: int, stealDepth: int, others: seq<int>, wake: int, job: Job, error: bool)

  function Goto(s: State, w: int, pc: PC): State
    requires s.Shape() && s.IsWorker(w)
  {
    s.(pcs := s.pcs[w := pc])
  }

  ghost predicate CanPop(q: Queue, d: int) {
    Deepest(q, d) && q[d] != []
  }

  /** Worker `w` takes the first node of depth `d` of its own queue; the next thing is to see whether it is pruned. */
  function Took(s: State, w: int, d: int): State
    requires s.Shape() && s.IsWorker(w) && d in s.queues[w] && s.queues[w][d] != []
  {
    var n := s.queues[w][d][0];
    Goto(s, w, Checking(n, n.id)).(queues := s.queues[w := PopFrom(s.queues[w], d)], handedOut := s.handedOut + {n})
  }

  /** `steal` into the own, empty queue. */
  function AfterRobbery(s: State, w: int, victim: int, d: int): State
    requires s.Shape() && s.IsWorker(w) && s.IsWorker(victim) && d in s.queues[victim]
  {
    s.(queues := s.queues[victim := AfterTheft(s.queues[victim], d)][w := Loot(s.queues[victim], d)])
  }

  /** `enqueue` counts the child before it is visible to anybody. */
  function Announce(s: State, w: int, n: Node, c: Node): State
    requires s.Shape() && s.IsWorker(w)
  {
    Goto(s, w, Announced(n, c)).(outstanding := s.outstanding + 1, created := s.created + {c})
  }

  /** The decrement, and the decision to halt: an error to stop for, or nothing left. */
  function Counted(s: State, w: int, n: Node, error: bool): State
    requires s.Shape() && s.IsWorker(w)
  {
    var remain := s.outstanding - 1;
    var r := s.(outstanding := remain, finished := s.finished + {n}, aborted := s.aborted || error);
    if error || remain == 0 then Goto(r, w, WantHalt) else Goto(r, w, Start)
  }

  /** The other workers, in any order. */
  ghost predicate IsShuffle(others: seq<int>, workers: int, w: int) {
    && (forall v :: v in others <==> 0 <= v < workers && v != w)
    && (forall i, j :: 0 <= i < j < |others| ==> others[i] != others[j])
  }

  function NotifyAll(pcs: seq<PC>): (r: seq<PC>)
    ensures |r| == |pcs|
    ensures forall v :: 0 <= v < |pcs| ==> r[v] == if pcs[v] == Waiting then Notified else pcs[v]
  {
    seq(|pcs|, i requires 0 <= i < |pcs| => if pcs[i] == Waiting then Notified else pcs[i])
  }

  /** Inside `dequeue`, or about to call it. */
  predicate InDequeue(pc: PC) {
    pc.Start? || pc.DequeueOwn? || pc.OwnQueue? || pc.WantBig? || pc.Scan? || pc.ScanQueue? || pc.TryOthers? || pc.Robbing? || pc.Waiting? || pc.Notified?
  }

  ghost predicate DequeueEnabled(s: State, w: int, ch: Choice)
    requires s.Shape() && s.IsWorker(w) && InDequeue(s.pcs[w])
  {
    match s.pcs[w]
    case Start => QueueFree(s, w)
    case DequeueOwn => true
    case OwnQueue => s.queues[w] == map[] || CanPop(s.queues[w], ch.depth)
    case WantBig => BigFree(s)
    case Scan => true
    case ScanQueue => if s.queues[w] == map[] then IsShuffle(ch.others, |s.pcs|, w) else CanPop(s.queues[w], ch.depth)
    case TryOthers(others) => others == [] || (s.IsWorker(others[0]) && QueueFree(s, others[0]))
    case Robbing(victim, _) =>
      && s.IsWorker(victim)
      && (s.queues[victim] == map[]
          || (&& Shallowest(s.queues[victim], ch.stealDepth)
              && CanPop(AfterRobbery(s, w, victim, ch.stealDepth).queues[w], ch.depth)))
    case Waiting => false
    case Notified => BigFree(s)
  }

  /** The steps of `WorkstealingPQScheduler::dequeue`. */
  function DequeueStep(s: State, w: int, ch: Choice): (t: State)
    requires s.Shape() && s.IsWorker(w) && InDequeue(s.pcs[w]) && DequeueEnabled(s, w, ch)
    ensures t.Shape() && |t.pcs| == |s.pcs|
  {
    match s.pcs[w]
    case Start => Goto(s, w, DequeueOwn)
    case DequeueOwn => Goto(s, w, if s.halting then Exited else OwnQueue)
    case OwnQueue => if s.queues[w] == map[] then Goto(s, w, WantBig) else Took(s, w, ch.depth)
    case WantBig => Goto(s, w, Scan)
    case Scan => Goto(s, w, if s.halting then Exited else ScanQueue)
    case ScanQueue => if s.queues[w] == map[] then Goto(s, w, TryOthers(ch.others)) else Took(s, w, ch.depth)
    case TryOthers(others) =>
      if others == [] then Goto(s, w, Waiting) else Goto(s, w, Robbing(others[0], others[1..]))
    case Robbing(victim, others) =>
      if s.queues[victim] == map[] then Goto(s, w, TryOthers(others))
      else Took(AfterRobbery(s, w, victim, ch.stealDepth), w, ch.depth)
    case Notified => Goto(s, w, Scan)
  }

  ghost predicate JobEnabled(s: State, job: Job) {
    match job
    case Finish => true
    case Enqueue(c) => c !in s.created && 0 < c.id < |s.tree| && s.tree[c.id].depth == c.depth
    case Extend(parent) => 0 <= parent < |s.tree|
    case Prune(top) => 0 <= top < |s.tree|
  }

  /** `is_pruned` goes up to the root, which is never pruned itself. */
  function Checked(s: State, w: int, n: Node, at: int): State
    requires s.Shape() && s.IsWorker(w) && 0 <= at < |s.tree|
  {
    if s.tree[at].depth == -1 then Goto(s, w, Working(n))
    else if s.tree[at].pruned then Goto(s, w, Start).(dropped := s.dropped + {n})
    else Goto(s, w, Checking(n, s.tree[at].parent))
  }

  function Worked(s: State, w: int, n: Node, job: Job): State
    requires s.Shape() && s.IsWorker(w) && JobEnabled(s, job)
  {
    match job
    case Finish => Goto(s, w, Done(n))
    case Enqueue(c) => Announce(s, w, n, c)
    case Extend(parent) => s.(tree := s.tree + [DecisionNode(s.tree[parent].depth + 1, parent, false, {})])
    case Prune(top) => s.(tree := s.tree[top := s.tree[top].(pruned := true)])
  }

  ghost predicate WorkEnabled(s: State, w: int, ch: Choice)
    requires s.Shape() && s.IsWorker(w) && !InDequeue(s.pcs[w])
  {
    match s.pcs[w]
    case Checking(_, at) => 0 <= at < |s.tree|
    case Working(_) => JobEnabled(s, ch.job)
    case Announced(_, _) => QueueFree(s, w)
    case Pushing(_, _) => true
    case Pushed(_) =>
      || (s.IsWorker(ch.wake) && s.pcs[ch.wake] == Waiting)
      || (ch.wake == NOBODY && forall v :: s.IsWorker(v) ==> s.pcs[v] != Waiting)
    case Done(_) => StateFree(s)
    case Counting(_) => true
    case WantHalt => BigFree(s)
    case Halting => true
    case Halted => true
    case Exited => false
  }

  /** The steps of the worker loop, of `is_pruned`, of `enqueue` and of `halt`. */
  function WorkStep(s: State, w: int, ch: Choice): (t: State)
    requires s.Shape() && s.IsWorker(w) && !InDequeue(s.pcs[w]) && WorkEnabled(s, w, ch)
    ensures t.Shape() && |t.pcs| == |s.pcs|
  {
    match s.pcs[w]
    case Checking(n, at) => Checked(s, w, n, at)
    case Working(n) => Worked(s, w, n, ch.job)
    case Announced(n, c) => Goto(s, w, Pushing(n, c))
    case Pushing(n, c) => Goto(s, w, Pushed(n)).(queues := s.queues[w := PushTo(s.queues[w], c)])
    case Pushed(n) =>
      var r := Goto(s, w, Working(n));
      if ch.wake == NOBODY then r else Goto(r, ch.wake, Notified)
    case Done(n) => Goto(s, w, Counting(n))
    case Counting(n) => Counted(s, w, n, ch.error)
    case WantHalt => Goto(s, w, Halting)
    case Halting => Goto(s, w, Halted).(halting := true)
    case Halted => s.(pcs := NotifyAll(s.pcs[w := Start]))
  }

  /** May worker `w` take a step, with these choices? */
  ghost predicate Enabled(s: State, w: int, ch: Choice)
    requires s.Shape() && s.IsWorker(w)
  {
    if InDequeue(s.pcs[w]) then DequeueEnabled(s, w, ch) else WorkEnabled(s, w, ch)
  }

  function Apply(s: State, w: int, ch: Choice): (t: State)
    requires s.Shape() && s.IsWorker(w) && Enabled(s, w, ch)
    ensures t.Shape() && |t.pcs| == |s.pcs|
  {
    if InDequeue(s.pcs[w]) then DequeueStep(s, w, ch) else WorkStep(s, w, ch)
  }

  /** `cv.wait` may also return without a notification. */
  ghost predicate SpuriousWakeup(s: State, w: int, t: State)
    requires s.Shape() && s.IsWorker(w)
  {
    s.pcs[w] == Waiting && t == Goto(s, w, Notified)
  }

  ghost predicate Step(s: State, w: int, t: State)
    requires s.Shape() && s.IsWorker(w)
  {
    exists ch :: Enabled(s, w, ch) && t == Apply(s, w, ch)
  }

  ghost predicate Next(s: State, t: State) {
    s.Shape() && exists w :: s.IsWorker(w) && (Step(s, w, t) || SpuriousWakeup(s, w, t))
  }

  /** The root is enqueued before the workers start, on the queue of worker 0. */
  ghost predicate Init(s: State, root: Node) {
    && s.Shape() && |s.pcs| >= 1 && root == Node(0, -1) && s.tree == [DecisionNode(-1, 0, false, {})]
    && (forall w :: s.IsWorker(w) ==> s.pcs[w] == Start)
    && s.queues[0] == map[root.depth := [root]]
    && (forall w :: s.IsWorker(w) && w > 0 ==> s.queues[w] == map[])
    && s.outstanding == 1 && !s.halting
    && s.created == {root} && s.handedOut == {} && s.finished == {} && s.dropped == {} && !s.aborted
  }

  // ----- The invariant -----------------------------------------------------------------------------------

  /** Two workers do not hold the same lock. */
  ghost predicate Apart(a: PC, w: int, b: PC, v: int) {
    && (forall q :: !(HoldsQueue(a, w, q) && HoldsQueue(b, v, q)))
    && !(HoldsBig(a) && HoldsBig(b))
    && !(HoldsState(a) && HoldsState(b))
  }

  /** No lock is held twice. */
  ghost predicate LocksValid(s: State) {
    forall w, v :: s.IsWorker(w) && s.IsWorker(v) && w != v ==> Apart(s.pcs[w], w, s.pcs[v], v)
  }

  /** A worker that looks for work elsewhere has an empty queue, and never visits itself. */
  ghost predicate SearchOk(s: State, w: int)
    requires s.Shape() && s.IsWorker(w)
  {
    match s.pcs[w]
    case WantBig => s.queues[w] == map[]
    case Scan => s.queues[w] == map[]
    case ScanQueue => s.queues[w] == map[]
    case TryOthers(others) => s.queues[w] == map[] && OtherWorkers(s, w, others)
    case Robbing(victim, others) =>
      s.queues[w] == map[] && s.IsWorker(victim) && victim != w && OtherWorkers(s, w, others)
    case Waiting => s.queues[w] == map[]
    case Notified => s.queues[w] == map[]
    case Exited => s.halting
    case _ => true
  }

  ghost predicate SearchValid(s: State)
    requires s.Shape()
  {
    forall w :: s.IsWorker(w) ==> SearchOk(s, w)
  }

  ghost predicate OtherWorkers(s: State, w: int, others: seq<int>) {
    forall i :: 0 <= i < |others| ==> s.IsWorker(others[i]) && others[i] != w
  }

  /** Where a live node is. */
  datatype Place = InQueue(w: int) | BeingExplored(w: int) | BeingPushed(w: int)

  /** The nodes each worker has, and the bookkeeping about nodes. */
  datatype Ledger = Ledger(
    queued: seq<set<Node>>, explored: seq<set<Node>>, child: seq<set<Node>>,
    outstanding: int, created: set<Node>, handedOut: set<Node>, finished: set<Node>, dropped: set<Node>)
  {
    ghost predicate IsWorker(w: int) {
      0 <= w < |queued|
    }

    ghost predicate Shape() {
      |queued| == |explored| == |child|
    }

    /** Node `n` is at place `p`. */
    ghost predicate Has(n: Node, p: Place)
      requires Shape()
    {
      match p
      case InQueue(w) => IsWorker(w) && n in queued[w]
      case BeingExplored(w) => IsWorker(w) && n in explored[w]
      case BeingPushed(w) => IsWorker(w) && n in child[w]
    }

    /** `at` gives the one place of every live node. */
    ghost predicate Placed(at: map<Node, Place>) {
      && Shape()
      && (forall n, p :: Has(n, p) <==> n in at && at[n] == p)
      && (forall n :: n in at ==> (n in handedOut <==> at[n].BeingExplored?))
    }

    /** Nodes are live, finished or dropped, and those that are not finished are counted. */
    ghost predicate Booked(live: set<Node>) {
      && outstanding == |live| + |dropped|
      && created == live + finished + dropped && live !! finished && live !! dropped && finished !! dropped
      && finished + dropped <= handedOut <= created
    }

    ghost predicate Located(at: map<Node, Place>) {
      Placed(at) && Booked(at.Keys)
    }

    /** Every live node is in one place, and the counter counts the live nodes and those that were dropped. */
    ghost predicate Valid() {
      exists at :: Located(at)
    }
  }

  ghost function LedgerOf(s: State): (l: Ledger)
    requires s.Shape()
    ensures |l.queued| == |l.explored| == |l.child| == |s.pcs|
  {
    Ledger(seq(|s.queues|, w requires 0 <= w < |s.queues| => Nodes(s.queues[w])),
           seq(|s.pcs|, w requires 0 <= w < |s.pcs| => Explored(s.pcs[w])),
           seq(|s.pcs|, w requires 0 <= w < |s.pcs| => Child(s.pcs[w])),
           s.outstanding, s.created, s.handedOut, s.finished, s.dropped)
  }

  ghost predicate NodesValid(s: State)
    requires s.Shape()
  {
    (forall w :: s.IsWorker(w) ==> ValidQueue(s.queues[w])) && LedgerOf(s).Valid()
  }

  ghost predicate OnTheWayToHalt(s: State)
    requires s.Shape()
  {
    exists w :: s.IsWorker(w) && (s.pcs[w].WantHalt? || s.pcs[w].Halting?)
  }

  /** Some worker has set the flag and will notify all. */
  ghost predicate Notifying(s: State) {
    exists w :: s.IsWorker(w) && s.pcs[w].Halted?
  }

  ghost predicate NobodyWaits(s: State) {
    forall w :: s.IsWorker(w) ==> !s.pcs[w].Waiting?
  }

  ghost predicate HaltValid(s: State)
    requires s.Shape()
  {
    && (forall w :: s.IsWorker(w) && s.pcs[w].Halted? ==> s.halting)
    && (forall w :: s.IsWorker(w) && (s.pcs[w].ScanQueue? || s.pcs[w].TryOthers? || s.pcs[w].Robbing?) ==> !s.halting)
    && (s.halting ==> Notifying(s) || NobodyWaits(s))
    && (s.outstanding == 0 ==> s.halting || OnTheWayToHalt(s))
    && ((s.halting || OnTheWayToHalt(s)) && !s.aborted ==> s.outstanding == 0)
    && (s.aborted ==> s.halting || OnTheWayToHalt(s))
  }

  /** Nodes are in the tree; whoever checks for pruning is above its node; what was dropped was pruned. */
  ghost predicate TreeValid(s: State) {
    && IsTree(s.tree)
    && (forall n :: n in s.created ==> 0 <= n.id < |s.tree| && s.tree[n.id].depth == n.depth)
    && (forall w {:trigger CheckOk(s, w)} :: s.IsWorker(w) ==> CheckOk(s, w))
    && (forall n :: n in s.dropped ==> 0 <= n.id < |s.tree| && InPrunedSubtree(s.tree, n.id))
  }

  ghost predicate CheckOk(s: State, w: int)
    requires IsTree(s.tree) && s.IsWorker(w)
  {
    match s.pcs[w]
    case Checking(n, at) => 0 <= n.id < |s.tree| && 0 <= at < |s.tree| && IsAncestor(s.tree, at, n.id)
    case _ => true
  }

  ghost predicate Inv(s: State) {
    s.Shape() && |s.pcs| >= 1 && LocksValid(s) && SearchValid(s) && NodesValid(s) && HaltValid(s) && TreeValid(s)
  }

  // ----- Steps keep the invariant ------------------------------------------------------------------------

  /** A step of `w` only notifies others, and only a robbery touches the queue of another worker. */
  ghost predicate OthersFramed(s: State, w: int, t: State)
    requires s.Shape()
  {
    && t.Shape() && |t.pcs| == |s.pcs|
    && (forall v :: s.IsWorker(v) && v != w ==> t.pcs[v] == s.pcs[v] || (s.pcs[v].Waiting? && t.pcs[v].Notified?))
    && (forall v :: s.IsWorker(v) && v != w ==> t.queues[v] == s.queues[v] || s.queues[v] != map[])
    && (s.halting ==> t.halting)
  }

  /** Locks that `w` holds after a step it held before, or they were free. */
  ghost predicate TakesFreeLocks(s: State, w: int, pc: PC)
    requires s.IsWorker(w)
  {
    && (forall q :: HoldsQueue(pc, w, q) ==> HoldsQueue(s.pcs[w], w, q) || QueueFree(s, q))
    && (HoldsBig(pc) ==> HoldsBig(s.pcs[w]) || BigFree(s))
    && (HoldsState(pc) ==> HoldsState(s.pcs[w]) || StateFree(s))
  }

  lemma DequeueFramesOthers(s: State, w: int, ch: Choice)
    requires s.Shape() && s.IsWorker(w) && InDequeue(s.pcs[w]) && SearchOk(s, w) && DequeueEnabled(s, w, ch)
    ensures OthersFramed(s, w, DequeueStep(s, w, ch))
  {
  }

  lemma DequeueTakesFreeLocks(s: State, w: int, ch: Choice)
    requires s.Shape() && s.IsWorker(w) && InDequeue(s.pcs[w]) && SearchOk(s, w) && DequeueEnabled(s, w, ch)
    ensures DequeueStep(s, w, ch).IsWorker(w) && TakesFreeLocks(s, w, DequeueStep(s, w, ch).pcs[w])
  {
  }

  lemma DequeueFrame(s: State, w: int, ch: Choice)
    requires s.Shape() && s.IsWorker(w) && InDequeue(s.pcs[w]) && SearchOk(s, w) && DequeueEnabled(s, w, ch)
    ensures OthersFramed(s, w, DequeueStep(s, w, ch))
    ensures TakesFreeLocks(s, w, DequeueStep(s, w, ch).pcs[w])
  {
    DequeueFramesOthers(s, w, ch);
    DequeueTakesFreeLocks(s, w, ch);
  }

  lemma WorkTakesFreeLocks(s: State, w: int, ch: Choice)
    requires s.Shape() && s.IsWorker(w) && !InDequeue(s.pcs[w]) && WorkEnabled(s, w, ch)
    ensures WorkStep(s, w, ch).Shape() && |WorkStep(s, w, ch).pcs| == |s.pcs|
    ensures TakesFreeLocks(s, w, WorkStep(s, w, ch).pcs[w])
  {
    if s.pcs[w].Working? || s.pcs[w].Checking? {
      ExploringTakesNone(s, w, ch);
    }
  }

  lemma ExploringTakesNone(s: State, w: int, ch: Choice)
    requires s.Shape() && s.IsWorker(w) && (s.pcs[w].Working? || s.pcs[w].Checking?) && WorkEnabled(s, w, ch)
    ensures var to := WorkStep(s, w, ch).pcs[w]; !HoldsBig(to) && !HoldsState(to) && forall q :: !HoldsQueue(to, w, q)
  {
  }

  lemma WorkFramesOthers(s: State, w: int, ch: Choice)
    requires s.Shape() && s.IsWorker(w) && !InDequeue(s.pcs[w]) && WorkEnabled(s, w, ch)
    ensures OthersFramed(s, w, WorkStep(s, w, ch))
  {
  }

  lemma WorkFrame(s: State, w: int, ch: Choice)
    requires s.Shape() && s.IsWorker(w) && !InDequeue(s.pcs[w]) && WorkEnabled(s, w, ch)
    ensures OthersFramed(s, w, WorkStep(s, w, ch))
    ensures TakesFreeLocks(s, w, WorkStep(s, w, ch).pcs[w])
  {
    WorkFramesOthers(s, w, ch);
    WorkTakesFreeLocks(s, w, ch);
  }

  lemma FrameKeepsLocks(s: State, w: int, t: State)
    requires s.Shape() && s.IsWorker(w) && LocksValid(s)
    requires OthersFramed(s, w, t) && TakesFreeLocks(s, w, t.pcs[w])
    ensures LocksValid(t)
  {
    forall u, v | t.IsWorker(u) && t.IsWorker(v) && u != v
      ensures Apart(t.pcs[u], u, t.pcs[v], v)
    {
      assert Apart(s.pcs[u], u, s.pcs[v], v) && Apart(s.pcs[v], v, s.pcs[u], u);
      if u == w { PairKeepsApart(s, w, v, t); } else if v == w { PairKeepsApart(s, w, u, t); }
    }
  }

  lemma PairKeepsApart(s: State, w: int, v: int, t: State)
    requires s.Shape() && s.IsWorker(w) && s.IsWorker(v) && w != v && Apart(s.pcs[w], w, s.pcs[v], v)
    requires OthersFramed(s, w, t) && TakesFreeLocks(s, w, t.pcs[w])
    ensures Apart(t.pcs[w], w, t.pcs[v], v) && Apart(t.pcs[v], v, t.pcs[w], w)
  {
  }

  lemma DequeueKeepsOwnSearch(s: State, w: int, ch: Choice)
    requires s.Shape() && s.IsWorker(w) && InDequeue(s.pcs[w]) && SearchOk(s, w) && DequeueEnabled(s, w, ch)
    ensures SearchOk(DequeueStep(s, w, ch), w)
  {
    if s.pcs[w].ScanQueue? {
      assert forall i :: 0 <= i < |ch.others| ==> ch.others[i] in ch.others;
    }
  }

  lemma FrameKeepsSearch(s: State, w: int, t: State)
    requires s.Shape() && s.IsWorker(w) && SearchValid(s) && OthersFramed(s, w, t) && SearchOk(t, w)
    ensures SearchValid(t)
  {
    forall v | t.IsWorker(v)
      ensures SearchOk(t, v)
    {
      assert SearchOk(s, v);
    }
  }

  // ----- Nodes: where they are, and how many -------------------------------------------------------------

  /** `w` goes from queueing `n` to exploring it; nobody was handed `n` before. */
  lemma TakeKeepsLedger(l: Ledger, w: int, n: Node, m: Ledger)
    requires l.Valid() && l.IsWorker(w) && n in l.queued[w] && l.explored[w] == {}
    requires m == l.(queued := l.queued[w := l.queued[w] - {n}], explored := l.explored[w := {n}],
                     handedOut := l.handedOut + {n})
    ensures m.Valid() && n !in l.handedOut
  {
    var at :| l.Located(at);
    TakeIsPlaced(l, at, w, n, m);
    assert n in l.created;
    assert m.Booked(at.Keys);
    assert m.Located(at[n := BeingExplored(w)]);
  }

  lemma TakeIsPlaced(l: Ledger, at: map<Node, Place>, w: int, n: Node, m: Ledger)
    requires l.Placed(at) && l.IsWorker(w) && n in l.queued[w] && l.explored[w] == {}
    requires m == l.(queued := l.queued[w := l.queued[w] - {n}], explored := l.explored[w := {n}], handedOut := l.handedOut + {n})
    ensures n in at && n !in l.handedOut && m.Placed(at[n := BeingExplored(w)]) && at[n := BeingExplored(w)].Keys == at.Keys
  {
    assert l.Has(n, InQueue(w));
    var to := at[n := BeingExplored(w)];
    forall x, p
      ensures m.Has(x, p) <==> x in to && to[x] == p
    {
      assert l.Has(x, p) <==> x in at && at[x] == p;
    }
  }

  /** Some queued nodes of `v` go to the queue of `w`. */
  lemma MoveKeepsLedger(l: Ledger, w: int, v: int, loot: set<Node>, m: Ledger)
    requires l.Valid() && l.IsWorker(w) && l.IsWorker(v) && v != w && l.queued[w] == {} && loot <= l.queued[v]
    requires m == l.(queued := l.queued[v := l.queued[v] - loot][w := loot])
    ensures m.Valid()
  {
    var at :| l.Located(at);
    var to := MovedTo(at, w, loot);
    MoveIsPlaced(l, at, w, v, loot, m);
    assert m.Located(to);
  }

  ghost function MovedTo(at: map<Node, Place>, w: int, loot: set<Node>): (to: map<Node, Place>)
    ensures to.Keys == at.Keys
  {
    map n | n in at :: if n in loot then InQueue(w) else at[n]
  }

  lemma MoveIsPlaced(l: Ledger, at: map<Node, Place>, w: int, v: int, loot: set<Node>, m: Ledger)
    requires l.Placed(at) && l.IsWorker(w) && l.IsWorker(v) && v != w && l.queued[w] == {} && loot <= l.queued[v]
    requires m == l.(queued := l.queued[v := l.queued[v] - loot][w := loot])
    ensures m.Placed(MovedTo(at, w, loot))
  {
    var to := MovedTo(at, w, loot);
    forall x, p
      ensures m.Has(x, p) <==> x in to && to[x] == p
    {
      assert l.Has(x, p) <==> x in at && at[x] == p;
      assert l.Has(x, InQueue(v)) <==> x in at && at[x] == InQueue(v);
    }
    forall n | n in to
      ensures n in m.handedOut <==> to[n].BeingExplored?
    {
      assert l.Has(n, InQueue(v)) <==> n in at && at[n] == InQueue(v);
    }
  }

  lemma AnnounceIsBooked(l: Ledger, live: set<Node>, c: Node, m: Ledger)
    requires l.Booked(live) && c !in l.created
    requires m == l.(child := m.child, created := l.created + {c}, outstanding := l.outstanding + 1)
    ensures m.Booked(live + {c})
  {
    assert c !in live && c !in l.finished && c !in l.dropped;
  }

  lemma AnnounceIsPlaced(l: Ledger, at: map<Node, Place>, w: int, c: Node, m: Ledger)
    requires l.Placed(at) && l.IsWorker(w) && c !in at && c !in l.handedOut && l.child[w] == {}
    requires m == l.(child := l.child[w := {c}], created := m.created, outstanding := m.outstanding)
    ensures m.Placed(at[c := BeingPushed(w)]) && at[c := BeingPushed(w)].Keys == at.Keys + {c}
  {
    var to := at[c := BeingPushed(w)];
    forall x, p
      ensures m.Has(x, p) <==> x in to && to[x] == p
    {
      assert l.Has(x, p) <==> x in at && at[x] == p;
    }
  }

  /** A new child is counted. */
  lemma AnnounceKeepsLedger(l: Ledger, w: int, c: Node, m: Ledger)
    requires l.Valid() && l.IsWorker(w) && c !in l.created && l.child[w] == {}
    requires m == l.(child := l.child[w := {c}], created := l.created + {c}, outstanding := l.outstanding + 1)
    ensures m.Valid()
  {
    var at :| l.Located(at);
    AnnounceIsPlaced(l, at, w, c, m);
    AnnounceIsBooked(l, at.Keys, c, m);
    assert m.Located(at[c := BeingPushed(w)]);
  }

  /** The counted child is pushed. */
  lemma PushKeepsLedger(l: Ledger, w: int, c: Node, m: Ledger)
    requires l.Valid() && l.IsWorker(w) && l.child[w] == {c}
    requires m == l.(child := l.child[w := {}], queued := l.queued[w := l.queued[w] + {c}])
    ensures m.Valid() && c !in l.queued[w]
  {
    var at :| l.Located(at);
    PushIsPlaced(l, at, w, c, m);
    assert m.Located(at[c := InQueue(w)]);
  }

  lemma PushIsPlaced(l: Ledger, at: map<Node, Place>, w: int, c: Node, m: Ledger)
    requires l.Placed(at) && l.IsWorker(w) && l.child[w] == {c}
    requires m == l.(child := l.child[w := {}], queued := l.queued[w := l.queued[w] + {c}])
    ensures c !in l.queued[w] && m.Placed(at[c := InQueue(w)]) && at[c := InQueue(w)].Keys == at.Keys
  {
    assert l.Has(c, BeingPushed(w));
    assert l.Has(c, InQueue(w)) <==> c in at && at[c] == InQueue(w);
    var to := at[c := InQueue(w)];
    forall x, p
      ensures m.Has(x, p) <==> x in to && to[x] == p
    {
      assert l.Has(x, p) <==> x in at && at[x] == p;
    }
  }

  /** The node that `w` explores is gone. */
  lemma LeaveIsPlaced(l: Ledger, at: map<Node, Place>, w: int, n: Node, m: Ledger)
    requires l.Placed(at) && l.IsWorker(w) && l.explored[w] == {n}
    requires m == l.(explored := l.explored[w := {}], finished := m.finished, dropped := m.dropped, outstanding := m.outstanding)
    ensures n in at && n in l.handedOut && m.Placed(at - {n}) && (at - {n}).Keys == at.Keys - {n}
  {
    assert l.Has(n, BeingExplored(w));
    var to := at - {n};
    forall x, p
      ensures m.Has(x, p) <==> x in to && to[x] == p
    {
      assert l.Has(x, p) <==> x in at && at[x] == p;
    }
  }

  lemma FinishIsBooked(l: Ledger, live: set<Node>, n: Node, m: Ledger)
    requires l.Booked(live) && n in live && n in l.handedOut
    requires m == l.(explored := m.explored, finished := l.finished + {n}, outstanding := l.outstanding - 1)
    ensures m.Booked(live - {n})
  {
    assert |live - {n}| == |live| - 1;
    assert l.created == (live - {n}) + (l.finished + {n}) + l.dropped;
  }

  lemma DropIsBooked(l: Ledger, live: set<Node>, n: Node, m: Ledger)
    requires l.Booked(live) && n in live && n in l.handedOut
    requires m == l.(explored := m.explored, dropped := l.dropped + {n})
    ensures m.Booked(live - {n})
  {
    assert n !in l.dropped && |live - {n}| == |live| - 1 && |l.dropped + {n}| == |l.dropped| + 1;
    assert l.created == (live - {n}) + l.finished + (l.dropped + {n});
  }

  /** A node is finished and no longer counted. */
  lemma FinishKeepsLedger(l: Ledger, w: int, n: Node, m: Ledger)
    requires l.Valid() && l.IsWorker(w) && l.explored[w] == {n}
    requires m == l.(explored := l.explored[w := {}], finished := l.finished + {n}, outstanding := l.outstanding - 1)
    ensures m.Valid()
  {
    var at :| l.Located(at);
    LeaveIsPlaced(l, at, w, n, m);
    FinishIsBooked(l, at.Keys, n, m);
    assert m.Located(at - {n});
  }

  /** A node is dropped, and stays counted. */
  lemma DropKeepsLedger(l: Ledger, w: int, n: Node, m: Ledger)
    requires l.Valid() && l.IsWorker(w) && l.explored[w] == {n}
    requires m == l.(explored := l.explored[w := {}], dropped := l.dropped + {n})
    ensures m.Valid()
  {
    var at :| l.Located(at);
    LeaveIsPlaced(l, at, w, n, m);
    DropIsBooked(l, at.Keys, n, m);
    assert m.Located(at - {n});
  }

  /** A step that moves no node. */
  lemma StayKeepsNodes(s: State, t: State)
    requires s.Shape() && t.Shape() && |s.pcs| == |t.pcs| && NodesValid(s) && t.queues == s.queues
    requires forall v :: s.IsWorker(v) ==> Explored(t.pcs[v]) == Explored(s.pcs[v]) && Child(t.pcs[v]) == Child(s.pcs[v])
    requires t.outstanding == s.outstanding && t.created == s.created && t.handedOut == s.handedOut && t.finished == s.finished
    requires t.dropped == s.dropped
    ensures NodesValid(t)
  {
    assert LedgerOf(t) == LedgerOf(s);
  }

  /** Does the step take a node out of a queue? */
  predicate Takes(s: State, w: int)
    requires s.Shape() && s.IsWorker(w)
  {
    match s.pcs[w]
    case OwnQueue => s.queues[w] != map[]
    case ScanQueue => s.queues[w] != map[]
    case Robbing(victim, _) => 0 <= victim < |s.queues| && s.queues[victim] != map[]
    case _ => false
  }

  lemma OtherwiseStays(s: State, w: int, ch: Choice)
    requires s.Shape() && s.IsWorker(w) && InDequeue(s.pcs[w]) && DequeueEnabled(s, w, ch) && !Takes(s, w)
    ensures DequeueStep(s, w, ch).IsWorker(w) && (InDequeue(DequeueStep(s, w, ch).pcs[w]) || DequeueStep(s, w, ch).pcs[w].Exited?)
    ensures DequeueStep(s, w, ch) == Goto(s, w, DequeueStep(s, w, ch).pcs[w])
  {
  }

  lemma MoveOnKeepsNodes(s: State, w: int, pc: PC)
    requires s.Shape() && s.IsWorker(w) && NodesValid(s)
    requires Explored(pc) == Explored(s.pcs[w]) && Child(pc) == Child(s.pcs[w])
    ensures NodesValid(Goto(s, w, pc))
  {
    StayKeepsNodes(s, Goto(s, w, pc));
  }

  lemma DequeueKeepsNodes(s: State, w: int, ch: Choice)
    requires s.Shape() && s.IsWorker(w) && NodesValid(s) && SearchOk(s, w)
    requires InDequeue(s.pcs[w]) && DequeueEnabled(s, w, ch)
    ensures NodesValid(DequeueStep(s, w, ch))
  {
    if !Takes(s, w) {
      OtherwiseStays(s, w, ch);
      MoveOnKeepsNodes(s, w, DequeueStep(s, w, ch).pcs[w]);
    } else if s.pcs[w].Robbing? {
      RobberyKeepsNodes(s, w, s.pcs[w].victim, ch.stealDepth);
      TookKeepsNodes(AfterRobbery(s, w, s.pcs[w].victim, ch.stealDepth), w, ch.depth);
    } else {
      TookKeepsNodes(s, w, ch.depth);
    }
  }

  lemma TookKeepsNodes(s: State, w: int, d: int)
    requires s.Shape() && s.IsWorker(w) && NodesValid(s) && CanPop(s.queues[w], d)
    requires Explored(s.pcs[w]) == {} && Child(s.pcs[w]) == {}
    ensures s.queues[w][d][0] !in s.handedOut
    ensures NodesValid(Took(s, w, d))
  {
    PopNodes(s.queues[w], d);
    TakeKeepsLedger(LedgerOf(s), w, s.queues[w][d][0], LedgerOf(Took(s, w, d)));
  }

  lemma RobberyKeepsNodes(s: State, w: int, victim: int, d: int)
    requires s.Shape() && s.IsWorker(w) && s.IsWorker(victim) && victim != w && NodesValid(s)
    requires Shallowest(s.queues[victim], d) && s.queues[w] == map[]
    ensures NodesValid(AfterRobbery(s, w, victim, d))
  {
    StealNodes(s.queues[victim], d);
    RobberyLedger(s, w, victim, d);
    MoveKeepsLedger(LedgerOf(s), w, victim, Nodes(Loot(s.queues[victim], d)), LedgerOf(AfterRobbery(s, w, victim, d)));
  }

  /** What the step of a worker leaves as it is. */
  ghost predicate OnlyWorker(s: State, t: State, w: int, victim: int)
    requires s.Shape()
  {
    && t.Shape() && |t.pcs| == |s.pcs| && t.outstanding == s.outstanding && t.halting == s.halting && t.created == s.created
    && forall v :: s.IsWorker(v) && v != w ==> t.pcs[v] == s.pcs[v] && (v != victim ==> t.queues[v] == s.queues[v])
  }

  /** From its own queue, a worker takes the oldest node of the greatest depth. */
  lemma OwnNodeTaken(s: State, w: int, ch: Choice) returns (n: Node)
    requires s.Shape() && s.IsWorker(w) && NodesValid(s) && (s.pcs[w] == OwnQueue || s.pcs[w] == ScanQueue) && s.queues[w] != map[]
    requires Enabled(s, w, ch)
    ensures var q, t := s.queues[w], Apply(s, w, ch);
      && OnlyWorker(s, t, w, w) && t.pcs[w] == Checking(n, n.id) && t.handedOut == s.handedOut + {n}
      && n.depth in q && (forall e :: e in q ==> e <= n.depth)
      && [n] + DequeAt(t.queues[w], n.depth) == q[n.depth] && OnlyDepth(q, t.queues[w], n.depth)
  {
    assert ValidQueue(s.queues[w]);
    PoppedFirst(s.queues[w], ch.depth);
    n := s.queues[w][ch.depth][0];
  }

  /** A thief takes half of the nodes of the least depth of its victim, and goes on with the oldest of them. */
  lemma HalfRobbed(s: State, w: int, ch: Choice) returns (n: Node, mine: Queue)
    requires s.Shape() && s.IsWorker(w) && NodesValid(s) && s.pcs[w].Robbing? && s.queues[w] == map[] && Enabled(s, w, ch)
    requires s.pcs[w].victim != w && s.queues[s.pcs[w].victim] != map[]
    ensures var victim, t := s.pcs[w].victim, Apply(s, w, ch); var q := s.queues[victim];
      && OnlyWorker(s, t, w, victim) && t.pcs[w] == Checking(n, n.id) && t.handedOut == s.handedOut + {n}
      && (forall e :: e in q ==> n.depth <= e) && HalfTaken(q, n.depth, mine, t.queues[victim])
      && [n] + DequeAt(t.queues[w], n.depth) == DequeAt(mine, n.depth) && OnlyDepth(mine, t.queues[w], n.depth)
  {
    var victim := s.pcs[w].victim;
    n, mine := Robbed(s.queues[victim], ch.stealDepth);
    assert ch.depth in Loot(s.queues[victim], ch.stealDepth);
    RobbedState(s, w, victim, ch.stealDepth);
  }

  lemma Robbed(q: Queue, d: int) returns (n: Node, mine: Queue)
    requires ValidQueue(q) && Shallowest(q, d)
    ensures mine == Loot(q, d) && mine[d] != [] && n == mine[d][0] && n.depth == d && HalfTaken(q, d, mine, AfterTheft(q, d))
    ensures [n] + DequeAt(PopFrom(mine, d), d) == DequeAt(mine, d) && OnlyDepth(mine, PopFrom(mine, d), d)
  {
    StealNodes(q, d);
    TheftTakesHalf(q, d);
    mine := Loot(q, d);
    PoppedFirst(mine, d);
    n := mine[d][0];
  }

  lemma RobbedState(s: State, w: int, victim: int, d: int)
    requires s.Shape() && s.IsWorker(w) && s.IsWorker(victim) && victim != w && d in s.queues[victim]
    requires Loot(s.queues[victim], d)[d] != []
    ensures var mine := Loot(s.queues[victim], d); var t := Took(AfterRobbery(s, w, victim, d), w, d);
      && OnlyWorker(s, t, w, victim) && t.pcs[w] == Checking(mine[d][0], mine[d][0].id) && t.handedOut == s.handedOut + {mine[d][0]}
      && t.queues[victim] == AfterTheft(s.queues[victim], d) && t.queues[w] == PopFrom(mine, d)
  {
  }

  /** A child that is enqueued becomes the youngest node of its depth. */
  lemma ChildIsLast(s: State, w: int, ch: Choice)
    requires s.Shape() && s.IsWorker(w) && s.pcs[w].Pushing? && Enabled(s, w, ch)
    ensures var c, t := s.pcs[w].child, Apply(s, w, ch);
      && OnlyWorker(s, t, w, w) && t.pcs[w] == Pushed(s.pcs[w].node) && t.handedOut == s.handedOut
      && DequeAt(t.queues[w], c.depth) == DequeAt(s.queues[w], c.depth) + [c] && OnlyDepth(s.queues[w], t.queues[w], c.depth)
  {
    PushedLast(s.queues[w], s.pcs[w].child);
  }

  lemma RobberyLedger(s: State, w: int, victim: int, d: int)
    requires s.Shape() && s.IsWorker(w) && s.IsWorker(victim) && victim != w
    requires ValidQueue(s.queues[victim]) && d in s.queues[victim] && s.queues[w] == map[]
    ensures var l, loot := LedgerOf(s), Nodes(Loot(s.queues[victim], d));
      && loot <= l.queued[victim] && l.queued[w] == {}
      && LedgerOf(AfterRobbery(s, w, victim, d)) == l.(queued := l.queued[victim := l.queued[victim] - loot][w := loot])
  {
    StealNodes(s.queues[victim], d);
    var l, t := LedgerOf(s), AfterRobbery(s, w, victim, d);
    assert Nodes(AfterTheft(s.queues[victim], d)) == l.queued[victim] - Nodes(Loot(s.queues[victim], d));
    assert LedgerOf(t).queued == l.queued[victim := Nodes(AfterTheft(s.queues[victim], d))][w := Nodes(Loot(s.queues[victim], d))];
  }

  lemma PushingKeepsNodes(s: State, w: int, n: Node, c: Node, t: State)
    requires s.Shape() && s.IsWorker(w) && NodesValid(s) && s.pcs[w] == Pushing(n, c)
    requires t == Goto(s, w, Pushed(n)).(queues := s.queues[w := PushTo(s.queues[w], c)])
    ensures NodesValid(t)
  {
    var l := LedgerOf(s);
    PushKeepsLedger(l, w, c, l.(child := l.child[w := {}], queued := l.queued[w := l.queued[w] + {c}]));
    PushedLedger(s, w, n, c, t);
  }

  lemma PushedLedger(s: State, w: int, n: Node, c: Node, t: State)
    requires s.Shape() && s.IsWorker(w) && s.pcs[w] == Pushing(n, c) && ValidQueue(s.queues[w]) && c !in Nodes(s.queues[w])
    requires t == Goto(s, w, Pushed(n)).(queues := s.queues[w := PushTo(s.queues[w], c)])
    ensures t.Shape() && ValidQueue(t.queues[w])
    ensures var l := LedgerOf(s); LedgerOf(t) == l.(child := l.child[w := {}], queued := l.queued[w := l.queued[w] + {c}])
  {
    PushNodes(s.queues[w], c);
  }

  lemma CountedLedger(s: State, w: int, n: Node, error: bool)
    requires s.Shape() && s.IsWorker(w) && s.pcs[w] == Counting(n)
    ensures var l, t := LedgerOf(s), Counted(s, w, n, error);
      && t.Shape() && t.queues == s.queues
      && LedgerOf(t) == l.(explored := l.explored[w := {}], finished := l.finished + {n}, outstanding := l.outstanding - 1)
  {
    var t := Counted(s, w, n, error);
    assert t.queues == s.queues && t.pcs[w] == (if t.pcs[w].Start? then Start else WantHalt);
  }

  lemma CountingKeepsNodes(s: State, w: int, n: Node, error: bool)
    requires s.Shape() && s.IsWorker(w) && NodesValid(s) && s.pcs[w] == Counting(n)
    ensures NodesValid(Counted(s, w, n, error))
  {
    var l, t := LedgerOf(s), Counted(s, w, n, error);
    CountedLedger(s, w, n, error);
    FinishKeepsLedger(l, w, n, LedgerOf(t));
  }

  lemma AnnouncingKeepsNodes(s: State, w: int, n: Node, c: Node)
    requires s.Shape() && s.IsWorker(w) && NodesValid(s) && s.pcs[w] == Working(n) && c !in s.created
    ensures NodesValid(Announce(s, w, n, c))
  {
    AnnouncedLedger(s, w, n, c);
    AnnounceKeepsLedger(LedgerOf(s), w, c, LedgerOf(Announce(s, w, n, c)));
  }

  lemma AnnouncedLedger(s: State, w: int, n: Node, c: Node)
    requires s.Shape() && s.IsWorker(w) && s.pcs[w] == Working(n)
    ensures var l, t := LedgerOf(s), Announce(s, w, n, c);
      && t.Shape() && t.queues == s.queues && l.child[w] == {}
      && LedgerOf(t) == l.(child := l.child[w := {c}], created := l.created + {c}, outstanding := l.outstanding + 1)
  {
  }

  lemma DroppingKeepsNodes(s: State, w: int, n: Node, at: int)
    requires s.Shape() && s.IsWorker(w) && NodesValid(s) && s.pcs[w] == Checking(n, at)
    ensures NodesValid(Goto(s, w, Start).(dropped := s.dropped + {n}))
  {
    var t := Goto(s, w, Start).(dropped := s.dropped + {n});
    var l := LedgerOf(s);
    assert LedgerOf(t) == l.(explored := l.explored[w := {}], dropped := l.dropped + {n});
    DropKeepsLedger(l, w, n, LedgerOf(t));
  }

  lemma CheckingKeepsNodes(s: State, w: int, n: Node, at: int)
    requires s.Shape() && s.IsWorker(w) && NodesValid(s) && s.pcs[w] == Checking(n, at) && 0 <= at < |s.tree|
    ensures NodesValid(Checked(s, w, n, at))
  {
    if s.tree[at].depth == -1 {
      MoveOnKeepsNodes(s, w, Working(n));
    } else if s.tree[at].pruned {
      DroppingKeepsNodes(s, w, n, at);
    } else {
      MoveOnKeepsNodes(s, w, Checking(n, s.tree[at].parent));
    }
  }

  lemma QuietWorkStays(s: State, w: int, ch: Choice)
    requires s.Shape() && s.IsWorker(w) && !InDequeue(s.pcs[w]) && WorkEnabled(s, w, ch)
    requires !s.pcs[w].Pushing? && !s.pcs[w].Counting? && !s.pcs[w].Checking? && (s.pcs[w].Working? ==> !ch.job.Enqueue?)
    ensures var t := WorkStep(s, w, ch);
      && t.Shape() && |t.pcs| == |s.pcs|
      && t.queues == s.queues && t.outstanding == s.outstanding && t.created == s.created
      && t.handedOut == s.handedOut && t.finished == s.finished && t.dropped == s.dropped
      && Explored(t.pcs[w]) == Explored(s.pcs[w]) && Child(t.pcs[w]) == Child(s.pcs[w])
  {
  }

  lemma QuietWorkKeepsNodes(s: State, w: int, ch: Choice)
    requires s.Shape() && s.IsWorker(w) && NodesValid(s)
    requires !InDequeue(s.pcs[w]) && WorkEnabled(s, w, ch)
    requires !s.pcs[w].Pushing? && !s.pcs[w].Counting? && !s.pcs[w].Checking? && (s.pcs[w].Working? ==> !ch.job.Enqueue?)
    ensures NodesValid(WorkStep(s, w, ch))
  {
    WorkFrame(s, w, ch);
    QuietWorkStays(s, w, ch);
    StayKeepsNodes(s, WorkStep(s, w, ch));
  }

  lemma WorkKeepsNodes(s: State, w: int, ch: Choice)
    requires s.Shape() && s.IsWorker(w) && NodesValid(s)
    requires !InDequeue(s.pcs[w]) && WorkEnabled(s, w, ch)
    ensures NodesValid(WorkStep(s, w, ch))
  {
    if s.pcs[w].Working? && ch.job.Enqueue? {
      AnnouncingKeepsNodes(s, w, s.pcs[w].node, ch.job.child);
    } else if s.pcs[w].Checking? {
      CheckingKeepsNodes(s, w, s.pcs[w].node, s.pcs[w].at);
    } else if s.pcs[w].Pushing? {
      PushingKeepsNodes(s, w, s.pcs[w].node, s.pcs[w].child, WorkStep(s, w, ch));
    } else if s.pcs[w].Counting? {
      CountingKeepsNodes(s, w, s.pcs[w].node, ch.error);
    } else {
      QuietWorkKeepsNodes(s, w, ch);
    }
  }

  // ----- Halting -----------------------------------------------------------------------------------------

  lemma NonemptyHasNode(q: Queue)
    requires ValidQueue(q)
    ensures q != map[] ==> exists n :: n in Nodes(q)
  {
    if q != map[] {
      var d := NonemptyHasKey(q);
      assert q[d][0] in Nodes(q);
    }
  }

  /** A counter of zero means that nothing is queued, explored or about to be pushed, and nothing was dropped. */
  lemma ZeroMeansNothingLeft(s: State)
    requires s.Shape() && NodesValid(s) && s.outstanding == 0
    ensures forall w :: s.IsWorker(w) ==> s.queues[w] == map[] && Explored(s.pcs[w]) == {} && Child(s.pcs[w]) == {}
    ensures s.created == s.finished && s.dropped == {}
  {
    var l := LedgerOf(s);
    var at :| l.Located(at);
    assert at.Keys == {} && s.dropped == {};
    forall w | s.IsWorker(w)
      ensures s.queues[w] == map[] && Explored(s.pcs[w]) == {} && Child(s.pcs[w]) == {}
    {
      forall n
        ensures n !in Nodes(s.queues[w]) && n !in Explored(s.pcs[w]) && n !in Child(s.pcs[w])
      {
        assert !l.Has(n, InQueue(w)) && !l.Has(n, BeingExplored(w)) && !l.Has(n, BeingPushed(w));
      }
      NonemptyHasNode(s.queues[w]);
    }
  }

  lemma CounterNotNegative(s: State)
    requires s.Shape() && NodesValid(s)
    ensures s.outstanding >= 0
  {
    var at :| LedgerOf(s).Located(at);
  }

  /** In `dequeue`, past the test of the flag under the big lock. */
  predicate IsLooking(pc: PC) {
    pc.ScanQueue? || pc.TryOthers? || pc.Robbing?
  }

  lemma DequeueEffect(s: State, w: int, ch: Choice)
    requires s.Shape() && s.IsWorker(w) && InDequeue(s.pcs[w]) && DequeueEnabled(s, w, ch)
    ensures var t := DequeueStep(s, w, ch); t.outstanding == s.outstanding && t.halting == s.halting && t.aborted == s.aborted
    ensures var to := DequeueStep(s, w, ch).pcs[w];
      !InHalt(to) && (IsLooking(to) ==> IsLooking(s.pcs[w]) || !s.halting) && (to.Waiting? ==> IsLooking(s.pcs[w]))
  {
  }

  lemma DequeueKeepsHalt(s: State, w: int, ch: Choice)
    requires s.Shape() && s.IsWorker(w) && LocksValid(s) && SearchOk(s, w) && HaltValid(s)
    requires InDequeue(s.pcs[w]) && DequeueEnabled(s, w, ch)
    ensures HaltValid(DequeueStep(s, w, ch))
  {
    DequeueFrame(s, w, ch);
    DequeueEffect(s, w, ch);
    LookingKeepsHalt(s, w, DequeueStep(s, w, ch));
  }

  lemma LookingKeepsHalt(s: State, w: int, t: State)
    requires s.Shape() && s.IsWorker(w) && HaltValid(s) && OthersFramed(s, w, t) && !InHalt(s.pcs[w]) && !InHalt(t.pcs[w])
    requires t.outstanding == s.outstanding && t.halting == s.halting && t.aborted == s.aborted
    requires (IsLooking(t.pcs[w]) ==> IsLooking(s.pcs[w]) || !s.halting) && (t.pcs[w].Waiting? ==> IsLooking(s.pcs[w]))
    ensures HaltValid(t)
  {
    SameHalters(s, w, t);
    forall v | t.IsWorker(v)
      ensures t.pcs[v].Halted? || IsLooking(t.pcs[v]) || t.pcs[v].Waiting? ==> t.pcs[v] == s.pcs[v] || (v == w && !s.halting)
    {
    }
  }

  predicate InHalt(pc: PC) {
    pc.Counting? || pc.WantHalt? || pc.Halting? || pc.Halted?
  }

  /** What the steps of the worker loop that neither count nor halt do to the counter and to the flags. */
  lemma PlainWorkEffect(s: State, w: int, ch: Choice)
    requires s.Shape() && s.IsWorker(w) && !InDequeue(s.pcs[w]) && WorkEnabled(s, w, ch) && !InHalt(s.pcs[w])
    ensures var t := WorkStep(s, w, ch);
      && t.Shape() && t.halting == s.halting && t.aborted == s.aborted && s.outstanding <= t.outstanding
      && (t.outstanding == s.outstanding || Explored(s.pcs[w]) != {})
      && (InDequeue(t.pcs[w]) ==> t.pcs[w].Start?) && (InHalt(t.pcs[w]) ==> t.pcs[w].Counting?)
  {
  }

  /** The way to `halt` and the notification concern the same workers before and after a step of another one. */
  lemma SameHalters(s: State, w: int, t: State)
    requires s.Shape() && s.IsWorker(w) && OthersFramed(s, w, t)
    requires InHalt(s.pcs[w]) ==> s.pcs[w].Counting?
    requires InHalt(t.pcs[w]) ==> t.pcs[w].Counting?
    ensures OnTheWayToHalt(s) <==> OnTheWayToHalt(t)
    ensures Notifying(s) <==> Notifying(t)
  {
    if v :| s.IsWorker(v) && (s.pcs[v].WantHalt? || s.pcs[v].Halting?) { assert t.pcs[v] == s.pcs[v]; }
    if v :| t.IsWorker(v) && (t.pcs[v].WantHalt? || t.pcs[v].Halting?) { assert t.pcs[v] == s.pcs[v]; }
    if v :| s.IsWorker(v) && s.pcs[v].Halted? { assert t.pcs[v] == s.pcs[v]; }
    if v :| t.IsWorker(v) && t.pcs[v].Halted? { assert t.pcs[v] == s.pcs[v]; }
  }

  lemma PlainWorkKeepsHalt(s: State, w: int, ch: Choice)
    requires s.Shape() && s.IsWorker(w) && HaltValid(s) && NodesValid(s)
    requires !InDequeue(s.pcs[w]) && WorkEnabled(s, w, ch) && !InHalt(s.pcs[w])
    ensures HaltValid(WorkStep(s, w, ch))
  {
    var t := WorkStep(s, w, ch);
    WorkFrame(s, w, ch);
    PlainWorkEffect(s, w, ch);
    SameHalters(s, w, t);
    CounterNotNegative(s);
    if s.outstanding == 0 { ZeroMeansNothingLeft(s); }
    KeepsHalt(s, w, t);
  }

  lemma KeepsHalt(s: State, w: int, t: State)
    requires s.Shape() && s.IsWorker(w) && HaltValid(s) && OthersFramed(s, w, t)
    requires t.halting == s.halting && t.aborted == s.aborted
    requires (s.outstanding == 0) == (t.outstanding == 0)
    requires OnTheWayToHalt(s) <==> OnTheWayToHalt(t)
    requires Notifying(s) <==> Notifying(t)
    requires (InDequeue(t.pcs[w]) ==> t.pcs[w].Start?) && !t.pcs[w].Halted?
    ensures HaltValid(t)
  {
    assert forall v :: t.IsWorker(v) && v != w ==> t.pcs[v] == s.pcs[v] || t.pcs[v].Notified?;
  }

  lemma CountingKeepsHalt(s: State, w: int, n: Node, error: bool)
    requires s.Shape() && s.IsWorker(w) && LocksValid(s) && HaltValid(s) && NodesValid(s) && s.pcs[w] == Counting(n)
    ensures HaltValid(Counted(s, w, n, error))
  {
    CounterPositive(s, w);
    OnlyOneHalts(s, w);
    CountedKeepsHalt(s, w, n, error);
  }

  lemma CountedKeepsHalt(s: State, w: int, n: Node, error: bool)
    requires s.Shape() && s.IsWorker(w) && HaltValid(s) && s.pcs[w] == Counting(n) && s.outstanding > 0
    requires !OnTheWayToHalt(s) && !Notifying(s)
    ensures HaltValid(Counted(s, w, n, error))
  {
    CountedHalters(s, w, n, error);
  }

  lemma CounterPositive(s: State, w: int)
    requires s.Shape() && s.IsWorker(w) && NodesValid(s) && Explored(s.pcs[w]) != {}
    ensures s.outstanding > 0
  {
    CounterNotNegative(s);
    if s.outstanding == 0 { ZeroMeansNothingLeft(s); }
  }

  lemma OnlyOneHalts(s: State, w: int)
    requires s.Shape() && s.IsWorker(w) && LocksValid(s) && s.pcs[w].Counting?
    ensures !OnTheWayToHalt(s) && !Notifying(s)
  {
    forall v | s.IsWorker(v) && v != w
      ensures !HoldsState(s.pcs[v])
    {
      assert Apart(s.pcs[v], v, s.pcs[w], w) && HoldsState(s.pcs[w]);
    }
  }

  lemma CountedHalters(s: State, w: int, n: Node, error: bool)
    requires s.Shape() && s.IsWorker(w) && s.pcs[w] == Counting(n) && !OnTheWayToHalt(s) && !Notifying(s)
    ensures var t := Counted(s, w, n, error);
      t.Shape() && |t.pcs| == |s.pcs| && !Notifying(t) && (OnTheWayToHalt(t) <==> error || t.outstanding == 0)
  {
    var t := Counted(s, w, n, error);
    assert forall v :: s.IsWorker(v) && v != w ==> t.pcs[v] == s.pcs[v];
    if error || t.outstanding == 0 {
      assert t.IsWorker(w) && t.pcs[w].WantHalt?;
    }
  }

  lemma HaltingKeepsHalt(s: State, w: int)
    requires s.Shape() && s.IsWorker(w) && LocksValid(s) && HaltValid(s)
    requires s.pcs[w].WantHalt? ==> BigFree(s)
    requires s.pcs[w].WantHalt? || s.pcs[w].Halting?
    ensures HaltValid(if s.pcs[w].WantHalt? then Goto(s, w, Halting) else Goto(s, w, Halted).(halting := true))
  {
    var t := if s.pcs[w].WantHalt? then Goto(s, w, Halting) else Goto(s, w, Halted).(halting := true);
    assert OnTheWayToHalt(s);
    assert t.pcs[w].Halting? || t.pcs[w].Halted?;
  }

  lemma NotifyAllKeepsHalt(s: State, w: int)
    requires s.Shape() && s.IsWorker(w) && LocksValid(s) && HaltValid(s) && s.pcs[w].Halted?
    ensures HaltValid(s.(pcs := NotifyAll(s.pcs[w := Start])))
  {
    var t := s.(pcs := NotifyAll(s.pcs[w := Start]));
    assert forall v :: s.IsWorker(v) && v != w ==> !HoldsState(s.pcs[v]);
    assert NobodyWaits(t) && !OnTheWayToHalt(t);
  }

  // ----- The decision tree -------------------------------------------------------------------------------

  lemma ExploredIsCreated(s: State, w: int)
    requires s.Shape() && s.IsWorker(w) && NodesValid(s)
    ensures Explored(s.pcs[w]) <= s.created
  {
    var l := LedgerOf(s);
    var at :| l.Located(at);
    forall n | n in Explored(s.pcs[w])
      ensures n in s.created
    {
      assert l.Has(n, BeingExplored(w));
    }
  }

  lemma SameTree(s: State, w: int, t: State)
    requires s.Shape() && s.IsWorker(w) && TreeValid(s) && OthersFramed(s, w, t)
    requires t.tree == s.tree && t.created == s.created && t.dropped == s.dropped && CheckOk(t, w)
    ensures TreeValid(t)
  {
    forall v | t.IsWorker(v)
      ensures CheckOk(t, v)
    {
      assert CheckOk(s, v);
    }
  }

  lemma DequeueKeepsTree(s: State, w: int, ch: Choice)
    requires s.Shape() && s.IsWorker(w) && TreeValid(s) && SearchOk(s, w) && InDequeue(s.pcs[w]) && DequeueEnabled(s, w, ch)
    requires NodesValid(DequeueStep(s, w, ch))
    ensures TreeValid(DequeueStep(s, w, ch))
  {
    var t := DequeueStep(s, w, ch);
    DequeueFrame(s, w, ch);
    ExploredIsCreated(t, w);
    SameTree(s, w, t);
  }

  lemma CheckedIsOk(s: State, w: int, n: Node, at: int)
    requires IsTree(s.tree) && s.Shape() && s.IsWorker(w) && s.pcs[w] == Checking(n, at) && CheckOk(s, w)
    ensures CheckOk(Checked(s, w, n, at), w)
    ensures s.tree[at].depth != -1 && s.tree[at].pruned ==> InPrunedSubtree(s.tree, n.id)
  {
    DepthOfAncestor(s.tree, at, at);
    if at > 0 {
      assert IsAncestor(s.tree, Parent(s.tree, at), at);
      AncestorTrans(s.tree, Parent(s.tree, at), at, n.id);
    }
  }

  lemma CheckingKeepsTree(s: State, w: int, n: Node, at: int)
    requires s.Shape() && s.IsWorker(w) && TreeValid(s) && s.pcs[w] == Checking(n, at)
    ensures 0 <= at < |s.tree| && TreeValid(Checked(s, w, n, at))
  {
    assert CheckOk(s, w);
    CheckedIsOk(s, w, n, at);
    var t := Checked(s, w, n, at);
    forall v | t.IsWorker(v)
      ensures CheckOk(t, v)
    {
      assert CheckOk(s, v);
    }
  }

  /** The tree has grown, or more of it is pruned; nobody has moved. */
  lemma TreeGrows(s: State, tree: seq<DecisionNode>)
    requires s.Shape() && TreeValid(s) && IsTree(tree) && |s.tree| <= |tree|
    requires forall n :: 0 <= n < |s.tree| ==> tree[n].depth == s.tree[n].depth && (s.tree[n].pruned ==> tree[n].pruned)
    requires forall a, n {:trigger IsAncestor(tree, a, n)} ::
      0 <= n < |s.tree| ==> (IsAncestor(tree, a, n) <==> IsAncestor(s.tree, a, n))
    ensures TreeValid(s.(tree := tree))
  {
    var t := s.(tree := tree);
    forall v | t.IsWorker(v)
      ensures CheckOk(t, v)
    {
      assert CheckOk(s, v);
    }
    forall n | n in t.dropped
      ensures 0 <= n.id < |tree| && InPrunedSubtree(tree, n.id)
    {
      var a :| 0 < a < |s.tree| && s.tree[a].pruned && IsAncestor(s.tree, a, n.id);
      assert IsAncestor(tree, a, n.id);
    }
  }

  lemma JobKeepsTree(s: State, w: int, n: Node, job: Job)
    requires s.Shape() && s.IsWorker(w) && TreeValid(s) && s.pcs[w] == Working(n) && JobEnabled(s, job)
    ensures TreeValid(Worked(s, w, n, job))
  {
    var t := Worked(s, w, n, job);
    match job {
      case Extend(parent) =>
        var x := DecisionNode(s.tree[parent].depth + 1, parent, false, {});
        forall a, m | 0 <= m < |s.tree|
          ensures IsTree(t.tree) && (IsAncestor(t.tree, a, m) <==> IsAncestor(s.tree, a, m))
        {
          NewNode(s.tree, x, a, m);
        }
        NewNode(s.tree, x, 0, 0);
        TreeGrows(s, t.tree);
      case Prune(top) =>
        SameShapeIsTree(s.tree, t.tree);
        forall a, m | 0 <= m < |s.tree|
          ensures IsTree(t.tree) && (IsAncestor(t.tree, a, m) <==> IsAncestor(s.tree, a, m))
        {
          SameAncestors(s.tree, t.tree, a, m);
        }
        TreeGrows(s, t.tree);
      case _ =>
        forall v | t.IsWorker(v)
          ensures CheckOk(t, v)
        {
          assert CheckOk(s, v);
        }
    }
  }

  lemma QuietWorkSameTree(s: State, w: int, ch: Choice)
    requires s.Shape() && s.IsWorker(w) && !InDequeue(s.pcs[w]) && WorkEnabled(s, w, ch)
    requires !s.pcs[w].Working? && !s.pcs[w].Checking?
    ensures var t := WorkStep(s, w, ch); t.tree == s.tree && t.created == s.created && t.dropped == s.dropped
    ensures var t := WorkStep(s, w, ch); t.IsWorker(w) && !t.pcs[w].Checking?
  {
  }

  lemma WorkKeepsTree(s: State, w: int, ch: Choice)
    requires s.Shape() && s.IsWorker(w) && TreeValid(s) && !InDequeue(s.pcs[w]) && WorkEnabled(s, w, ch)
    ensures TreeValid(WorkStep(s, w, ch))
  {
    if s.pcs[w].Working? {
      JobKeepsTree(s, w, s.pcs[w].node, ch.job);
    } else if s.pcs[w].Checking? {
      CheckingKeepsTree(s, w, s.pcs[w].node, s.pcs[w].at);
    } else {
      WorkFrame(s, w, ch);
      QuietWorkSameTree(s, w, ch);
      SameTree(s, w, WorkStep(s, w, ch));
    }
  }

  // ----- Main results ------------------------------------------------------------------------------------

  lemma WorkKeepsHalt(s: State, w: int, ch: Choice)
    requires s.Shape() && s.IsWorker(w) && LocksValid(s) && HaltValid(s) && NodesValid(s)
    requires !InDequeue(s.pcs[w]) && WorkEnabled(s, w, ch)
    ensures HaltValid(WorkStep(s, w, ch))
  {
    if s.pcs[w].Counting? {
      CountingKeepsHalt(s, w, s.pcs[w].node, ch.error);
    } else if s.pcs[w].WantHalt? || s.pcs[w].Halting? {
      HaltingKeepsHalt(s, w);
    } else if s.pcs[w].Halted? {
      NotifyAllKeepsHalt(s, w);
    } else {
      PlainWorkKeepsHalt(s, w, ch);
    }
  }

  lemma WorkEndsOutside(s: State, w: int, ch: Choice)
    requires s.Shape() && s.IsWorker(w) && !InDequeue(s.pcs[w]) && WorkEnabled(s, w, ch)
    ensures var to := WorkStep(s, w, ch).pcs[w]; (InDequeue(to) ==> to.Start?) && !to.Exited?
  {
  }

  lemma WorkKeepsOwnSearch(s: State, w: int, ch: Choice)
    requires s.Shape() && s.IsWorker(w) && !InDequeue(s.pcs[w]) && WorkEnabled(s, w, ch)
    ensures SearchOk(WorkStep(s, w, ch), w)
  {
    WorkEndsOutside(s, w, ch);
    OutsideIsOk(WorkStep(s, w, ch), w);
  }

  lemma OutsideIsOk(t: State, w: int)
    requires t.Shape() && t.IsWorker(w) && (InDequeue(t.pcs[w]) ==> t.pcs[w].Start?) && !t.pcs[w].Exited?
    ensures SearchOk(t, w)
  {
  }

  lemma StepKeepsInv(s: State, w: int, ch: Choice)
    requires Inv(s) && s.IsWorker(w) && Enabled(s, w, ch)
    ensures Inv(Apply(s, w, ch))
  {
    var t := Apply(s, w, ch);
    if InDequeue(s.pcs[w]) {
      DequeueFrame(s, w, ch);
      DequeueKeepsOwnSearch(s, w, ch);
      DequeueKeepsNodes(s, w, ch);
      DequeueKeepsHalt(s, w, ch);
      DequeueKeepsTree(s, w, ch);
    } else {
      WorkFrame(s, w, ch);
      WorkKeepsOwnSearch(s, w, ch);
      WorkKeepsNodes(s, w, ch);
      WorkKeepsHalt(s, w, ch);
      WorkKeepsTree(s, w, ch);
    }
    FrameKeepsLocks(s, w, t);
    FrameKeepsSearch(s, w, t);
  }

  lemma SpuriousIsFramed(s: State, w: int, t: State)
    requires s.Shape() && s.IsWorker(w) && SpuriousWakeup(s, w, t)
    ensures OthersFramed(s, w, t) && TakesFreeLocks(s, w, t.pcs[w]) && (SearchOk(s, w) ==> SearchOk(t, w))
    ensures t == Goto(s, w, Notified) && s.pcs[w] == Waiting
  {
  }

  lemma SpuriousKeepsInv(s: State, w: int, t: State)
    requires Inv(s) && s.IsWorker(w) && SpuriousWakeup(s, w, t)
    ensures Inv(t)
  {
    SpuriousIsFramed(s, w, t);
    assert SearchOk(s, w);
    FrameKeepsLocks(s, w, t);
    FrameKeepsSearch(s, w, t);
    MoveOnKeepsNodes(s, w, Notified);
    SameTree(s, w, t);
    LookingKeepsHalt(s, w, t);
  }

  lemma InitHasInv(s: State, root: Node)
    requires Init(s, root)
    ensures Inv(s)
  {
    InitHasNodes(s, root);
  }

  lemma InitHasNodes(s: State, root: Node)
    requires Init(s, root)
    ensures NodesValid(s)
  {
    assert ValidQueue(s.queues[0]);
    NodesByDepth(s.queues[0]);
    assert Nodes(s.queues[0]) == {root};
    RootLedger(LedgerOf(s), root);
  }

  lemma RootLedger(l: Ledger, root: Node)
    requires l.Shape() && |l.queued| > 0 && l.outstanding == 1
    requires l.created == {root} && l.handedOut == {} && l.finished == {} && l.dropped == {}
    requires forall w :: l.IsWorker(w) ==>
      l.queued[w] == (if w == 0 then {root} else {}) && l.explored[w] == {} && l.child[w] == {}
    ensures l.Valid()
  {
    var at := map[root := InQueue(0)];
    assert at.Keys == {root};
    forall n, p
      ensures l.Has(n, p) <==> n in at && at[n] == p
    {
    }
    assert l.Located(at);
  }

  /** A run: the root alone, then steps of the workers in any order. */
  ghost predicate IsRun(run: seq<State>, root: Node) {
    && |run| > 0 && Init(run[0], root)
    && forall i :: 0 <= i < |run| - 1 ==> Next(run[i], run[i + 1])
  }

  lemma {:induction false} RunHasInv(run: seq<State>, root: Node)
    requires IsRun(run, root)
    ensures Inv(run[|run| - 1])
    decreases |run|
  {
    if |run| == 1 {
      InitHasInv(run[0], root);
    } else {
      var before := run[..|run| - 1];
      RunHasInv(before, root);
      var s, t := before[|before| - 1], run[|run| - 1];
      assert Next(run[|run| - 2], run[|run| - 1]);
      var w :| s.IsWorker(w) && (Step(s, w, t) || SpuriousWakeup(s, w, t));
      if Step(s, w, t) {
        var ch :| Enabled(s, w, ch) && t == Apply(s, w, ch);
        StepKeepsInv(s, w, ch);
      } else {
        SpuriousKeepsInv(s, w, t);
      }
    }
  }

  /** No two workers ever access the same queue at the same time. */
  lemma QueuesAreExclusive(run: seq<State>, root: Node, w: int, v: int, q: int)
    requires IsRun(run, root)
    requires var s := run[|run| - 1]; s.IsWorker(w) && s.IsWorker(v) && w != v
    ensures var s := run[|run| - 1]; !(Accesses(s.pcs[w], w, q) && Accesses(s.pcs[v], v, q))
  {
    RunHasInv(run, root);
    var s := run[|run| - 1];
    assert SearchOk(s, w) && SearchOk(s, v);
    assert HoldsQueue(s.pcs[w], w, q) ==> !HoldsQueue(s.pcs[v], v, q);
  }

  /** The same state, but for one queue. */
  function WithQueue(s: State, q: int, queue: Queue): State
    requires 0 <= q < |s.queues|
  {
    s.(queues := s.queues[q := queue])
  }

  /** A queue that a worker does not access has no effect on its step, and is not changed by it. */
  lemma OtherQueuesAreIgnored(s: State, w: int, ch: Choice, q: int, queue: Queue)
    requires s.Shape() && s.IsWorker(w) && s.IsWorker(q) && !Accesses(s.pcs[w], w, q)
    ensures Enabled(s, w, ch) <==> Enabled(WithQueue(s, q, queue), w, ch)
    ensures Enabled(s, w, ch) ==> Apply(WithQueue(s, q, queue), w, ch) == WithQueue(Apply(s, w, ch), q, queue)
    ensures Enabled(s, w, ch) ==> Apply(s, w, ch).queues[q] == s.queues[q]
  {
    if InDequeue(s.pcs[w]) {
      SameDequeueEnabled(s, w, ch, q, queue);
      if DequeueEnabled(s, w, ch) {
        DequeueIgnores(s, w, ch, q, queue);
      }
    } else {
      SameWorkEnabled(s, w, ch, q, queue);
      if WorkEnabled(s, w, ch) {
        WorkIgnores(s, w, ch, q, queue);
      }
    }
  }

  lemma SameDequeueEnabled(s: State, w: int, ch: Choice, q: int, queue: Queue)
    requires s.Shape() && s.IsWorker(w) && s.IsWorker(q) && !Accesses(s.pcs[w], w, q) && InDequeue(s.pcs[w])
    ensures DequeueEnabled(s, w, ch) <==> DequeueEnabled(WithQueue(s, q, queue), w, ch)
  {
    if s.pcs[w].Robbing? {
      var victim := s.pcs[w].victim;
      if s.IsWorker(victim) && Shallowest(s.queues[victim], ch.stealDepth) {
        RobberyIgnores(s, w, victim, ch.stealDepth, q, queue);
      }
    }
  }

  lemma RobberyIgnores(s: State, w: int, victim: int, d: int, q: int, queue: Queue)
    requires s.Shape() && s.IsWorker(w) && s.IsWorker(q) && s.IsWorker(victim) && q != w && q != victim && d in s.queues[victim]
    ensures AfterRobbery(WithQueue(s, q, queue), w, victim, d) == WithQueue(AfterRobbery(s, w, victim, d), q, queue)
    ensures AfterRobbery(s, w, victim, d).queues[q] == s.queues[q]
  {
    var t := AfterRobbery(s, w, victim, d);
    assert AfterRobbery(WithQueue(s, q, queue), w, victim, d).queues == t.queues[q := queue];
  }

  lemma TookIgnores(s: State, w: int, d: int, q: int, queue: Queue)
    requires s.Shape() && s.IsWorker(w) && s.IsWorker(q) && q != w && d in s.queues[w] && s.queues[w][d] != []
    ensures Took(WithQueue(s, q, queue), w, d) == WithQueue(Took(s, w, d), q, queue) && Took(s, w, d).queues[q] == s.queues[q]
  {
    assert Took(WithQueue(s, q, queue), w, d).queues == Took(s, w, d).queues[q := queue];
  }

  lemma DequeueIgnores(s: State, w: int, ch: Choice, q: int, queue: Queue)
    requires s.Shape() && s.IsWorker(w) && s.IsWorker(q) && !Accesses(s.pcs[w], w, q) && InDequeue(s.pcs[w])
    requires DequeueEnabled(s, w, ch) && DequeueEnabled(WithQueue(s, q, queue), w, ch)
    ensures DequeueStep(WithQueue(s, q, queue), w, ch) == WithQueue(DequeueStep(s, w, ch), q, queue)
    ensures DequeueStep(s, w, ch).queues[q] == s.queues[q]
  {
    match s.pcs[w]
    case Robbing(victim, _) =>
      if s.queues[victim] != map[] {
        RobberyIgnores(s, w, victim, ch.stealDepth, q, queue);
        TookIgnores(AfterRobbery(s, w, victim, ch.stealDepth), w, ch.depth, q, queue);
      }
    case OwnQueue =>
      if s.queues[w] != map[] {
        TookIgnores(s, w, ch.depth, q, queue);
      }
    case ScanQueue =>
      if s.queues[w] != map[] {
        TookIgnores(s, w, ch.depth, q, queue);
      }
    case _ =>
  }

  lemma SameWorkEnabled(s: State, w: int, ch: Choice, q: int, queue: Queue)
    requires s.Shape() && s.IsWorker(w) && s.IsWorker(q) && !InDequeue(s.pcs[w])
    ensures WorkEnabled(s, w, ch) <==> WorkEnabled(WithQueue(s, q, queue), w, ch)
  {
  }

  lemma PushIgnores(s: State, w: int, c: Node, q: int, queue: Queue)
    requires s.Shape() && s.IsWorker(w) && s.IsWorker(q) && q != w
    ensures var mine := PushTo(s.queues[w], c);
      s.queues[q := queue][w := mine] == s.queues[w := mine][q := queue] && s.queues[w := mine][q] == s.queues[q]
  {
  }

  lemma JobIgnores(s: State, w: int, n: Node, at: int, job: Job, q: int, queue: Queue)
    requires s.Shape() && s.IsWorker(w) && s.IsWorker(q)
    ensures 0 <= at < |s.tree| ==>
      Checked(WithQueue(s, q, queue), w, n, at) == WithQueue(Checked(s, w, n, at), q, queue) && Checked(s, w, n, at).queues == s.queues
    ensures JobEnabled(s, job) ==>
      Worked(WithQueue(s, q, queue), w, n, job) == WithQueue(Worked(s, w, n, job), q, queue) && Worked(s, w, n, job).queues == s.queues
  {
  }

  lemma WorkIgnores(s: State, w: int, ch: Choice, q: int, queue: Queue)
    requires s.Shape() && s.IsWorker(w) && s.IsWorker(q) && !Accesses(s.pcs[w], w, q) && !InDequeue(s.pcs[w])
    requires WorkEnabled(s, w, ch) && WorkEnabled(WithQueue(s, q, queue), w, ch)
    ensures WorkStep(WithQueue(s, q, queue), w, ch) == WithQueue(WorkStep(s, w, ch), q, queue)
    ensures WorkStep(s, w, ch).queues[q] == s.queues[q]
  {
    match s.pcs[w]
    case Checking(n, at) => JobIgnores(s, w, n, at, ch.job, q, queue);
    case Working(n) => JobIgnores(s, w, n, 0, ch.job, q, queue);
    case Pushing(_, c) => PushIgnores(s, w, c, q, queue);
    case _ =>
  }

  // ----- Notification and halting -------------------------------------------------------------------------

  ghost function Waiters(s: State): set<int> {
    set v | 0 <= v < |s.pcs| && s.pcs[v] == Waiting
  }

  /** A push wakes one waiting worker, if there is one. */
  lemma PushWakesOne(s: State, w: int, ch: Choice)
    requires s.Shape() && s.IsWorker(w) && s.pcs[w].Pushed? && Enabled(s, w, ch)
    ensures var t := Apply(s, w, ch); t == s.(pcs := t.pcs) && t.pcs[w] == Working(s.pcs[w].node)
    ensures var t := Apply(s, w, ch); Waiters(t) <= Waiters(s) && |Waiters(s) - Waiters(t)| == if Waiters(s) == {} then 0 else 1
    ensures var t := Apply(s, w, ch);
      forall v :: s.IsWorker(v) && v != w ==> t.pcs[v] == if v in Waiters(s) - Waiters(t) then Notified else s.pcs[v]
  {
    var t := Apply(s, w, ch);
    if ch.wake == NOBODY {
      assert Waiters(s) == {} && Waiters(t) == {};
    } else {
      assert ch.wake in Waiters(s);
      assert Waiters(s) - Waiters(t) == {ch.wake};
    }
  }

  /** Past a test of the flag, and about to take a node. */
  predicate MayTake(pc: PC) {
    pc.OwnQueue? || IsLooking(pc)
  }

  ghost function Takers(s: State): (r: set<int>)
    ensures forall v :: v in r <==> 0 <= v < |s.pcs| && MayTake(s.pcs[v])
  {
    set v | 0 <= v < |s.pcs| && MayTake(s.pcs[v])
  }

  /** Whoever takes a node stops looking, and nobody starts to look for nodes once the flag is set. */
  ghost predicate TakesAtMostOne(s: State, w: int, t: State)
    requires s.Shape() && s.IsWorker(w)
  {
    && t.halting && |t.pcs| == |s.pcs| && (forall v :: s.IsWorker(v) && MayTake(t.pcs[v]) ==> MayTake(s.pcs[v]))
    && (t.handedOut == s.handedOut || (MayTake(s.pcs[w]) && !MayTake(t.pcs[w]) && exists n :: t.handedOut == s.handedOut + {n}))
  }

  lemma HaltedDequeue(s: State, w: int, ch: Choice)
    requires s.Shape() && s.IsWorker(w) && s.halting && InDequeue(s.pcs[w]) && DequeueEnabled(s, w, ch)
    ensures TakesAtMostOne(s, w, DequeueStep(s, w, ch))
  {
    var t := DequeueStep(s, w, ch);
    assert t.pcs == s.pcs[w := t.pcs[w]];
  }

  lemma HaltedWork(s: State, w: int, ch: Choice)
    requires s.Shape() && s.IsWorker(w) && s.halting && !InDequeue(s.pcs[w]) && WorkEnabled(s, w, ch)
    ensures TakesAtMostOne(s, w, WorkStep(s, w, ch))
  {
    var t := WorkStep(s, w, ch);
    assert t.handedOut == s.handedOut && t.halting && !MayTake(t.pcs[w]);
  }

  /** So the nodes taken and the workers looking for one do not become more. */
  lemma HaltedStep(s: State, t: State)
    requires s.halting && Next(s, t)
    ensures t.halting && Takers(t) <= Takers(s) && |t.handedOut| + |Takers(t)| <= |s.handedOut| + |Takers(s)|
  {
    var w :| s.IsWorker(w) && (Step(s, w, t) || SpuriousWakeup(s, w, t));
    if Step(s, w, t) {
      var ch :| Enabled(s, w, ch) && t == Apply(s, w, ch);
      if InDequeue(s.pcs[w]) {
        HaltedDequeue(s, w, ch);
      } else {
        HaltedWork(s, w, ch);
      }
    }
    assert TakesAtMostOne(s, w, t);
    FewerOrEqual(Takers(t), if t.handedOut == s.handedOut then Takers(s) else Takers(s) - {w});
  }

  lemma FewerOrEqual(a: set<int>, b: set<int>)
    requires a <= b
    ensures |a| <= |b|
  {
    assert b == a + (b - a);
  }

  /** After the flag has been set, each worker takes at most one node, and only if it was looking for one by then. */
  lemma {:induction false} HaltStopsTaking(run: seq<State>, root: Node, i: nat)
    requires IsRun(run, root) && i < |run| && run[i].halting
    ensures var s := run[|run| - 1];
      s.halting && Takers(s) <= Takers(run[i]) && |s.handedOut| + |Takers(s)| <= |run[i].handedOut| + |Takers(run[i])|
    decreases |run|
  {
    if i < |run| - 1 {
      var before := run[..|run| - 1];
      var s, t := before[|before| - 1], run[|run| - 1];
      assert Next(run[|run| - 2], run[|run| - 1]);
      assert before[i] == run[i];
      HaltStopsTaking(before, root, i);
      HaltedStep(s, t);
    }
  }

  /** All queues are empty, and no other worker than `w` has a node. */
  ghost predicate NobodyElseHasAny(s: State, w: int)
    requires s.Shape()
  {
    forall v :: s.IsWorker(v) ==> s.queues[v] == map[] && (v != w ==> Explored(s.pcs[v]) == {} && Child(s.pcs[v]) == {})
  }

  /** Whoever counts down to zero sees a scheduler with nothing left, in which nothing was dropped. */
  lemma ZeroIsDetectedRightly(run: seq<State>, root: Node, w: int, n: Node)
    requires IsRun(run, root)
    requires var s := run[|run| - 1]; s.IsWorker(w) && s.pcs[w] == Counting(n)
    ensures var s := run[|run| - 1]; s.Shape() && s.outstanding >= 1
    ensures var s := run[|run| - 1]; s.outstanding == 1 ==> s.dropped == {} && NobodyElseHasAny(s, w)
  {
    RunHasInv(run, root);
    LastCount(run[|run| - 1], w, n);
  }

  lemma LastCount(s: State, w: int, n: Node)
    requires s.Shape() && NodesValid(s) && s.IsWorker(w) && s.pcs[w] == Counting(n)
    ensures s.outstanding >= 1
    ensures s.outstanding == 1 ==> s.dropped == {} && NobodyElseHasAny(s, w)
  {
    CountingKeepsNodes(s, w, n, false);
    var t := Counted(s, w, n, false);
    CounterNotNegative(t);
    if s.outstanding == 1 {
      ZeroMeansNothingLeft(t);
      NobodyElse(s, w, n);
    }
  }

  lemma NobodyElse(s: State, w: int, n: Node)
    requires s.Shape() && s.IsWorker(w) && s.pcs[w] == Counting(n)
    requires Counted(s, w, n, false).Shape() && NobodyElseHasAny(Counted(s, w, n, false), w)
    ensures NobodyElseHasAny(s, w)
  {
    var t := Counted(s, w, n, false);
    assert forall v :: s.IsWorker(v) ==> t.queues[v] == s.queues[v];
    assert forall v :: s.IsWorker(v) && v != w ==> t.pcs[v] == s.pcs[v];
  }

  /** Every node is handed out at most once. */
  lemma HandedOutOnce(run: seq<State>, root: Node, w: int, d: int)
    requires IsRun(run, root)
    requires var s := run[|run| - 1]; s.Shape() && s.IsWorker(w) && d in s.queues[w]
    ensures var s := run[|run| - 1]; forall n :: n in s.queues[w][d] ==> n !in s.handedOut && n in s.created
  {
    RunHasInv(run, root);
    QueuedIsNew(run[|run| - 1], w, d);
  }

  lemma QueuedIsNew(s: State, w: int, d: int)
    requires s.Shape() && NodesValid(s) && s.IsWorker(w) && d in s.queues[w]
    ensures forall n :: n in s.queues[w][d] ==> n !in s.handedOut && n in s.created
  {
    var l := LedgerOf(s);
    var at :| l.Located(at);
    NodesByDepth(s.queues[w]);
    forall n | n in s.queues[w][d]
      ensures n !in s.handedOut && n in s.created
    {
      assert n.depth == d;
      assert l.Has(n, InQueue(w));
    }
  }

  /** `n` is queued, being explored, or about to be pushed. */
  ghost predicate IsLive(s: State, n: Node)
    requires s.Shape()
  {
    exists w :: s.IsWorker(w) && (n in Nodes(s.queues[w]) || n in Explored(s.pcs[w]) || n in Child(s.pcs[w]))
  }

  /** `n` is somewhere. */
  ghost predicate Somewhere(l: Ledger, n: Node)
    requires l.Shape()
  {
    exists w :: l.IsWorker(w) && (n in l.queued[w] || n in l.explored[w] || n in l.child[w])
  }

  lemma LiveIsRest(l: Ledger, live: set<Node>)
    requires l.Booked(live)
    ensures live == l.created - l.finished - l.dropped
  {
  }

  lemma LedgerCounts(l: Ledger)
    requires l.Valid()
    ensures forall n :: Somewhere(l, n) <==> n in l.created - l.finished - l.dropped
    ensures l.outstanding == |l.created - l.finished - l.dropped| + |l.dropped|
    ensures l.dropped <= l.created && l.dropped !! l.finished
  {
    var at :| l.Located(at);
    LiveIsRest(l, at.Keys);
    forall n
      ensures Somewhere(l, n) <==> n in at
    {
      if n in at {
        LiveIsSomewhere(l, at, n);
      }
      if w :| l.IsWorker(w) && (n in l.queued[w] || n in l.explored[w] || n in l.child[w]) {
        assert l.Has(n, InQueue(w)) || l.Has(n, BeingExplored(w)) || l.Has(n, BeingPushed(w));
      }
    }
  }

  lemma LiveIff(s: State, n: Node)
    requires s.Shape()
    ensures IsLive(s, n) <==> Somewhere(LedgerOf(s), n)
  {
    var l := LedgerOf(s);
    if w :| s.IsWorker(w) && (n in Nodes(s.queues[w]) || n in Explored(s.pcs[w]) || n in Child(s.pcs[w])) {
      assert n in l.queued[w] || n in l.explored[w] || n in l.child[w];
    }
  }

  lemma CountIs(s: State)
    requires s.Shape() && NodesValid(s)
    ensures forall n :: IsLive(s, n) <==> n in s.created - s.finished - s.dropped
    ensures s.outstanding == |s.created - s.finished - s.dropped| + |s.dropped|
    ensures s.dropped <= s.created && s.dropped !! s.finished
  {
    LedgerCounts(LedgerOf(s));
    forall n
      ensures IsLive(s, n) <==> n in s.created - s.finished - s.dropped
    {
      LiveIff(s, n);
    }
  }

  /** At any time the counter is the number of live nodes and of those that were dropped, all of them pruned. */
  lemma CounterIsExact(run: seq<State>, root: Node)
    requires IsRun(run, root)
    ensures var s := run[|run| - 1]; s.Shape() && forall n :: IsLive(s, n) <==> n in s.created - s.finished - s.dropped
    ensures var s := run[|run| - 1]; s.outstanding == |s.created - s.finished - s.dropped| + |s.dropped|
    ensures var s := run[|run| - 1]; s.dropped <= s.created && s.dropped !! s.finished
    ensures var s := run[|run| - 1]; IsTree(s.tree)
    ensures var s := run[|run| - 1]; forall n :: n in s.dropped ==> 0 <= n.id < |s.tree| && InPrunedSubtree(s.tree, n.id)
  {
    RunHasInv(run, root);
    CountIs(run[|run| - 1]);
  }

  /** When all workers have left and no error stopped them, every node ever created has been explored. */
  lemma NothingIsForgotten(run: seq<State>, root: Node)
    requires IsRun(run, root)
    requires var s := run[|run| - 1]; !s.aborted && AllGone(s)
    ensures var s := run[|run| - 1]; s.Shape() && s.created == s.finished && s.dropped == {} && root in s.finished
    ensures var s := run[|run| - 1]; forall w :: s.IsWorker(w) ==> s.queues[w] == map[]
  {
    RunHasInv(run, root);
    var s := run[|run| - 1];
    RestIs(s);
    GoneMeansZero(s);
    RootStaysCreated(run, root);
  }

  lemma GoneMeansZero(s: State)
    requires s.Shape() && |s.pcs| >= 1 && SearchValid(s) && HaltValid(s) && NodesValid(s) && AllGone(s) && !s.aborted
    ensures s.created == s.finished && forall w :: s.IsWorker(w) ==> s.queues[w] == map[]
  {
    assert s.outstanding == 0 by {
      assert s.IsWorker(0) && SearchOk(s, 0);
    }
    AllLeft(s);
  }

  lemma AllLeft(s: State)
    requires s.Shape() && NodesValid(s) && s.outstanding == 0
    ensures s.created == s.finished && forall w :: s.IsWorker(w) ==> s.queues[w] == map[]
  {
    ZeroMeansNothingLeft(s);
  }

  lemma StepKeepsCreated(s: State, t: State)
    requires Next(s, t)
    ensures s.created <= t.created
  {
    var w :| s.IsWorker(w) && (Step(s, w, t) || SpuriousWakeup(s, w, t));
    if Step(s, w, t) {
      var ch :| Enabled(s, w, ch) && t == Apply(s, w, ch);
      if InDequeue(s.pcs[w]) {
        DequeueKeepsCreated(s, w, ch);
      } else {
        WorkKeepsCreated(s, w, ch);
      }
    }
  }

  lemma DequeueKeepsCreated(s: State, w: int, ch: Choice)
    requires s.Shape() && s.IsWorker(w) && InDequeue(s.pcs[w]) && DequeueEnabled(s, w, ch)
    ensures DequeueStep(s, w, ch).created == s.created
  {
  }

  lemma WorkKeepsCreated(s: State, w: int, ch: Choice)
    requires s.Shape() && s.IsWorker(w) && !InDequeue(s.pcs[w]) && WorkEnabled(s, w, ch)
    ensures s.created <= WorkStep(s, w, ch).created
  {
  }

  lemma {:induction false} RootStaysCreated(run: seq<State>, root: Node)
    requires IsRun(run, root)
    ensures root in run[|run| - 1].created
    decreases |run|
  {
    if |run| > 1 {
      RootStaysCreated(run[..|run| - 1], root);
      assert Next(run[|run| - 2], run[|run| - 1]);
      StepKeepsCreated(run[|run| - 2], run[|run| - 1]);
    }
  }

  /** The lock that a worker waits for: none (0), the state lock (1), the big lock (2) or a queue lock (3). */
  function WaitsFor(pc: PC): int {
    match pc
    case Start => 3
    case WantBig => 2
    case TryOthers(_) => 3
    case Notified => 2
    case Announced(_, _) => 3
    case Done(_) => 1
    case WantHalt => 2
    case _ => 0
  }

  /** A worker that waits for a lock holds only locks of lower rank: the order is state, big, queue. */
  lemma HoldsLowerOnly(pc: PC, w: int)
    requires WaitsFor(pc) > 0
    ensures WaitsFor(pc) <= 3 ==> forall q :: !HoldsQueue(pc, w, q)
    ensures WaitsFor(pc) <= 2 ==> !HoldsBig(pc)
    ensures WaitsFor(pc) <= 1 ==> !HoldsState(pc)
  {
  }

  /** What is taken on the way from `pc` to `to` has a higher rank than all that is held. */
  ghost predicate TakesInOrder(pc: PC, to: PC, w: int) {
    && (HoldsState(to) && !HoldsState(pc) ==> !HoldsBig(pc) && forall q :: !HoldsQueue(pc, w, q))
    && (HoldsBig(to) && !HoldsBig(pc) ==> forall q :: !HoldsQueue(pc, w, q))
    && (forall q {:trigger HoldsQueue(to, w, q)} :: HoldsQueue(to, w, q) && !HoldsQueue(pc, w, q) ==> forall r :: !HoldsQueue(pc, w, r))
  }

  lemma DequeueTakesInOrder(s: State, w: int, ch: Choice)
    requires s.Shape() && s.IsWorker(w) && InDequeue(s.pcs[w]) && SearchOk(s, w) && DequeueEnabled(s, w, ch)
    ensures DequeueStep(s, w, ch).IsWorker(w) && TakesInOrder(s.pcs[w], DequeueStep(s, w, ch).pcs[w], w)
  {
  }

  lemma WorkTakesInOrder(s: State, w: int, ch: Choice)
    requires s.Shape() && s.IsWorker(w) && !InDequeue(s.pcs[w]) && WorkEnabled(s, w, ch)
    ensures WorkStep(s, w, ch).IsWorker(w) && TakesInOrder(s.pcs[w], WorkStep(s, w, ch).pcs[w], w)
  {
  }

  /** Every step takes locks in the order state, big, queue; so there is no cycle of workers waiting for locks. */
  lemma LocksAreOrdered(s: State, w: int, t: State)
    requires Inv(s) && s.IsWorker(w) && Step(s, w, t)
    ensures t.IsWorker(w) && TakesInOrder(s.pcs[w], t.pcs[w], w)
  {
    var ch :| Enabled(s, w, ch) && t == Apply(s, w, ch);
    if InDequeue(s.pcs[w]) {
      assert SearchOk(s, w);
      DequeueTakesInOrder(s, w, ch);
    } else {
      WorkTakesInOrder(s, w, ch);
    }
  }

  ghost predicate CanStep(s: State, w: int)
    requires s.Shape() && s.IsWorker(w)
  {
    exists ch :: Enabled(s, w, ch)
  }

  /** Always able to go on: inside a critical section, or exploring. */
  predicate IsRunner(pc: PC) {
    || pc.DequeueOwn? || pc.OwnQueue? || pc.Scan? || pc.ScanQueue? || pc.Robbing? || pc.Checking? || pc.Working? || pc.Pushing? || pc.Pushed?
    || pc.Counting? || pc.Halting? || pc.Halted?
  }

  lemma HasDeepest(q: Queue) returns (d: int)
    requires ValidQueue(q) && q != map[]
    ensures CanPop(q, d)
  {
    var e := NonemptyHasKey(q);
    var lo, hi := HasExtremes(q.Keys, e);
    d := hi;
  }

  lemma HasShallowest(q: Queue) returns (d: int)
    requires ValidQueue(q) && q != map[]
    ensures Shallowest(q, d)
  {
    var e := NonemptyHasKey(q);
    var lo, hi := HasExtremes(q.Keys, e);
    d := lo;
  }

  lemma HasShuffle(workers: nat, w: nat) returns (others: seq<int>)
    requires w < workers
    ensures IsShuffle(others, workers, w)
  {
    others := seq(workers - 1, i requires 0 <= i => if i < w then i else i + 1);
    forall v | 0 <= v < workers && v != w
      ensures v in others
    {
      assert others[if v < w then v else v - 1] == v;
    }
  }

  lemma RunnerCanStep(s: State, w: int)
    requires s.Shape() && s.IsWorker(w) && IsRunner(s.pcs[w]) && SearchOk(s, w) && IsTree(s.tree) && CheckOk(s, w)
    requires forall v :: s.IsWorker(v) ==> ValidQueue(s.queues[v])
    ensures CanStep(s, w)
  {
    var ch := Choice(0, 0, [], NOBODY, Finish, false);
    match s.pcs[w] {
      case OwnQueue =>
        if s.queues[w] != map[] {
          var d := HasDeepest(s.queues[w]);
          ch := ch.(depth := d);
        }
      case Checking(_, _) =>
        assert CheckOk(s, w);
      case ScanQueue =>
        assert SearchOk(s, w);
        var others := HasShuffle(|s.pcs|, w);
        ch := ch.(others := others);
      case Robbing(victim, _) =>
        assert SearchOk(s, w);
        if s.queues[victim] != map[] {
          var d := HasShallowest(s.queues[victim]);
          StealNodes(s.queues[victim], d);
          ch := ch.(stealDepth := d, depth := d);
        }
      case Pushed(_) =>
        if v :| s.IsWorker(v) && s.pcs[v] == Waiting {
          ch := ch.(wake := v);
        }
      case _ =>
    }
    assert Enabled(s, w, ch);
  }

  /** Without runners, whoever is not waiting for a notification or gone can have the lock it wants. */
  lemma WaiterCanStep(s: State, w: int, rank: int)
    requires s.Shape() && s.IsWorker(w) && SearchOk(s, w) && WaitsFor(s.pcs[w]) == rank && rank > 0
    requires forall v :: s.IsWorker(v) ==> !IsRunner(s.pcs[v]) && WaitsFor(s.pcs[v]) <= rank
    ensures CanStep(s, w)
  {
    forall v | s.IsWorker(v)
      ensures !IsRunner(s.pcs[v]) && WaitsFor(s.pcs[v]) <= rank
      ensures forall q :: !HoldsQueue(s.pcs[v], v, q)
      ensures rank <= 2 ==> !HoldsBig(s.pcs[v])
      ensures rank <= 1 ==> !HoldsState(s.pcs[v])
    {
    }
    assert Enabled(s, w, Choice(0, 0, [], NOBODY, Finish, false));
  }

  /** Whoever waits or is gone has nothing, and whether it is gone depends on the flag. */
  lemma RestingHasNothing(s: State, w: int)
    requires s.Shape() && s.IsWorker(w) && SearchOk(s, w) && HaltValid(s) && (s.halting ==> !Notifying(s))
    requires s.pcs[w].Waiting? || s.pcs[w].Exited?
    ensures s.halting <==> s.pcs[w].Exited?
    ensures Explored(s.pcs[w]) == {} && Child(s.pcs[w]) == {} && (!s.halting ==> s.queues[w] == map[])
  {
  }

  lemma EmptyMeansDropped(s: State)
    requires s.Shape() && NodesValid(s)
    requires forall w :: s.IsWorker(w) ==> s.queues[w] == map[] && Explored(s.pcs[w]) == {} && Child(s.pcs[w]) == {}
    ensures s.outstanding == |s.dropped|
  {
    NodesMakeTheCount(LedgerOf(s));
  }

  lemma NobodyHalts(s: State)
    requires s.Shape() && HaltValid(s) && forall w :: s.IsWorker(w) ==> s.pcs[w].Waiting? || s.pcs[w].Exited?
    ensures !Notifying(s) && !OnTheWayToHalt(s) && (!s.halting ==> !s.aborted && s.outstanding != 0)
    ensures s.halting && !s.aborted ==> s.outstanding == 0
  {
  }

  /** If all workers wait to be notified or are gone, all are gone, unless a node was dropped. */
  lemma NotAllWait(s: State)
    requires s.Shape() && |s.pcs| >= 1 && SearchValid(s) && HaltValid(s) && NodesValid(s)
    requires forall w :: s.IsWorker(w) ==> s.pcs[w].Waiting? || s.pcs[w].Exited?
    ensures if s.halting then AllGone(s) else AllWait(s) && !s.aborted && s.dropped != {} && s.outstanding == |s.dropped|
    ensures s.halting && !s.aborted ==> s.dropped == {}
  {
    NobodyHalts(s);
    forall w | s.IsWorker(w)
      ensures s.halting <==> s.pcs[w].Exited?
      ensures Explored(s.pcs[w]) == {} && Child(s.pcs[w]) == {} && (!s.halting ==> s.queues[w] == map[])
    {
      assert SearchOk(s, w);
      RestingHasNothing(s, w);
    }
    if !s.halting {
      EmptyMeansDropped(s);
    } else if !s.aborted {
      ZeroMeansNothingLeft(s);
    }
  }

  /** The converse of `ZeroMeansNothingLeft`. */
  lemma NodesMakeTheCount(l: Ledger)
    requires l.Valid()
    requires forall w :: l.IsWorker(w) ==> l.queued[w] == {} && l.explored[w] == {} && l.child[w] == {}
    ensures l.outstanding == |l.dropped|
  {
    var at :| l.Located(at);
    if n :| n in at {
      LiveIsSomewhere(l, at, n);
    } else {
      assert at.Keys == {};
    }
  }

  lemma LiveIsSomewhere(l: Ledger, at: map<Node, Place>, n: Node)
    requires l.Located(at) && n in at
    ensures exists w :: l.IsWorker(w) && (n in l.queued[w] || n in l.explored[w] || n in l.child[w])
  {
    assert l.Has(n, at[n]);
    assert l.IsWorker(at[n].w);
  }

  ghost predicate AllGone(s: State) {
    forall w :: s.IsWorker(w) ==> s.pcs[w] == Exited
  }

  ghost predicate AllWait(s: State) {
    forall w :: s.IsWorker(w) ==> s.pcs[w] == Waiting
  }

  /** No worker can take a step of its own accord. */
  ghost predicate AtRest(s: State)
    requires s.Shape()
  {
    forall w :: s.IsWorker(w) ==> !CanStep(s, w)
  }

  lemma RestIsWaiting(s: State)
    requires Inv(s) && AtRest(s)
    ensures forall w :: s.IsWorker(w) ==> s.pcs[w].Waiting? || s.pcs[w].Exited?
  {
    forall w | s.IsWorker(w)
      ensures !IsRunner(s.pcs[w])
    {
      RestHasNoRunner(s, w);
    }
    NobodyWaitsForLocks(s);
  }

  predicate AtEase(pc: PC) {
    pc.Waiting? || pc.Exited?
  }

  lemma NeitherRunsNorWaits(pc: PC)
    ensures IsRunner(pc) || WaitsFor(pc) > 0 || AtEase(pc)
    ensures WaitsFor(pc) <= 3
  {
  }

  lemma NobodyWaitsForLocks(s: State)
    requires s.Shape() && SearchValid(s) && AtRest(s) && forall w :: s.IsWorker(w) ==> !IsRunner(s.pcs[w])
    ensures forall w :: s.IsWorker(w) ==> AtEase(s.pcs[w])
  {
    forall w | s.IsWorker(w)
      ensures WaitsFor(s.pcs[w]) <= 3
    {
      NeitherRunsNorWaits(s.pcs[w]);
    }
    RestHasNoWaiter(s, 3);
    RestHasNoWaiter(s, 2);
    RestHasNoWaiter(s, 1);
    forall w | s.IsWorker(w)
      ensures AtEase(s.pcs[w])
    {
      NeitherRunsNorWaits(s.pcs[w]);
    }
  }

  lemma RestHasNoWaiter(s: State, rank: int)
    requires s.Shape() && SearchValid(s) && AtRest(s) && 1 <= rank <= 3
    requires forall w :: s.IsWorker(w) ==> !IsRunner(s.pcs[w]) && WaitsFor(s.pcs[w]) <= rank
    ensures forall w :: s.IsWorker(w) ==> WaitsFor(s.pcs[w]) < rank
  {
    forall w | s.IsWorker(w)
      ensures WaitsFor(s.pcs[w]) != rank
    {
      if WaitsFor(s.pcs[w]) == rank {
        assert SearchOk(s, w);
        WaiterCanStep(s, w, rank);
      }
    }
  }

  lemma RestHasNoRunner(s: State, w: int)
    requires Inv(s) && AtRest(s) && s.IsWorker(w)
    ensures !IsRunner(s.pcs[w])
  {
    assert SearchOk(s, w) && CheckOk(s, w);
    if IsRunner(s.pcs[w]) {
      RunnerCanStep(s, w);
    }
  }

  /**
   * The workers come to rest exactly when all have left, or when all wait, a node has been dropped and no error
   * has stopped them.
   */
  lemma RestIff(run: seq<State>, root: Node)
    requires IsRun(run, root)
    ensures var s := run[|run| - 1]; s.Shape() && |s.pcs| >= 1
    ensures var s := run[|run| - 1]; AtRest(s) <==> AllGone(s) || AllWait(s)
    ensures var s := run[|run| - 1]; AllWait(s) ==> s.dropped != {} && !s.aborted
  {
    RunHasInv(run, root);
    RestIs(run[|run| - 1]);
  }

  lemma RestIs(s: State)
    requires Inv(s)
    ensures AtRest(s) <==> AllGone(s) || AllWait(s)
    ensures AllWait(s) ==> s.dropped != {} && !s.aborted && s.outstanding == |s.dropped|
    ensures AllGone(s) && !s.aborted ==> s.dropped == {}
  {
    assert s.IsWorker(0);
    if AtRest(s) {
      RestIsWaiting(s);
      NotAllWait(s);
    }
    if AllWait(s) || AllGone(s) {
      NotAllWait(s);
      WaitingRests(s);
    }
  }

  lemma WaitingRests(s: State)
    requires s.Shape() && (AllWait(s) || AllGone(s))
    ensures AtRest(s)
  {
  }

  /** When the workers have come to rest, they have all left exactly if an error stopped them or no node was dropped. */
  lemma FinishesIff(run: seq<State>, root: Node)
    requires IsRun(run, root)
    requires var s := run[|run| - 1]; s.Shape() && AtRest(s)
    ensures var s := run[|run| - 1]; AllGone(s) <==> s.aborted || s.dropped == {}
    ensures var s := run[|run| - 1]; !AllGone(s) ==> AllWait(s) && s.outstanding == |s.dropped|
  {
    RunHasInv(run, root);
    RestIs(run[|run| - 1]);
  }

  /** As long as no node was dropped, some worker can take a step until all have left. */
  lemma NeverStuck(run: seq<State>, root: Node)
    requires IsRun(run, root)
    requires var s := run[|run| - 1]; s.dropped == {} || s.aborted
    ensures var s := run[|run| - 1]; s.Shape()
    ensures var s := run[|run| - 1]; AllGone(s) || (exists w :: s.IsWorker(w) && CanStep(s, w))
  {
    RestIff(run, root);
  }

  lemma DropKeepsFromHalting(s: State, w: int)
    requires s.Shape() && s.IsWorker(w) && SearchOk(s, w) && HaltValid(s) && NodesValid(s) && s.dropped != {} && !s.aborted
    ensures !s.halting && !OnTheWayToHalt(s) && s.pcs[w] != Exited
  {
    if s.outstanding == 0 {
      ZeroMeansNothingLeft(s);
    }
  }

  /** Once a node was dropped, nobody leaves any more unless an error stops the exploration. */
  lemma NobodyLeavesAfterDrop(run: seq<State>, root: Node, w: int)
    requires IsRun(run, root)
    requires var s := run[|run| - 1]; s.dropped != {} && !s.aborted && s.Shape() && s.IsWorker(w)
    ensures var s := run[|run| - 1]; !s.halting && !OnTheWayToHalt(s) && s.pcs[w] != Exited
  {
    RunHasInv(run, root);
    DropKeepsFromHalting(run[|run| - 1], w);
  }

  // ----- A run that never ends ---------------------------------------------------------------------------

  /** Two workers, at `a` and `b`, with queues `p` and `q`. */
  ghost function Two(a: PC, b: PC, p: Queue, q: Queue, outstanding: int, created: set<Node>, handedOut: set<Node>,
                     finished: set<Node>, dropped: set<Node>, tree: seq<DecisionNode>): State
  {
    State([a, b], [p, q], outstanding, false, created, handedOut, finished, dropped, tree, false)
  }

  ghost predicate EndsAt(run: seq<State>, s: State) {
    IsRun(run, ROOT) && run[|run| - 1] == s
  }

  lemma Continue(run: seq<State>, s: State, w: int, ch: Choice, t: State) returns (longer: seq<State>)
    requires EndsAt(run, s) && s.Shape() && s.IsWorker(w) && Enabled(s, w, ch) && t == Apply(s, w, ch)
    ensures EndsAt(longer, t)
  {
    assert Step(s, w, t);
    longer := run + [t];
    forall i | 0 <= i < |longer| - 1
      ensures Next(longer[i], longer[i + 1])
    {
      if i < |run| - 1 { assert Next(run[i], run[i + 1]); }
    }
  }

  const ROOT := Node(0, -1)
  const FIRST := Node(2, 1)
  const SECOND := Node(3, 1)
  const BOTH: set<Node> := {FIRST, SECOND}

  /** The root, a decision, and two siblings below it. */
  function Tree(pruned: bool): seq<DecisionNode> {
    [DecisionNode(-1, 0, false, {}), DecisionNode(0, 0, pruned, {}), DecisionNode(1, 1, false, {}), DecisionNode(1, 1, false, {})]
  }

  const CHOICE := Choice(0, 0, [], NOBODY, Finish, false)

  /** The other worker holds no lock and does not wait. */
  predicate IsQuiet(pc: PC) {
    pc.Start? || pc.Working? || pc.Waiting?
  }

  /** A worker whose queue is not empty takes a node from it. */
  lemma TakesOwn(run: seq<State>, s: State, w: int, d: int) returns (longer: seq<State>)
    requires EndsAt(run, s) && s.Shape() && |s.pcs| == 2 && 0 <= w < 2 && s.pcs[w] == Start && IsQuiet(s.pcs[1 - w])
    requires !s.halting && CanPop(s.queues[w], d)
    ensures EndsAt(longer, Took(s, w, d))
  {
    var a, b := Goto(s, w, DequeueOwn), Goto(s, w, OwnQueue);
    longer := Continue(run, s, w, CHOICE, a);
    assert Goto(a, w, OwnQueue) == b;
    longer := Continue(longer, a, w, CHOICE, b);
    assert Took(b, w, d) == Took(s, w, d);
    longer := Continue(longer, b, w, CHOICE.(depth := d), Took(s, w, d));
  }

  /** A step of worker `w` from `a` to `b` that changes nothing else. */
  lemma Moves(run: seq<State>, s: State, w: int, a: PC, ch: Choice, b: PC) returns (longer: seq<State>)
    requires s.Shape() && s.IsWorker(w) && EndsAt(run, Goto(s, w, a)) && Enabled(Goto(s, w, a), w, ch)
    requires Apply(Goto(s, w, a), w, ch) == Goto(Goto(s, w, a), w, b)
    ensures EndsAt(longer, Goto(s, w, b))
  {
    assert Goto(Goto(s, w, a), w, b) == Goto(s, w, b);
    longer := Continue(run, Goto(s, w, a), w, ch, Goto(s, w, b));
  }

  lemma FindsNoneOfItsOwn(run: seq<State>, s: State, w: int) returns (longer: seq<State>)
    requires EndsAt(run, s) && s.Shape() && |s.pcs| == 2 && 0 <= w < 2 && s.pcs[w] == Start && IsQuiet(s.pcs[1 - w])
    requires !s.halting && s.queues[w] == map[]
    ensures EndsAt(longer, Goto(s, w, Scan))
  {
    assert Goto(s, w, Start) == s;
    longer := Moves(run, s, w, Start, CHOICE, DequeueOwn);
    longer := Moves(longer, s, w, DequeueOwn, CHOICE, OwnQueue);
    longer := Moves(longer, s, w, OwnQueue, CHOICE, WantBig);
    longer := Moves(longer, s, w, WantBig, CHOICE, Scan);
  }

  /** A worker whose queue is empty is about to look at that of the other one. */
  lemma LooksElsewhere(run: seq<State>, s: State, w: int) returns (longer: seq<State>)
    requires EndsAt(run, s) && s.Shape() && |s.pcs| == 2 && 0 <= w < 2 && s.pcs[w] == Start && IsQuiet(s.pcs[1 - w])
    requires !s.halting && s.queues[w] == map[]
    ensures EndsAt(longer, Goto(s, w, Robbing(1 - w, [])))
  {
    longer := FindsNoneOfItsOwn(run, s, w);
    longer := Moves(longer, s, w, Scan, CHOICE, ScanQueue);
    assert IsShuffle([1 - w], 2, w) && [1 - w][1..] == [];
    longer := Moves(longer, s, w, ScanQueue, CHOICE.(others := [1 - w]), TryOthers([1 - w]));
    longer := Moves(longer, s, w, TryOthers([1 - w]), CHOICE, Robbing(1 - w, []));
  }

  /** When both queues are empty it finds nothing, and waits. */
  lemma GoesToWait(run: seq<State>, s: State, w: int) returns (longer: seq<State>)
    requires EndsAt(run, s) && s.Shape() && |s.pcs| == 2 && 0 <= w < 2 && s.pcs[w] == Start && IsQuiet(s.pcs[1 - w])
    requires !s.halting && s.queues[0] == map[] && s.queues[1] == map[]
    ensures EndsAt(longer, Goto(s, w, Waiting))
  {
    longer := LooksElsewhere(run, s, w);
    longer := Moves(longer, s, w, Robbing(1 - w, []), CHOICE, TryOthers([]));
    longer := Moves(longer, s, w, TryOthers([]), CHOICE, Waiting);
  }

  /** A worker ends its exploration; something is left. */
  lemma Finishes(run: seq<State>, s: State, w: int, n: Node) returns (longer: seq<State>)
    requires EndsAt(run, s) && s.Shape() && |s.pcs| == 2 && 0 <= w < 2 && s.pcs[w] == Working(n) && IsQuiet(s.pcs[1 - w])
    requires s.outstanding > 1
    ensures EndsAt(longer, Goto(s, w, Start).(outstanding := s.outstanding - 1, finished := s.finished + {n}))
  {
    longer := EndsExploring(run, s, w, n);
    CountsDown(s, w, n);
    longer := Continue(longer, Goto(s, w, Counting(n)), w, CHOICE, Counted(Goto(s, w, Counting(n)), w, n, false));
  }

  lemma EndsExploring(run: seq<State>, s: State, w: int, n: Node) returns (longer: seq<State>)
    requires EndsAt(run, s) && s.Shape() && |s.pcs| == 2 && 0 <= w < 2 && s.pcs[w] == Working(n) && IsQuiet(s.pcs[1 - w])
    ensures EndsAt(longer, Goto(s, w, Counting(n)))
  {
    assert Goto(s, w, Working(n)) == s;
    longer := Moves(run, s, w, Working(n), CHOICE, Done(n));
    longer := Moves(longer, s, w, Done(n), CHOICE, Counting(n));
  }

  lemma CountsDown(s: State, w: int, n: Node)
    requires s.Shape() && s.IsWorker(w) && s.outstanding > 1
    ensures Counted(Goto(s, w, Counting(n)), w, n, false) ==
      Goto(s, w, Start).(outstanding := s.outstanding - 1, finished := s.finished + {n})
  {
  }

  /** A worker enqueues a node, and nobody waits for it. */
  lemma Enqueues(run: seq<State>, s: State, w: int, n: Node, c: Node) returns (longer: seq<State>)
    requires EndsAt(run, s) && s.Shape() && |s.pcs| == 2 && 0 <= w < 2 && s.pcs[w] == Working(n) && s.pcs[1 - w] == Start
    requires JobEnabled(s, Enqueue(c))
    ensures EndsAt(longer, s.(queues := s.queues[w := PushTo(s.queues[w], c)], outstanding := s.outstanding + 1, created := s.created + {c}))
  {
    var counted := s.(outstanding := s.outstanding + 1, created := s.created + {c});
    longer := Continue(run, s, w, CHOICE.(job := Enqueue(c)), Goto(counted, w, Announced(n, c)));
    longer := Moves(longer, counted, w, Announced(n, c), CHOICE, Pushing(n, c));
    longer := Pushes(longer, counted, w, n, c);
  }

  lemma Pushes(run: seq<State>, s: State, w: int, n: Node, c: Node) returns (longer: seq<State>)
    requires s.Shape() && |s.pcs| == 2 && 0 <= w < 2 && s.pcs[w] == Working(n) && s.pcs[1 - w] == Start
    requires EndsAt(run, Goto(s, w, Pushing(n, c)))
    ensures EndsAt(longer, s.(queues := s.queues[w := PushTo(s.queues[w], c)]))
  {
    var pushed := s.(queues := s.queues[w := PushTo(s.queues[w], c)]);
    assert Apply(Goto(s, w, Pushing(n, c)), w, CHOICE) == Goto(pushed, w, Pushed(n));
    longer := Continue(run, Goto(s, w, Pushing(n, c)), w, CHOICE, Goto(pushed, w, Pushed(n)));
    longer := Moves(longer, pushed, w, Pushed(n), CHOICE, Working(n));
    assert Goto(pushed, w, Working(n)) == pushed;
  }

  /** The root is taken by the first worker. */
  lemma RootIsTaken() returns (run: seq<State>)
    ensures EndsAt(run, Two(Working(ROOT), Start, map[], map[], 1, {ROOT}, {ROOT}, {}, {}, Tree(false)[..1]))
  {
    var q := map[-1 := [ROOT]];
    var s := Two(Start, Start, q, map[], 1, {ROOT}, {}, {}, {}, Tree(false)[..1]);
    run := [s];
    assert CanPop(q, -1) && PopFrom(q, -1) == map[] && {} + {ROOT} == {ROOT};
    run := TakesOwn(run, s, 0, -1);
    var a := Two(Checking(ROOT, 0), Start, map[], map[], 1, {ROOT}, {ROOT}, {}, {}, Tree(false)[..1]);
    assert Took(s, 0, -1) == a;
    run := Continue(run, a, 0, CHOICE, Two(Working(ROOT), Start, map[], map[], 1, {ROOT}, {ROOT}, {}, {}, Tree(false)[..1]));
  }

  /** The tree grows by a decision and two siblings below it. */
  lemma TreeHasGrown() returns (run: seq<State>)
    ensures EndsAt(run, Two(Working(ROOT), Start, map[], map[], 1, {ROOT}, {ROOT}, {}, {}, Tree(false)))
  {
    run := RootIsTaken();
    var a := Two(Working(ROOT), Start, map[], map[], 1, {ROOT}, {ROOT}, {}, {}, Tree(false)[..1]);
    var b, c, d := a.(tree := Tree(false)[..2]), a.(tree := Tree(false)[..3]), a.(tree := Tree(false));
    assert Tree(false)[..4] == Tree(false);
    run := Continue(run, a, 0, CHOICE.(job := Extend(0)), b);
    run := Continue(run, b, 0, CHOICE.(job := Extend(1)), c);
    run := Continue(run, c, 0, CHOICE.(job := Extend(1)), d);
  }

  /** The two are enqueued, and the root is finished. */
  lemma SiblingsAreQueued() returns (run: seq<State>)
    ensures EndsAt(run, Two(Start, Start, map[1 := [FIRST, SECOND]], map[], 2, {ROOT} + BOTH, {ROOT}, {ROOT}, {}, Tree(false)))
  {
    run := TreeHasGrown();
    var a := Two(Working(ROOT), Start, map[], map[], 1, {ROOT}, {ROOT}, {}, {}, Tree(false));
    run := Enqueues(run, a, 0, ROOT, FIRST);
    var none: seq<Node> := [];
    assert none + [FIRST] == [FIRST] && PushTo(map[], FIRST) == map[1 := [FIRST]];
    var b := Two(Working(ROOT), Start, map[1 := [FIRST]], map[], 2, {ROOT} + {FIRST}, {ROOT}, {}, {}, Tree(false));
    run := Enqueues(run, b, 0, ROOT, SECOND);
    assert [FIRST] + [SECOND] == [FIRST, SECOND] && PushTo(map[1 := [FIRST]], SECOND) == map[1 := [FIRST, SECOND]];
    var c := Two(Working(ROOT), Start, map[1 := [FIRST, SECOND]], map[], 3, {ROOT} + {FIRST} + {SECOND}, {ROOT}, {}, {}, Tree(false));
    run := Finishes(run, c, 0, ROOT);
    assert {ROOT} + {FIRST} + {SECOND} == {ROOT} + BOTH && {} + {ROOT} == {ROOT};
  }

  /** The first worker takes one of them. */
  lemma FirstIsTaken() returns (run: seq<State>)
    ensures EndsAt(run, Two(Checking(FIRST, 2), Start, map[1 := [SECOND]], map[], 2, {ROOT} + BOTH, {ROOT} + {FIRST}, {ROOT}, {}, Tree(false)))
  {
    run := SiblingsAreQueued();
    var q, r := map[1 := [FIRST, SECOND]], map[1 := [SECOND]];
    var s := Two(Start, Start, q, map[], 2, {ROOT} + BOTH, {ROOT}, {ROOT}, {}, Tree(false));
    assert CanPop(q, 1) && [FIRST, SECOND][1..] == [SECOND] && PopFrom(q, 1) == r;
    run := TakesOwn(run, s, 0, 1);
    assert Took(s, 0, 1) == Two(Checking(FIRST, 2), Start, r, map[], 2, {ROOT} + BOTH, {ROOT} + {FIRST}, {ROOT}, {}, Tree(false));
  }

  /** It prunes the decision above, while the other one is still queued. */
  lemma DecisionIsPruned() returns (run: seq<State>)
    ensures EndsAt(run, Two(Working(FIRST), Start, map[1 := [SECOND]], map[], 2, {ROOT} + BOTH, {ROOT} + {FIRST}, {ROOT}, {}, Tree(true)))
  {
    run := FirstIsTaken();
    var a := Two(Checking(FIRST, 2), Start, map[1 := [SECOND]], map[], 2, {ROOT} + BOTH, {ROOT} + {FIRST}, {ROOT}, {}, Tree(false));
    assert Goto(a, 0, Checking(FIRST, 2)) == a;
    run := Moves(run, a, 0, Checking(FIRST, 2), CHOICE, Checking(FIRST, 1));
    run := Moves(run, a, 0, Checking(FIRST, 1), CHOICE, Checking(FIRST, 0));
    run := Moves(run, a, 0, Checking(FIRST, 0), CHOICE, Working(FIRST));
    assert Tree(false)[1 := Tree(false)[1].(pruned := true)] == Tree(true);
    run := Continue(run, Goto(a, 0, Working(FIRST)), 0, CHOICE.(job := Prune(1)), Goto(a, 0, Working(FIRST)).(tree := Tree(true)));
  }

  /** The second worker steals the other one. */
  lemma SiblingIsStolen() returns (run: seq<State>)
    ensures EndsAt(run, Two(Working(FIRST), Checking(SECOND, 3), map[], map[], 2, {ROOT} + BOTH, {ROOT} + BOTH, {ROOT}, {}, Tree(true)))
  {
    run := DecisionIsPruned();
    var r := map[1 := [SECOND]];
    var s := Two(Working(FIRST), Start, r, map[], 2, {ROOT} + BOTH, {ROOT} + {FIRST}, {ROOT}, {}, Tree(true));
    run := LooksElsewhere(run, s, 1);
    var a := Goto(s, 1, Robbing(0, []));
    assert Kept(1) == 0 && [SECOND][0..] == [SECOND] && Loot(r, 1) == r && AfterTheft(r, 1) == map[] && PopFrom(r, 1) == map[];
    assert Shallowest(r, 1) && CanPop(r, 1) && {ROOT} + {FIRST} + {SECOND} == {ROOT} + BOTH;
    var b := Two(Working(FIRST), Checking(SECOND, 3), map[], map[], 2, {ROOT} + BOTH, {ROOT} + BOTH, {ROOT}, {}, Tree(true));
    assert Took(AfterRobbery(a, 1, 0, 1), 1, 1) == b;
    run := Continue(run, a, 1, CHOICE.(stealDepth := 1, depth := 1), b);
  }

  /** It drops it. */
  lemma SiblingIsDropped() returns (run: seq<State>)
    ensures EndsAt(run, Two(Working(FIRST), Start, map[], map[], 2, {ROOT} + BOTH, {ROOT} + BOTH, {ROOT}, {SECOND}, Tree(true)))
  {
    run := SiblingIsStolen();
    var b := Two(Working(FIRST), Checking(SECOND, 3), map[], map[], 2, {ROOT} + BOTH, {ROOT} + BOTH, {ROOT}, {}, Tree(true));
    var c := Goto(b, 1, Checking(SECOND, 1));
    run := Continue(run, b, 1, CHOICE, c);
    assert {} + {SECOND} == {SECOND};
    run := Continue(run, c, 1, CHOICE, Goto(b, 1, Start).(dropped := {SECOND}));
  }

  /** Then there is nothing left to do, but the counter does not reach zero, and both workers wait for ever. */
  lemma StuckRun() returns (run: seq<State>)
    ensures IsRun(run, ROOT)
    ensures var s := run[|run| - 1]; s.Shape() && |s.pcs| == 2 && AtRest(s) && AllWait(s) && !s.aborted
    ensures var s := run[|run| - 1]; s.outstanding == 1 && s.dropped == {SECOND}
  {
    run := SiblingIsDropped();
    var s := Two(Working(FIRST), Start, map[], map[], 2, {ROOT} + BOTH, {ROOT} + BOTH, {ROOT}, {SECOND}, Tree(true));
    run := GoesToWait(run, s, 1);
    var a := Two(Working(FIRST), Waiting, map[], map[], 2, {ROOT} + BOTH, {ROOT} + BOTH, {ROOT}, {SECOND}, Tree(true));
    run := Finishes(run, a, 0, FIRST);
    var b := Two(Start, Waiting, map[], map[], 1, {ROOT} + BOTH, {ROOT} + BOTH, {ROOT} + {FIRST}, {SECOND}, Tree(true));
    run := GoesToWait(run, b, 0);
    RestIff(run, ROOT);
  }
}
