/**
 * src/POWERExecution.cpp and src/POWERInterpreter.h: instructions are fetched in program order, and committed
 * in any order in which their operands become available.
 *
 * A fetched instruction is known by its place in the order of fetching.  The value of an event, such as a
 * load, comes from outside when the event is committed.
 */
module PowerCommit {
  import opened Options

  /** An operand is a constant, or the value of an earlier instruction. */
  datatype Source<V> = Const(value: V) | Ref(of: nat)

  /** `ends` tells whether fetching has to wait for the instruction, as for terminators and calls. */
  datatype Instr<V> = Instr(event: bool, ends: bool, sources: seq<Source<V>>)

  /** Operand `op` of instruction `fi`. */
  datatype Dependent = Dependent(fi: nat, op: nat)

  /** An instruction that has been fetched; an operand that is not there yet has no value. */
  datatype Fetched<V> = Fetched(operands: seq<Option<V>>, dependents: set<Dependent>, value: Option<V>, committed: bool)

  type Eval<!V> = (nat, seq<V>) -> V

  // ----- Evaluation in program order ---------------------------------------------------------------------

  predicate Closed<V>(code: seq<Instr<V>>) {
    forall i, j :: 0 <= i < |code| && 0 <= j < |code[i].sources| && code[i].sources[j].Ref? ==> code[i].sources[j].of < i
  }

  function SourceValue<V>(eval: Eval<V>, code: seq<Instr<V>>, loaded: map<nat, V>, i: nat, j: nat): Option<V>
    requires Closed(code) && i < |code| && j < |code[i].sources|
    decreases i, 0
  {
    match code[i].sources[j]
    case Const(v) => Some(v)
    case Ref(s) => Value(eval, code, loaded, s)
  }

  /** The values of the first `n` operands, if all of them are known. */
  function Arguments<V>(eval: Eval<V>, code: seq<Instr<V>>, loaded: map<nat, V>, i: nat, n: nat): (r: Option<seq<V>>)
    requires Closed(code) && i < |code| && n <= |code[i].sources|
    ensures r.Some? ==> |r.value| == n
    decreases i, 1, n
  {
    if n == 0 then Some([]) else
      var before, last := Arguments(eval, code, loaded, i, n - 1), SourceValue(eval, code, loaded, i, n - 1);
      if before.Some? && last.Some? then Some(before.value + [last.value]) else None
  }

  /** The value of instruction `i`, as far as the values of the committed events determine it. */
  function Value<V>(eval: Eval<V>, code: seq<Instr<V>>, loaded: map<nat, V>, i: nat): Option<V>
    requires Closed(code) && i < |code|
    decreases i, 2
  {
    if code[i].event then
      if i in loaded then Some(loaded[i]) else None
    else
      var arguments := Arguments(eval, code, loaded, i, |code[i].sources|);
      if arguments.Some? then Some(eval(i, arguments.value)) else None
  }

  /** The value of an operand, in evaluation in program order. */
  function Operand<V>(eval: Eval<V>, code: seq<Instr<V>>, loaded: map<nat, V>, i: nat, j: int): Option<V>
    requires Closed(code) && i < |code| && 0 <= j < |code[i].sources|
  {
    SourceValue(eval, code, loaded, i, j)
  }

  lemma {:induction false} ArgumentsAre<V>(eval: Eval<V>, code: seq<Instr<V>>, loaded: map<nat, V>, i: nat, n: nat)
    requires Closed(code) && i < |code| && n <= |code[i].sources|
    ensures Arguments(eval, code, loaded, i, n).Some? <==> forall j :: 0 <= j < n ==> Operand(eval, code, loaded, i, j).Some?
    ensures Arguments(eval, code, loaded, i, n).Some? ==>
      forall j :: 0 <= j < n ==> Operand(eval, code, loaded, i, j) == Some(Arguments(eval, code, loaded, i, n).value[j])
  {
    if n > 0 {
      ArgumentsAre(eval, code, loaded, i, n - 1);
      var last := Operand(eval, code, loaded, i, n - 1);
    }
  }

  /** More events and more code leave the values that are known as they are. */
  lemma {:induction false} ValueStays<V>(eval: Eval<V>, code: seq<Instr<V>>, loaded: map<nat, V>, code': seq<Instr<V>>, loaded': map<nat, V>, i: nat)
    requires Closed(code) && Closed(code') && code <= code' && i < |code|
    requires forall k :: k in loaded ==> k in loaded' && loaded'[k] == loaded[k]
    ensures Value(eval, code, loaded, i).Some? ==> Value(eval, code', loaded', i) == Value(eval, code, loaded, i)
    ensures loaded' == loaded ==> Value(eval, code', loaded', i) == Value(eval, code, loaded, i)
    decreases i
  {
    var n := |code[i].sources|;
    forall j | 0 <= j < n
      ensures Operand(eval, code, loaded, i, j).Some? ==>
        Operand(eval, code', loaded', i, j) == Operand(eval, code, loaded, i, j)
      ensures loaded' == loaded ==> Operand(eval, code', loaded', i, j) == Operand(eval, code, loaded, i, j)
    {
      if code[i].sources[j].Ref? {
        ValueStays(eval, code, loaded, code', loaded', code[i].sources[j].of);
      }
    }
    ArgumentsAre(eval, code, loaded, i, n);
    ArgumentsAre(eval, code', loaded', i, n);
    var a, b := Arguments(eval, code, loaded, i, n), Arguments(eval, code', loaded', i, n);
    assert a.Some? ==> b.Some? && a.value == b.value;
    assert loaded' == loaded && b.Some? ==> a.Some?;
  }

  // ----- The state ---------------------------------------------------------------------------------------

  /** The operand takes its value from instruction `s`. */
  predicate Uses<V>(code: seq<Instr<V>>, d: Dependent, s: nat) {
    d.fi < |code| && d.op < |code[d.fi].sources| && code[d.fi].sources[d.op] == Ref(s)
  }

  predicate Committable<V>(fi: Fetched<V>) {
    forall j :: 0 <= j < |fi.operands| ==> fi.operands[j].Some?
  }

  datatype State<!V(!new)> = State(eval: Eval<V>, code: seq<Instr<V>>, fetched: seq<Fetched<V>>, loaded: map<nat, V>)
  {
    /** What operand `j` of instruction `i` should be, when those in `late` have not been told yet. */
    ghost function Delivered(i: nat, j: nat, late: set<Dependent>): Option<V>
      requires i < |code| && j < |code[i].sources|
    {
      match code[i].sources[j]
      case Const(v) => Some(v)
      case Ref(s) => if s < |fetched| && Dependent(i, j) !in late then fetched[s].value else None
    }

    ghost predicate OperandsValid(i: nat, late: set<Dependent>)
      requires i < |code| == |fetched|
    {
      && |fetched[i].operands| == |code[i].sources|
      && forall j {:trigger fetched[i].operands[j]} :: 0 <= j < |code[i].sources| ==> fetched[i].operands[j] == Delivered(i, j, late)
    }

    /** Instruction `i`, while instruction `c` still has to tell those in `late`. */
    ghost predicate InstrValid(i: nat, c: int, late: set<Dependent>)
      requires i < |code| == |fetched| && Closed(code)
    {
      var f := fetched[i];
      && OperandsValid(i, late)
      && (f.committed <==> f.value.Some?) && (f.committed ==> Committable(f))
      && (f.value.Some? ==> f.value == Value(eval, code, loaded, i))
      && (code[i].event ==> (f.committed <==> i in loaded))
      && (if i == c then true else if f.committed then f.dependents == {}
          else forall d :: d in f.dependents <==> Uses(code, d, i))
    }

    ghost predicate Valid(c: int, late: set<Dependent>) {
      && |code| == |fetched| && Closed(code) && (forall i :: i in loaded ==> i < |code|)
      && (forall d :: d in late ==> 0 <= c < |code| && Uses(code, d, c))
      && (0 <= c < |code| ==> fetched[c].committed)
      && (forall i: nat {:trigger InstrValid(i, c, late)} :: i < |code| ==> InstrValid(i, c, late))
    }

    /** The work lists hold exactly the instructions that are waiting, but for `skip`, once each. */
    ghost predicate ListsValid(local: seq<nat>, events: set<nat>, skip: int)
      requires |code| == |fetched|
    {
      && (forall a, b :: 0 <= a < b < |local| ==> local[a] != local[b])
      && (forall i: nat :: i in local <==> i < |code| && i != skip && Waiting(i) && !code[i].event)
      && (forall i: nat :: i in events <==> i < |code| && i != skip && Waiting(i) && code[i].event)
    }

    /** All operands are there, but the instruction has not been committed. */
    ghost predicate Waiting(i: nat)
      requires i < |fetched|
    {
      !fetched[i].committed && Committable(fetched[i])
    }

    // ----- Committing ------------------------------------------------------------------------------------

    function Begun(i: nat, v: V): State<V>
      requires i < |fetched| && i < |code|
    {
      this.(fetched := fetched[i := fetched[i].(value := Some(v), committed := true)],
            loaded := if code[i].event then loaded[i := v] else loaded)
    }

    /** The value that `visit` computes from the operands. */
    ghost predicate Computes(i: nat, v: V)
      requires i < |fetched| && i < |code|
    {
      !code[i].event ==> exists arguments :: ArgumentsAvailable(i, arguments) && v == eval(i, arguments)
    }

    ghost predicate ArgumentsAvailable(i: nat, arguments: seq<V>)
      requires i < |fetched|
    {
      |arguments| == |fetched[i].operands| && forall j :: 0 <= j < |arguments| ==> fetched[i].operands[j] == Some(arguments[j])
    }

    /** The value computed from the operands that have arrived is the value in program order. */
    lemma ComputedIsValue(i: nat, v: V)
      requires Valid(-1, {}) && i < |code| && Waiting(i) && !code[i].event && Computes(i, v)
      ensures Value(eval, code, loaded, i) == Some(v)
    {
      assert InstrValid(i, -1, {});
      var n := |code[i].sources|;
      forall j | 0 <= j < n
        ensures Operand(eval, code, loaded, i, j) == fetched[i].operands[j]
      {
        assert fetched[i].operands[j] == Delivered(i, j, {});
        match code[i].sources[j]
        case Const(_) =>
        case Ref(s) => assert InstrValid(s, -1, {});
      }
      ArgumentsAre(eval, code, loaded, i, n);
      var arguments :| ArgumentsAvailable(i, arguments) && v == eval(i, arguments);
      assert arguments == Arguments(eval, code, loaded, i, n).value;
    }

    lemma BeginKeepsInstr(i: nat, v: V, k: nat)
      requires Valid(-1, {}) && i < |code| && Waiting(i) && Computes(i, v) && k < |code|
      ensures Begun(i, v).InstrValid(k, i, fetched[i].dependents)
    {
      var n, late := Begun(i, v), fetched[i].dependents;
      assert InstrValid(i, -1, {}) && InstrValid(k, -1, {});
      forall j | 0 <= j < |code[k].sources|
        ensures n.fetched[k].operands[j] == n.Delivered(k, j, late)
      {
        assert fetched[k].operands[j] == Delivered(k, j, {});
        assert Uses(code, Dependent(k, j), i) <==> Dependent(k, j) in late;
      }
      ValueStays(eval, code, loaded, code, n.loaded, k);
      if k == i && !code[i].event {
        ComputedIsValue(i, v);
      }
    }

    lemma BeginKeepsValid(i: nat, v: V)
      requires Valid(-1, {}) && i < |code| && Waiting(i) && Computes(i, v)
      ensures Begun(i, v).Valid(i, fetched[i].dependents)
    {
      assert InstrValid(i, -1, {});
      forall k: nat | k < |code|
        ensures Begun(i, v).InstrValid(k, i, fetched[i].dependents)
      {
        BeginKeepsInstr(i, v, k);
      }
    }

    function Told(c: nat, d: Dependent): State<V>
      requires c < |fetched| && d.fi < |fetched| && d.op < |fetched[d.fi].operands|
    {
      this.(fetched := fetched[d.fi := fetched[d.fi].(operands := fetched[d.fi].operands[d.op := fetched[c].value])])
    }

    /** The assertions of `commit` about each dependent. */
    lemma TellIsDue(c: nat, late: set<Dependent>, d: Dependent)
      requires Valid(c, late) && c < |code| && d in late
      ensures d.fi < |fetched| && d.op < |fetched[d.fi].operands| && d.fi > c
      ensures !fetched[d.fi].committed && fetched[d.fi].operands[d.op].None?
    {
      assert InstrValid(d.fi, c, late);
      assert fetched[d.fi].operands[d.op] == Delivered(d.fi, d.op, late);
    }

    lemma TellKeepsValid(c: nat, late: set<Dependent>, d: Dependent)
      requires Valid(c, late) && c < |code| && d in late
      ensures d.fi < |fetched| && d.op < |fetched[d.fi].operands| && Told(c, d).Valid(c, late - {d})
    {
      TellIsDue(c, late, d);
      var n, less := Told(c, d), late - {d};
      forall k: nat | k < |code|
        ensures n.InstrValid(k, c, less)
      {
        assert InstrValid(k, c, late);
        forall j | 0 <= j < |code[k].sources|
          ensures n.fetched[k].operands[j] == n.Delivered(k, j, less)
        {
          assert fetched[k].operands[j] == Delivered(k, j, late);
          assert Dependent(k, j) == d <==> k == d.fi && j == d.op;
        }
      }
    }

    function Finished(c: nat): State<V>
      requires c < |fetched|
    {
      this.(fetched := fetched[c := fetched[c].(dependents := {})])
    }

    lemma FinishKeepsValid(c: nat)
      requires Valid(c, {}) && c < |code|
      ensures Finished(c).Valid(-1, {})
    {
      var n := Finished(c);
      forall k: nat | k < |code|
        ensures n.InstrValid(k, -1, {})
      {
        assert InstrValid(k, c, {});
        forall j | 0 <= j < |code[k].sources|
          ensures n.fetched[k].operands[j] == n.Delivered(k, j, {})
        {
          assert fetched[k].operands[j] == Delivered(k, j, {});
        }
      }
    }

    // ----- The end ---------------------------------------------------------------------------------------

    /**
     * When no local instruction is waiting, what has been committed is what is determined, whatever the order
     * of committing was.
     */
    lemma {:induction false} AllDetermined(local: seq<nat>, events: set<nat>, i: nat)
      requires Valid(-1, {}) && local == [] && ListsValid(local, events, -1) && i < |code|
      ensures fetched[i].value == Value(eval, code, loaded, i)
      decreases i
    {
      assert InstrValid(i, -1, {});
      if !code[i].event {
        var n := |code[i].sources|;
        forall j | 0 <= j < n
          ensures fetched[i].operands[j] == Operand(eval, code, loaded, i, j)
        {
          assert fetched[i].operands[j] == Delivered(i, j, {});
          if code[i].sources[j].Ref? {
            AllDetermined(local, events, code[i].sources[j].of);
          }
        }
        ArgumentsAre(eval, code, loaded, i, n);
        assert i !in local;
      }
    }

    // ----- Fetching --------------------------------------------------------------------------------------

    /** The operands of a new instruction, and which of them have to be waited for. */
    ghost predicate IsFetched(x: Instr<V>, operands: seq<Option<V>>, after: seq<Fetched<V>>, n: nat)
    {
      && n <= |x.sources| && |operands| == n && |after| == |fetched|
      && (forall j :: 0 <= j < n && x.sources[j].Ref? ==> x.sources[j].of < |fetched|)
      && (forall j :: 0 <= j < n ==>
            operands[j] == if x.sources[j].Const? then Some(x.sources[j].value) else fetched[x.sources[j].of].value)
      && (forall k :: 0 <= k < |fetched| ==> after[k] == fetched[k].(dependents := after[k].dependents))
      && (forall k, d :: 0 <= k < |fetched| ==>
            (d in after[k].dependents <==> d in fetched[k].dependents || NewDependent(x, k, n, d)))
    }

    ghost predicate NewDependent(x: Instr<V>, k: nat, n: nat, d: Dependent)
      requires k < |fetched|
    {
      d.fi == |fetched| && d.op < n && d.op < |x.sources| && x.sources[d.op] == Ref(k) && !fetched[k].committed
    }

    lemma FetchKeepsInstr(x: Instr<V>, operands: seq<Option<V>>, after: seq<Fetched<V>>, k: nat)
      requires Valid(-1, {}) && IsFetched(x, operands, after, |x.sources|) && k <= |code|
      requires forall j :: 0 <= j < |x.sources| && x.sources[j].Ref? ==> x.sources[j].of < |code|
      requires |code| !in loaded
      ensures var n := State(eval, code + [x], after + [Fetched(operands, {}, None, false)], loaded);
        Closed(n.code) && n.InstrValid(k, -1, {})
    {
      var n := State(eval, code + [x], after + [Fetched(operands, {}, None, false)], loaded);
      assert k < |code| ==> InstrValid(k, -1, {});
      forall j | 0 <= j < |n.code[k].sources|
        ensures n.fetched[k].operands[j] == n.Delivered(k, j, {})
      {
        if k < |code| {
          assert InstrValid(k, -1, {});
          assert fetched[k].operands[j] == Delivered(k, j, {});
        }
      }
      if k < |code| {
        assert InstrValid(k, -1, {});
        ValueStays(eval, code, loaded, n.code, loaded, k);
        forall d
          ensures !fetched[k].committed ==> (Uses(n.code, d, k) <==> Uses(code, d, k) || NewDependent(x, k, |x.sources|, d))
        {
        }
      } else {
        forall d
          ensures !Uses(n.code, d, k)
        {
        }
      }
    }
  }

  // ----- The work lists ----------------------------------------------------------------------------------

  lemma ListsAfterBegin<V(!new)>(s: State<V>, local: seq<nat>, events: set<nat>, i: nat, v: V)
    requires s.Valid(-1, {}) && i < |s.code| && s.Waiting(i) && s.ListsValid(local, events, i)
    ensures s.Begun(i, v).ListsValid(local, events, -1)
  {
    var n := s.Begun(i, v);
    forall k: nat | k < |s.code|
      ensures n.Waiting(k) <==> k != i && s.Waiting(k)
    {
    }
  }

  lemma ListsAfterTell<V(!new)>(s: State<V>, local: seq<nat>, events: set<nat>, c: nat, late: set<Dependent>, d: Dependent,
                                local': seq<nat>, events': set<nat>)
    requires s.Valid(c, late) && c < |s.code| && d in late && s.ListsValid(local, events, -1)
    requires d.fi < |s.fetched| && d.op < |s.fetched[d.fi].operands|
    requires var ready := Committable(s.Told(c, d).fetched[d.fi]);
      && local' == (if ready && !s.code[d.fi].event then local + [d.fi] else local)
      && events' == (if ready && s.code[d.fi].event then events + {d.fi} else events)
    ensures s.Told(c, d).ListsValid(local', events', -1)
  {
    s.TellIsDue(c, late, d);
    var n := s.Told(c, d);
    assert !s.Waiting(d.fi);
    forall k: nat | k < |s.code|
      ensures n.Waiting(k) <==> if k == d.fi then Committable(n.fetched[k]) else s.Waiting(k)
    {
    }
    assert d.fi !in local && d.fi !in events;
  }

  /** `n` has one instruction more than `s`, and the others wait for what they waited for. */
  ghost predicate FetchedOneMore<V(!new)>(s: State<V>, n: State<V>, local: seq<nat>, events: set<nat>) {
    && |s.code| == |s.fetched| && |n.code| == |n.fetched| == |s.code| + 1 && s.ListsValid(local, events, -1)
    && forall k: nat :: k < |s.code| ==> n.code[k] == s.code[k] && (n.Waiting(k) <==> s.Waiting(k))
  }

  lemma ListsAfterFetch<V(!new)>(s: State<V>, n: State<V>, local: seq<nat>, events: set<nat>, local': seq<nat>, events': set<nat>)
    requires FetchedOneMore(s, n, local, events)
    requires var i := |s.code|;
      && local' == (if n.Waiting(i) && !n.code[i].event then local + [i] else local)
      && events' == (if n.Waiting(i) && n.code[i].event then events + {i} else events)
    ensures n.ListsValid(local', events', -1)
  {
    assert |s.code| !in local && |s.code| !in events;
  }

  function Uncommitted<V>(fetched: seq<Fetched<V>>): nat {
    if fetched == [] then 0
    else Uncommitted(fetched[..|fetched| - 1]) + if fetched[|fetched| - 1].committed then 0 else 1
  }

  lemma {:induction false} UncommittedShrinks<V>(before: seq<Fetched<V>>, after: seq<Fetched<V>>, i: int)
    requires |before| == |after| && forall k :: 0 <= k < |after| ==> (after[k].committed <==> before[k].committed || k == i)
    ensures Uncommitted(after) == Uncommitted(before) - if 0 <= i < |before| && !before[i].committed then 1 else 0
  {
    if before != [] {
      UncommittedShrinks(before[..|before| - 1], after[..|after| - 1], i);
    }
  }

  /** One of the instructions committed since ends. */
  ghost predicate SomeEnds<V>(code: seq<Instr<V>>, log: seq<nat>, since: nat) {
    exists k :: since <= k < |log| && log[k] < |code| && code[log[k]].ends
  }

  lemma SomeEndsStep<V>(code: seq<Instr<V>>, before: seq<nat>, log: seq<nat>, since: nat, ends: bool)
    requires |log| == |before| + 1 && before <= log && since <= |before|
    requires log[|before|] < |code| && ends == code[log[|before|]].ends
    ensures SomeEnds(code, log, since) <==> SomeEnds(code, before, since) || ends
  {
    if k :| since <= k < |before| && before[k] < |code| && code[before[k]].ends {
      assert log[k] == before[k];
    }
  }

  // ----- The interpreter ---------------------------------------------------------------------------------

  class Interpreter<V(!new)> {
    const eval: Eval<V>
    var code: seq<Instr<V>>
    var fetched: seq<Fetched<V>>
    var local: seq<nat>
    var events: set<nat>
    ghost var loaded: map<nat, V>
    /** The instructions in the order in which they have been committed. */
    ghost var log: seq<nat>

    ghost function Now(): State<V>
      reads this
    {
      State(eval, code, fetched, loaded)
    }

    /** Each instruction is in the log once it is committed, and not more than once. */
    ghost predicate LogValid()
      reads this
    {
      && (forall a, b :: 0 <= a < b < |log| ==> log[a] != log[b])
      && (forall i: nat :: i in log <==> i < |fetched| && fetched[i].committed)
    }

    ghost predicate Valid()
      reads this
    {
      Now().Valid(-1, {}) && Now().ListsValid(local, events, -1) && LogValid()
    }

    constructor (eval: Eval<V>)
      ensures Valid() && code == [] && log == [] && this.eval == eval
    {
      this.eval := eval;
      code, fetched, local, events, loaded, log := [], [], [], {}, map[], [];
    }

    /** The dependents of instruction `c` get its value. */
    method TellDependents(c: nat)
      requires c < |code| == |fetched| && Now().Valid(c, fetched[c].dependents) && Now().ListsValid(local, events, -1)
      modifies this`fetched, this`local, this`events
      ensures Now().Valid(c, {}) && Now().ListsValid(local, events, -1)
      ensures |fetched| == |old(fetched)|
      ensures forall k :: 0 <= k < |fetched| ==> fetched[k] == old(fetched)[k].(operands := fetched[k].operands)
    {
      var late := fetched[c].dependents;
      while late != {}
        invariant |fetched| == |old(fetched)| == |code| && Now().Valid(c, late) && Now().ListsValid(local, events, -1)
        invariant forall k :: 0 <= k < |fetched| ==> fetched[k] == old(fetched)[k].(operands := fetched[k].operands)
        decreases late
      {
        var d :| d in late;
        Tell(c, d, late);
        late := late - {d};
      }
    }

    method Tell(c: nat, d: Dependent, ghost late: set<Dependent>)
      requires c < |code| && d in late && Now().Valid(c, late) && Now().ListsValid(local, events, -1)
      modifies this`fetched, this`local, this`events
      ensures Now().Valid(c, late - {d}) && Now().ListsValid(local, events, -1)
      ensures |fetched| == |old(fetched)|
      ensures forall k :: 0 <= k < |fetched| ==> fetched[k] == old(fetched)[k].(operands := fetched[k].operands)
    {
      ghost var was := Now();
      was.TellIsDue(c, late, d);
      assert !fetched[d.fi].committed;
      assert fetched[d.fi].operands[d.op].None?;
      was.TellKeepsValid(c, late, d);
      fetched := fetched[d.fi := fetched[d.fi].(operands := fetched[d.fi].operands[d.op := fetched[c].value])];
      ghost var localWas, eventsWere := local, events;
      var ready := IsCommittable(d.fi);
      if ready {
        if code[d.fi].event {
          events := events + {d.fi};
        } else {
          local := local + [d.fi];
        }
      }
      ListsAfterTell(was, localWas, eventsWere, c, late, d, local, events);
    }

    method IsCommittable(i: nat) returns (b: bool)
      requires i < |fetched|
      ensures b <==> Committable(fetched[i])
    {
      for j := 0 to |fetched[i].operands|
        invariant forall l :: 0 <= l < j ==> fetched[i].operands[l].Some?
      {
        if fetched[i].operands[j].None? {
          return false;
        }
      }
      return true;
    }

    /** `commit`: the value of an event is given, that of a local instruction is computed. */
    method Commit(i: nat, given: Option<V>)
      requires Now().Valid(-1, {}) && i < |code| && Now().Waiting(i) && Now().ListsValid(local, events, i) && LogValid()
      requires code[i].event <==> given.Some?
      modifies this`fetched, this`local, this`events, this`loaded, this`log
      ensures Valid() && log == old(log) + [i]
      ensures loaded == if code[i].event then old(loaded)[i := given.value] else old(loaded)
      ensures |fetched| == |old(fetched)|
      ensures forall k :: 0 <= k < |fetched| ==> (fetched[k].committed <==> old(fetched)[k].committed || k == i)
    {
      assert !fetched[i].committed;
      var v;
      if code[i].event {
        v := given.value;
      } else {
        var arguments := TakeOperands(i);
        v := eval(i, arguments);
      }
      ghost var was := Now();
      assert was.Computes(i, v);
      was.BeginKeepsValid(i, v);
      ListsAfterBegin(was, local, events, i, v);
      fetched := fetched[i := fetched[i].(value := Some(v), committed := true)];
      loaded := if code[i].event then loaded[i := v] else loaded;
      log := log + [i];
      TellDependents(i);
      Finish(i);
    }

    method TakeOperands(i: nat) returns (arguments: seq<V>)
      requires i < |fetched| && Committable(fetched[i])
      ensures Now().ArgumentsAvailable(i, arguments)
    {
      arguments := [];
      for j := 0 to |fetched[i].operands|
        invariant |arguments| == j && forall l :: 0 <= l < j ==> fetched[i].operands[l] == Some(arguments[l])
      {
        arguments := arguments + [fetched[i].operands[j].value];
      }
    }

    method Finish(i: nat)
      requires i < |code| && Now().Valid(i, {}) && Now().ListsValid(local, events, -1)
      modifies this`fetched
      ensures Now().Valid(-1, {}) && Now().ListsValid(local, events, -1) && |fetched| == |old(fetched)|
      ensures forall k :: 0 <= k < |fetched| ==> (fetched[k].committed <==> old(fetched)[k].committed)
    {
      ghost var was := Now();
      was.FinishKeepsValid(i);
      fetched := fetched[i := fetched[i].(dependents := {})];
      forall k: nat | k < |code|
        ensures Now().Waiting(k) <==> was.Waiting(k)
      {
      }
    }

    /** `commitAllLocal`: in the end everything that is determined has been committed, with its value. */
    method CommitAllLocal() returns (ended: bool)
      requires Valid()
      modifies this`fetched, this`local, this`events, this`loaded, this`log
      ensures Valid() && local == [] && old(log) <= log && loaded == old(loaded)
      ensures forall i: nat :: i < |code| ==> fetched[i].value == Value(eval, code, loaded, i)
      ensures ended <==> exists k :: |old(log)| <= k < |log| && log[k] < |code| && code[log[k]].ends
    {
      ended := false;
      while local != []
        invariant Valid() && old(log) <= log && loaded == old(loaded)
        invariant ended <==> SomeEnds(code, log, |old(log)|)
        decreases Uncommitted(fetched)
      {
        ghost var logged := log;
        var ends := CommitOne();
        SomeEndsStep(code, logged, log, |old(log)|, ends);
        ended := ended || ends;
      }
      forall i: nat | i < |code|
        ensures fetched[i].value == Value(eval, code, loaded, i)
      {
        Now().AllDetermined(local, events, i);
      }
    }

    method CommitOne() returns (ends: bool)
      requires Valid() && local != []
      modifies this`fetched, this`local, this`events, this`loaded, this`log
      ensures Valid() && loaded == old(loaded) && Uncommitted(fetched) < old(Uncommitted(fetched))
      ensures |log| == |old(log)| + 1 && old(log) <= log && log[|log| - 1] < |code| && ends == code[log[|log| - 1]].ends
      ensures log[|log| - 1] == old(local[|local| - 1])
    {
      var i := PopLocal();
      ends := code[i].ends;
      ghost var before := fetched;
      Commit(i, None);
      UncommittedShrinks(before, fetched, i);
    }

    method PopLocal() returns (i: nat)
      requires Valid() && local != []
      modifies this`local
      ensures Now().Valid(-1, {}) && LogValid() && i < |code| && Now().Waiting(i) && !code[i].event
      ensures Now().ListsValid(local, events, i) && old(local) == local + [i]
    {
      i := local[|local| - 1];
      ghost var was := local;
      local := local[..|local| - 1];
      assert was == local + [i];
      assert i in was;
    }

    /** An event is committed with the value that it has been given, then all that follows from it. */
    method CommitEvent(i: nat, v: V) returns (ended: bool)
      requires Valid() && i in events
      modifies this`fetched, this`local, this`events, this`loaded, this`log
      ensures Valid() && local == [] && loaded == old(loaded)[i := v] && old(log) + [i] <= log
      ensures forall k: nat :: k < |code| ==> fetched[k].value == Value(eval, code, loaded, k)
      ensures ended <==> exists k :: |old(log)| < k < |log| && log[k] < |code| && code[log[k]].ends
    {
      events := events - {i};
      assert Now().ListsValid(local, events, i);
      Commit(i, Some(v));
      ended := CommitAllLocal();
    }

    // ----- Fetching --------------------------------------------------------------------------------------

    /** `fetch`, and the entry in the work lists. */
    method Fetch(x: Instr<V>)
      requires Valid() && forall j :: 0 <= j < |x.sources| && x.sources[j].Ref? ==> x.sources[j].of < |code|
      modifies this`code, this`fetched, this`local, this`events
      ensures Valid() && code == old(code) + [x]
    {
      ghost var was := Now();
      var operands: seq<Option<V>> := [];
      var after := fetched;
      for j := 0 to |x.sources|
        invariant Now() == was && local == old(local) && events == old(events) && was.IsFetched(x, operands, after, j)
      {
        ghost var previous := after;
        match x.sources[j] {
          case Const(v) =>
            operands := operands + [Some(v)];
          case Ref(s) =>
            assert was.InstrValid(s, -1, {});
            operands := operands + [after[s].value];
            if !after[s].committed {
              after := after[s := after[s].(dependents := after[s].dependents + {Dependent(|code|, j)})];
            }
        }
        NextOperand(was, x, operands, previous, after, j);
      }
      code, fetched := code + [x], after + [Fetched(operands, {}, None, false)];
      FetchIsValid(was, x, operands, after);
      Enlist(was);
    }

    /** The last part of `fetchAll` for one instruction: it may be committable at once. */
    method Enlist(ghost was: State<V>)
      requires FetchedOneMore(was, Now(), local, events) && Now().Valid(-1, {}) && LogValid() && !fetched[|code| - 1].committed
      modifies this`local, this`events
      ensures Valid()
    {
      ghost var localWas, eventsWere := local, events;
      var ready := IsCommittable(|code| - 1);
      if ready {
        if code[|code| - 1].event {
          events := events + {|code| - 1};
        } else {
          local := local + [|code| - 1];
        }
      }
      ListsAfterFetch(was, Now(), localWas, eventsWere, local, events);
    }

    /** `fetchAll`: fetching goes on until it has to wait for an instruction. */
    method FetchAll(next: seq<Instr<V>>) returns (n: nat)
      requires Valid()
      requires forall k, j :: 0 <= k < |next| && 0 <= j < |next[k].sources| && next[k].sources[j].Ref? ==>
        next[k].sources[j].of < |code| + k
      modifies this`code, this`fetched, this`local, this`events
      ensures Valid() && n <= |next| && code == old(code) + next[..n]
      ensures forall k :: 0 <= k < n - 1 ==> !next[k].ends
      ensures n == |next| || (n > 0 && next[n - 1].ends)
    {
      n := 0;
      while n < |next|
        invariant Valid() && n <= |next| && code == old(code) + next[..n] && forall k :: 0 <= k < n ==> !next[k].ends
      {
        Fetch(next[n]);
        n := n + 1;
        if next[n - 1].ends {
          return;
        }
      }
    }
  }

  /** What `fetch` does about operand `j`. */
  ghost predicate Noted<V(!new)>(s: State<V>, source: Source<V>, operand: Option<V>, previous: seq<Fetched<V>>, after: seq<Fetched<V>>, j: nat) {
    match source
    case Const(v) => operand == Some(v) && after == previous
    case Ref(k) =>
      && k < |previous| && operand == previous[k].value
      && after == (if previous[k].committed then previous
                   else previous[k := previous[k].(dependents := previous[k].dependents + {Dependent(|s.fetched|, j)})])
  }

  lemma NextOperand<V(!new)>(s: State<V>, x: Instr<V>, operands: seq<Option<V>>, previous: seq<Fetched<V>>, after: seq<Fetched<V>>, j: nat)
    requires j < |x.sources| && |operands| == j + 1 && s.IsFetched(x, operands[..j], previous, j)
    requires Noted(s, x.sources[j], operands[j], previous, after, j)
    ensures s.IsFetched(x, operands, after, j + 1)
  {
    var before := operands[..j];
    assert forall l :: 0 <= l < j ==> operands[l] == before[l];
    forall k, d | 0 <= k < |s.fetched|
      ensures d in after[k].dependents <==> d in s.fetched[k].dependents || s.NewDependent(x, k, j + 1, d)
    {
      assert d in previous[k].dependents <==> d in s.fetched[k].dependents || s.NewDependent(x, k, j, d);
      assert d == Dependent(d.fi, d.op);
    }
  }

  lemma FetchIsValid<V(!new)>(s: State<V>, x: Instr<V>, operands: seq<Option<V>>, after: seq<Fetched<V>>)
    requires s.Valid(-1, {}) && s.IsFetched(x, operands, after, |x.sources|)
    ensures State(s.eval, s.code + [x], after + [Fetched(operands, {}, None, false)], s.loaded).Valid(-1, {})
  {
    forall k: nat | k <= |s.code|
      ensures State(s.eval, s.code + [x], after + [Fetched(operands, {}, None, false)], s.loaded).InstrValid(k, -1, {})
    {
      s.FetchKeepsInstr(x, operands, after, k);
    }
  }
}
