/**
 * src/LoopUnrollPass.cpp: a loop is replaced by a number of copies of its body, each of which leads to the
 * next one instead of back to its own header.
 *
 * Blocks and values have names; the copy number tells the clones from the original, which is copy 0.
 */
module LoopUnroll {
  import opened Programs

  // ----- The transformation ------------------------------------------------------------------------------

  /** `blocks` and `values` are what the loop consists of and what it defines. */
  datatype Loop = Loop(header: int, blocks: set<int>, values: set<int>, depth: nat)
  {
    /** `VMaps[c]`, which is empty for the original. */
    function Renamed(c: nat, n: Name): Name {
      if n.base in values && c != 0 then Name(n.base, c) else n
    }

    function RenamedOp<V>(c: nat, o: Operand<V>): Operand<V> {
      match o
      case Const(_) => o
      case Use(n) => Use(Renamed(c, n))
    }

    function RenamedOps<V>(c: nat, args: seq<Operand<V>>): seq<Operand<V>> {
      seq(|args|, i requires 0 <= i < |args| => RenamedOp(c, args[i]))
    }

    /** Where version `c` of a block goes instead of to `t`. */
    function Target(c: nat, t: Name): Name {
      if t.base !in blocks then t
      else if t.base != header then Name(t.base, c)
      else if c + 1 < depth then Name(header, c + 1)
      else DIVERGE
    }

    function Targets(c: nat, succs: seq<Name>): seq<Name> {
      seq(|succs|, i requires 0 <= i < |succs| => Target(c, succs[i]))
    }

    /** What becomes of an entry of a PHI node in version `c` of block `b`. */
    function Entries<V>(b: int, c: nat, e: Entry<V>): seq<Entry<V>> {
      if e.pred.base in blocks then
        if b != header then [Entry(Name(e.pred.base, c), RenamedOp(c, e.value))]
        else if c == 0 then []
        else [Entry(Name(e.pred.base, c - 1), RenamedOp(c - 1, e.value))]
      else if c == 0 then [e]
      else []
    }

    function Incoming<V>(b: int, c: nat, incoming: seq<Entry<V>>): seq<Entry<V>> {
      if incoming == [] then [] else Entries(b, c, incoming[0]) + Incoming(b, c, incoming[1..])
    }

    function VersionPhi<V>(b: int, c: nat, phi: Phi<V>): Phi<V> {
      Phi(Renamed(c, phi.dest), Incoming(b, c, phi.incoming))
    }

    function VersionInstr<V>(c: nat, i: Instr<V>): Instr<V> {
      Instr(Renamed(c, i.dest), i.op, RenamedOps(c, i.args))
    }

    function VersionPhis<V>(b: int, c: nat, phis: seq<Phi<V>>): seq<Phi<V>> {
      seq(|phis|, i requires 0 <= i < |phis| => VersionPhi(b, c, phis[i]))
    }

    function VersionBody<V>(c: nat, body: seq<Instr<V>>): seq<Instr<V>> {
      seq(|body|, i requires 0 <= i < |body| => VersionInstr(c, body[i]))
    }

    /** Version `c` of block `b`. */
    function Version<V>(b: int, c: nat, block: Block<V>): Block<V> {
      Block(VersionPhis(b, c, block.phis), VersionBody(c, block.body), block.op, RenamedOps(c, block.args), Targets(c, block.succs))
    }

    /** The entries of a PHI node in an exit block that come from the loop, for version `c`. */
    function FromVersion<V>(c: nat, incoming: seq<Entry<V>>): seq<Entry<V>> {
      if incoming == [] then []
      else
        (if incoming[0].pred.base in blocks then [Entry(Name(incoming[0].pred.base, c), RenamedOp(c, incoming[0].value))] else [])
        + FromVersion(c, incoming[1..])
    }

    /** The entries that come from the loop. */
    function FromLoop<V>(incoming: seq<Entry<V>>): seq<Entry<V>> {
      if incoming == [] then []
      else
        var n := |incoming| - 1;
        FromLoop(incoming[..n]) + if incoming[n].pred.base in blocks then [incoming[n]] else []
    }

    function OfVersion<V>(c: nat, incoming: seq<Entry<V>>): seq<Entry<V>> {
      if incoming == [] then []
      else
        var n := |incoming| - 1;
        OfVersion(c, incoming[..n]) + [Entry(Name(incoming[n].pred.base, c), RenamedOp(c, incoming[n].value))]
    }

    /** The entries for versions from 1 up to `n`. */
    function FromVersions<V>(n: nat, incoming: seq<Entry<V>>): seq<Entry<V>> {
      if n <= 1 then [] else FromVersions(n - 1, incoming) + FromVersion(n - 1, incoming)
    }

    function FixedPhi<V>(phi: Phi<V>): Phi<V> {
      Phi(phi.dest, phi.incoming + FromVersions(depth, phi.incoming))
    }

    function FixedPhis<V>(phis: seq<Phi<V>>): seq<Phi<V>> {
      seq(|phis|, i requires 0 <= i < |phis| => FixedPhi(phis[i]))
    }

    function FixedExit<V>(block: Block<V>): Block<V> {
      block.(phis := FixedPhis(block.phis))
    }

    ghost predicate IsExit<V>(f: Program<V>, n: Name) {
      n.base !in blocks && exists b, k :: b in blocks && Name(b, 0) in f && 0 <= k < |f[Name(b, 0)].succs| && f[Name(b, 0)].succs[k] == n
    }

    /** What the pass makes of the program. */
    ghost predicate IsUnrolled<V>(f: Program<V>, g: Program<V>) {
      && (forall b, c: nat {:trigger Name(b, c)} :: b in blocks && c < depth && Name(b, 0) in f ==>
            Name(b, c) in g && g[Name(b, c)] == Version(b, c, f[Name(b, 0)]))
      && (forall n {:trigger n in g} :: n in f && n.base !in blocks ==>
            n in g && g[n] == if IsExit(f, n) then FixedExit(f[n]) else f[n])
      && (forall n {:trigger n in g} :: n in g && n != DIVERGE && n.base !in blocks ==> n in f)
    }
  }

  // ----- What is assumed of the program ------------------------------------------------------------------

  function PhiDests<V>(phis: seq<Phi<V>>): set<int> {
    set k | 0 <= k < |phis| :: phis[k].dest.base
  }

  function BodyDests<V>(body: seq<Instr<V>>, n: nat): set<int>
    requires n <= |body|
  {
    set k | 0 <= k < n :: body[k].dest.base
  }

  /** `available` are the values of the loop that are defined, in the same iteration, whenever a block is entered. */
  datatype Source<V> = Source(f: Program<V>, loop: Loop, available: map<int, set<int>>)
  {
    ghost predicate HasBlock(b: int) {
      b in loop.blocks && Name(b, 0) in f && b in available
    }

    function Code(b: int): Block<V>
      requires Name(b, 0) in f
    {
      f[Name(b, 0)]
    }

    /** The values defined when control leaves the block. */
    ghost function Out(b: int): set<int>
      requires HasBlock(b)
    {
      available[b] + PhiDests(Code(b).phis) + BodyDests(Code(b).body, |Code(b).body|)
    }

    /** The operand is a constant, a value from outside the loop, or one of the given values. */
    predicate OpValid(o: Operand<V>, S: set<int>) {
      o.Use? ==> o.name.copy == 0 && (o.name.base in loop.values ==> o.name.base in S)
    }

    predicate OpsValid(args: seq<Operand<V>>, S: set<int>) {
      forall i :: 0 <= i < |args| ==> OpValid(args[i], S)
    }

    /** What comes from a block of the loop may use what is defined there. */
    ghost predicate EntryValid(e: Entry<V>) {
      && e.pred.copy == 0
      && (e.pred.base in loop.blocks ==> HasBlock(e.pred.base) && OpValid(e.value, Out(e.pred.base)))
      && (e.pred.base !in loop.blocks ==> OpValid(e.value, {}))
    }

    ghost predicate PhisValid(phis: seq<Phi<V>>, inside: bool) {
      forall k :: 0 <= k < |phis| ==>
        && phis[k].dest.copy == 0 && (phis[k].dest.base in loop.values <==> inside)
        && forall j :: 0 <= j < |phis[k].incoming| ==> EntryValid(phis[k].incoming[j])
    }

    predicate BodyValid(body: seq<Instr<V>>, inside: bool, S: set<int>) {
      forall k :: 0 <= k < |body| ==>
        && body[k].dest.copy == 0 && (body[k].dest.base in loop.values <==> inside)
        && OpsValid(body[k].args, S + if inside then BodyDests(body, k) else {})
    }

    /** A block of the loop uses values of the loop that have been defined in the same iteration. */
    ghost predicate InsideValid(b: int)
      requires HasBlock(b)
    {
      var c := Code(b);
      && PhisValid(c.phis, true) && BodyValid(c.body, true, available[b] + PhiDests(c.phis)) && OpsValid(c.args, Out(b))
      && forall k :: 0 <= k < |c.succs| ==>
           && c.succs[k].copy == 0 && c.succs[k] != DIVERGE
           && (c.succs[k].base in loop.blocks && c.succs[k].base != loop.header ==>
                 HasBlock(c.succs[k].base) && available[c.succs[k].base] <= Out(b))
    }

    /** Other blocks use values of the loop only in PHI nodes, and enter the loop only at its header. */
    ghost predicate OutsideValid(n: Name)
      requires n in f
    {
      var c := f[n];
      && n.copy == 0 && n != DIVERGE
      && PhisValid(c.phis, false) && BodyValid(c.body, false, {}) && OpsValid(c.args, {})
      && forall k :: 0 <= k < |c.succs| ==>
           c.succs[k].copy == 0 && c.succs[k] != DIVERGE && (c.succs[k].base in loop.blocks ==> c.succs[k].base == loop.header)
    }

    ghost predicate Valid() {
      && loop.depth >= 1 && loop.header in loop.blocks && DIVERGE.base !in loop.blocks
      && (forall b {:trigger HasBlock(b)} :: b in loop.blocks ==> HasBlock(b) && InsideValid(b))
      && HasBlock(loop.header) && available[loop.header] == {}
      && (forall n {:trigger OutsideValid(n)} :: n in f && n.base !in loop.blocks ==> OutsideValid(n))
      && (forall n :: n in f && n.base in loop.blocks ==> n.copy == 0)
    }

    // ----- Agreement of values ---------------------------------------------------------------------------

    /** Copy `c` of the values in `S`, and everything outside the loop, is as in the original. */
    ghost predicate Agree<M>(m: Machine<V, M>, env: Env<V>, env': Env<V>, S: set<int>, c: nat) {
      && (forall x {:trigger Name(x, 0)} {:trigger Name(x, c)} ::
            x in S && x in loop.values ==> Val(m, env', Name(x, c)) == Val(m, env, Name(x, 0)))
      && (forall x {:trigger Name(x, 0)} :: x !in loop.values ==> Val(m, env', Name(x, 0)) == Val(m, env, Name(x, 0)))
    }

    lemma ReadAgrees<M>(m: Machine<V, M>, env: Env<V>, env': Env<V>, S: set<int>, c: nat, o: Operand<V>)
      requires Agree(m, env, env', S, c) && OpValid(o, S)
      ensures Read(m, env', loop.RenamedOp(c, o)) == Read(m, env, o)
    {
      if o.Use? {
        assert o.name == Name(o.name.base, 0);
      }
    }

    lemma ReadAllAgrees<M>(m: Machine<V, M>, env: Env<V>, env': Env<V>, S: set<int>, c: nat, args: seq<Operand<V>>)
      requires Agree(m, env, env', S, c) && OpsValid(args, S)
      ensures ReadAll(m, env', loop.RenamedOps(c, args)) == ReadAll(m, env, args)
    {
      forall i | 0 <= i < |args|
        ensures ReadAll(m, env', loop.RenamedOps(c, args))[i] == ReadAll(m, env, args)[i]
      {
        ReadAgrees(m, env, env', S, c, args[i]);
      }
    }

    lemma AssignAgrees<M>(m: Machine<V, M>, env: Env<V>, env': Env<V>, S: set<int>, c: nat, dest: Name, v: V)
      requires Agree(m, env, env', S, c) && dest.copy == 0 && (c != 0 ==> dest.base in loop.values)
      ensures Agree(m, env[dest := v], env'[loop.Renamed(c, dest) := v], S + {dest.base}, c)
    {
    }

    // ----- PHI nodes of the loop -------------------------------------------------------------------------

    /** Where the copy comes from, when the original comes from `from` to block `b` in version `c`. */
    ghost predicate ComesFrom(b: int, c: nat, from: Name, from': Name) {
      && from.copy == 0
      && if from.base !in loop.blocks then b == loop.header && c == 0 && from' == from
         else if b == loop.header then c > 0 && from' == Name(from.base, c - 1)
         else from' == Name(from.base, c)
    }

    /** The version that the values of the predecessor belong to. */
    function FromCopy(b: int, c: nat, from: Name): nat {
      if from.base in loop.blocks && b == loop.header && c > 0 then c - 1 else c
    }

    ghost function Defined(from: Name): set<int>
      requires from.base in loop.blocks ==> HasBlock(from.base)
    {
      if from.base in loop.blocks then Out(from.base) else {}
    }

    lemma {:induction false} PhiAgrees<M>(m: Machine<V, M>, env: Env<V>, env': Env<V>, b: int, c: nat, from: Name, from': Name,
                                          incoming: seq<Entry<V>>)
      requires ComesFrom(b, c, from, from') && (from.base in loop.blocks ==> HasBlock(from.base))
      requires Agree(m, env, env', Defined(from), FromCopy(b, c, from))
      requires forall j :: 0 <= j < |incoming| ==> EntryValid(incoming[j])
      ensures PhiValue(m, env', loop.Incoming(b, c, incoming), from') == PhiValue(m, env, incoming, from)
    {
      if incoming != [] {
        var e, rest := incoming[0], incoming[1..];
        PhiAgrees(m, env, env', b, c, from, from', rest);
        var es := loop.Entries(b, c, e);
        assert (es + loop.Incoming(b, c, rest))[|es|..] == loop.Incoming(b, c, rest);
        assert EntryValid(e);
        if e.pred == from {
          ReadAgrees(m, env, env', Defined(from), FromCopy(b, c, from), e.value);
        }
        if es == [] {
          assert es + loop.Incoming(b, c, rest) == loop.Incoming(b, c, rest);
        }
      }
    }

    lemma {:induction false} PhisAgree<M>(m: Machine<V, M>, env: Env<V>, env': Env<V>, b: int, c: nat, from: Name, from': Name,
                                          phis: seq<Phi<V>>, n: nat, S: set<int>)
      requires ComesFrom(b, c, from, from') && (from.base in loop.blocks ==> HasBlock(from.base)) && n <= |phis|
      requires Agree(m, env, env', Defined(from), FromCopy(b, c, from)) && Agree(m, env, env', S, c) && PhisValid(phis, true)
      ensures var phis' := loop.VersionPhis(b, c, phis);
        Agree(m, EnterPhis(m, env, phis, n, from), EnterPhis(m, env', phis', n, from'), S + PhiDests(phis[..n]), c)
    {
      if n == 0 {
        assert S + PhiDests(phis[..0]) == S;
      } else {
        PhisAgree(m, env, env', b, c, from, from', phis, n - 1, S);
        var phis' := loop.VersionPhis(b, c, phis);
        var e, e' := EnterPhis(m, env, phis, n - 1, from), EnterPhis(m, env', phis', n - 1, from');
        NextPhiAgrees(m, env, env', b, c, from, from', phis[n - 1], e, e', S + PhiDests(phis[..n - 1]));
        PhiDestsStep(phis, n);
        assert S + PhiDests(phis[..n]) == S + PhiDests(phis[..n - 1]) + {phis[n - 1].dest.base};
      }
    }

    lemma NextPhiAgrees<M>(m: Machine<V, M>, env: Env<V>, env': Env<V>, b: int, c: nat, from: Name, from': Name, phi: Phi<V>,
                           e: Env<V>, e': Env<V>, S: set<int>)
      requires ComesFrom(b, c, from, from') && (from.base in loop.blocks ==> HasBlock(from.base))
      requires Agree(m, env, env', Defined(from), FromCopy(b, c, from)) && Agree(m, e, e', S, c) && PhisValid([phi], true)
      ensures var phi' := loop.VersionPhi(b, c, phi);
        Agree(m, e[phi.dest := PhiValue(m, env, phi.incoming, from)], e'[phi'.dest := PhiValue(m, env', phi'.incoming, from')],
              S + {phi.dest.base}, c)
    {
      assert [phi][0] == phi;
      PhiAgrees(m, env, env', b, c, from, from', phi.incoming);
      AssignAgrees(m, e, e', S, c, phi.dest, PhiValue(m, env, phi.incoming, from));
    }

    // ----- Instructions ----------------------------------------------------------------------------------

    /** The values of the loop that are known after `n` instructions. */
    ghost function KnownAfter(S: set<int>, body: seq<Instr<V>>, n: nat, inside: bool): set<int>
      requires n <= |body|
    {
      if inside then S + BodyDests(body, n) else S
    }

    ghost predicate LocalsAgree<M>(m: Machine<V, M>, l: Local<V, M>, l': Local<V, M>, S: set<int>, c: nat) {
      l'.mem == l.mem && Agree(m, l.env, l'.env, S, c)
    }

    lemma InstrAgrees<M>(m: Machine<V, M>, i: Instr<V>, l: Local<V, M>, l': Local<V, M>, S: set<int>, c: nat)
      requires LocalsAgree(m, l, l', S, c) && OpsValid(i.args, S) && i.dest.copy == 0 && (c != 0 ==> i.dest.base in loop.values)
      ensures LocalsAgree(m, Execute(m, i, l), Execute(m, loop.VersionInstr(c, i), l'), S + {i.dest.base}, c)
    {
      ReadAllAgrees(m, l.env, l'.env, S, c, i.args);
      AssignAgrees(m, l.env, l'.env, S, c, i.dest, m.exec(i.op, ReadAll(m, l.env, i.args), l.mem).0);
    }

    lemma FewerAgree<M>(m: Machine<V, M>, l: Local<V, M>, l': Local<V, M>, S: set<int>, T: set<int>, c: nat)
      requires LocalsAgree(m, l, l', S, c) && T <= S
      ensures LocalsAgree(m, l, l', T, c)
    {
    }

    lemma BodyInstr(body: seq<Instr<V>>, inside: bool, S: set<int>, n: nat)
      requires n < |body| && BodyValid(body, inside, S)
      ensures OpsValid(body[n].args, KnownAfter(S, body, n, inside))
      ensures body[n].dest.copy == 0 && (inside ==> body[n].dest.base in loop.values)
      ensures KnownAfter(S, body, n + 1, inside) <= KnownAfter(S, body, n, inside) + {body[n].dest.base}
    {
      assert S + {} == S;
    }

    lemma {:induction false} BodyAgrees<M>(m: Machine<V, M>, body: seq<Instr<V>>, n: nat, l: Local<V, M>, l': Local<V, M>, S: set<int>,
                                           c: nat, inside: bool)
      requires n <= |body| && LocalsAgree(m, l, l', S, c) && BodyValid(body, inside, S) && (c != 0 ==> inside)
      ensures LocalsAgree(m, RunBody(m, body, n, l), RunBody(m, loop.VersionBody(c, body), n, l'), KnownAfter(S, body, n, inside), c)
    {
      if n == 0 {
        assert KnownAfter(S, body, n, inside) == S;
      } else {
        BodyAgrees(m, body, n - 1, l, l', S, c, inside);
        var body' := loop.VersionBody(c, body);
        var k, k' := RunBody(m, body, n - 1, l), RunBody(m, body', n - 1, l');
        BodyStep(m, body, n - 1, k, k', S, c, inside);
        RunStep(m, body, n, l);
        RunStep(m, body', n, l');
      }
    }

    lemma BodyStep<M>(m: Machine<V, M>, body: seq<Instr<V>>, n: nat, k: Local<V, M>, k': Local<V, M>, S: set<int>, c: nat, inside: bool)
      requires n < |body| && BodyValid(body, inside, S) && (c != 0 ==> inside) && LocalsAgree(m, k, k', KnownAfter(S, body, n, inside), c)
      ensures LocalsAgree(m, Execute(m, body[n], k), Execute(m, loop.VersionBody(c, body)[n], k'), KnownAfter(S, body, n + 1, inside), c)
    {
      var i, before := body[n], KnownAfter(S, body, n, inside);
      BodyInstr(body, inside, S, n);
      InstrAgrees(m, i, k, k', before, c);
      FewerAgree(m, Execute(m, i, k), Execute(m, loop.VersionInstr(c, i), k'), before + {i.dest.base}, KnownAfter(S, body, n + 1, inside), c);
    }

    // ----- PHI nodes outside the loop --------------------------------------------------------------------

    lemma {:induction false} FromVersionValue<M>(m: Machine<V, M>, env: Env<V>, env': Env<V>, incoming: seq<Entry<V>>, from: Name, k: nat)
      requires from.copy == 0 && from.base in loop.blocks && HasBlock(from.base) && Agree(m, env, env', Out(from.base), k)
      requires forall j :: 0 <= j < |incoming| ==> EntryValid(incoming[j])
      ensures PhiValue(m, env', loop.FromVersion(k, incoming), Name(from.base, k)) == PhiValue(m, env, incoming, from)
    {
      if incoming != [] {
        var e, rest := incoming[0], incoming[1..];
        FromVersionValue(m, env, env', rest, from, k);
        assert EntryValid(e);
        if e.pred.base in loop.blocks {
          var first := [Entry(Name(e.pred.base, k), loop.RenamedOp(k, e.value))];
          assert loop.FromVersion(k, incoming) == first + loop.FromVersion(k, rest);
          assert (first + loop.FromVersion(k, rest))[1..] == loop.FromVersion(k, rest);
          if e.pred == from {
            ReadAgrees(m, env, env', Out(from.base), k, e.value);
          }
        } else {
          assert loop.FromVersion(k, incoming) == [] + loop.FromVersion(k, rest) == loop.FromVersion(k, rest);
        }
      }
    }

    lemma {:induction false} FromVersionEntries(incoming: seq<Entry<V>>, k: nat)
      ensures forall e :: e in loop.FromVersion(k, incoming) ==> e.pred.copy == k && e.pred.base in loop.blocks
    {
      if incoming != [] {
        FromVersionEntries(incoming[1..], k);
      }
    }

    lemma {:induction false} FromVersionsEntries(incoming: seq<Entry<V>>, n: nat)
      ensures forall e :: e in loop.FromVersions(n, incoming) ==> 1 <= e.pred.copy < n && e.pred.base in loop.blocks
    {
      if n > 1 {
        FromVersionsEntries(incoming, n - 1);
        FromVersionEntries(incoming, n - 1);
      }
    }

    lemma {:induction false} FromVersionsValue<M>(m: Machine<V, M>, env: Env<V>, incoming: seq<Entry<V>>, from: Name, n: nat)
      requires 1 <= from.copy < n
      ensures PhiValue(m, env, loop.FromVersions(n, incoming), from) == PhiValue(m, env, loop.FromVersion(from.copy, incoming), from)
    {
      var a, b := loop.FromVersions(n - 1, incoming), loop.FromVersion(n - 1, incoming);
      FromVersionsEntries(incoming, n - 1);
      FromVersionEntries(incoming, n - 1);
      OneSide(m, env, a, b, from, from.copy < n - 1);
      if from.copy < n - 1 {
        FromVersionsValue(m, env, incoming, from, n - 1);
      }
    }

    /** Where the unrolled program comes from, when the original comes to a block outside the loop. */
    ghost predicate LeavesFrom(k: nat, from: Name, from': Name) {
      from.copy == 0 && k < loop.depth && from' == if from.base in loop.blocks then Name(from.base, k) else from
    }

    lemma {:induction false} PlainPhiAgrees<M>(m: Machine<V, M>, env: Env<V>, env': Env<V>, incoming: seq<Entry<V>>, from: Name)
      requires (from.base in loop.blocks ==> HasBlock(from.base)) && Agree(m, env, env', Defined(from), 0)
      requires forall j :: 0 <= j < |incoming| ==> EntryValid(incoming[j])
      ensures PhiValue(m, env', incoming, from) == PhiValue(m, env, incoming, from)
    {
      if incoming != [] {
        var e := incoming[0];
        assert EntryValid(e);
        PlainPhiAgrees(m, env, env', incoming[1..], from);
        if e.pred == from {
          ReadAgrees(m, env, env', Defined(from), 0, e.value);
          assert loop.RenamedOp(0, e.value) == e.value;
        }
      }
    }

    lemma OutsideAgrees<M>(m: Machine<V, M>, env: Env<V>, env': Env<V>, k: nat)
      requires Agree(m, env, env', {}, k)
      ensures Agree(m, env, env', {}, 0)
    {
    }

    lemma FixedPhiAgrees<M>(m: Machine<V, M>, env: Env<V>, env': Env<V>, incoming: seq<Entry<V>>, k: nat, from: Name, from': Name)
      requires LeavesFrom(k, from, from') && (from.base in loop.blocks ==> HasBlock(from.base))
      requires Agree(m, env, env', Defined(from), k)
      requires forall j :: 0 <= j < |incoming| ==> EntryValid(incoming[j])
      ensures PhiValue(m, env', incoming + loop.FromVersions(loop.depth, incoming), from') == PhiValue(m, env, incoming, from)
    {
      var added := loop.FromVersions(loop.depth, incoming);
      FromVersionsEntries(incoming, loop.depth);
      PhiConcat(m, env', incoming, added, from');
      if from.base in loop.blocks && k > 0 {
        assert NoEntry(incoming, from') by {
          forall j | 0 <= j < |incoming| ensures incoming[j].pred != from' { assert EntryValid(incoming[j]); }
        }
        FromVersionsValue(m, env', incoming, from', loop.depth);
        FromVersionValue(m, env, env', incoming, from, k);
      } else {
        if from.base !in loop.blocks { OutsideAgrees(m, env, env', k); }
        PlainPhiAgrees(m, env, env', incoming, from);
        assert NoEntry(added, from');
        NoEntryMeansUndef(m, env', added, from');
        if NoEntry(incoming, from') { NoEntryMeansUndef(m, env', incoming, from'); }
      }
    }

    function ExitPhis(phis: seq<Phi<V>>, exit: bool): seq<Phi<V>> {
      if exit then loop.FixedPhis(phis) else phis
    }

    /** Entering a block outside the loop; an exit block has its PHI nodes fixed. */
    lemma {:induction false} ExitPhisAgree<M>(m: Machine<V, M>, env: Env<V>, env': Env<V>, phis: seq<Phi<V>>, n: nat,
                                              k: nat, from: Name, from': Name, exit: bool)
      requires LeavesFrom(k, from, from') && (from.base in loop.blocks ==> HasBlock(from.base) && exit) && n <= |phis|
      requires Agree(m, env, env', Defined(from), k) && PhisValid(phis, false)
      ensures Agree(m, EnterPhis(m, env, phis, n, from), EnterPhis(m, env', ExitPhis(phis, exit), n, from'), {}, 0)
    {
      if n == 0 {
        OutsideAgrees(m, env, env', k);
      } else {
        ExitPhisAgree(m, env, env', phis, n - 1, k, from, from', exit);
        var e, e' := EnterPhis(m, env, phis, n - 1, from), EnterPhis(m, env', ExitPhis(phis, exit), n - 1, from');
        ExitPhiAgrees(m, env, env', phis, n - 1, k, from, from', exit);
        AssignAgrees(m, e, e', {}, 0, phis[n - 1].dest, PhiValue(m, env, phis[n - 1].incoming, from));
      }
    }

    lemma ExitPhiAgrees<M>(m: Machine<V, M>, env: Env<V>, env': Env<V>, phis: seq<Phi<V>>, n: nat, k: nat, from: Name, from': Name, exit: bool)
      requires LeavesFrom(k, from, from') && (from.base in loop.blocks ==> HasBlock(from.base) && exit) && n < |phis|
      requires Agree(m, env, env', Defined(from), k) && PhisValid(phis, false)
      ensures ExitPhis(phis, exit)[n].dest == phis[n].dest
      ensures PhiValue(m, env', ExitPhis(phis, exit)[n].incoming, from') == PhiValue(m, env, phis[n].incoming, from)
    {
      if exit {
        FixedPhiAgrees(m, env, env', phis[n].incoming, k, from, from');
      } else {
        OutsideAgrees(m, env, env', k);
        PlainPhiAgrees(m, env, env', phis[n].incoming, from);
      }
    }

    // ----- Simulation ------------------------------------------------------------------------------------

    /**
     * The two programs are at the same block, in version `c` if it belongs to the loop; if not, `c` is the
     * version that the predecessor was in.  They have the same memory, and the same values as far as the
     * block may use them.
     */
    ghost predicate Related<M>(m: Machine<V, M>, s: State<V, M>, s': State<V, M>, c: nat) {
      && s.State? && s'.State? && s'.mem == s.mem && s.block.copy == 0 && s.block != DIVERGE && s.from.copy == 0 && c < loop.depth
      && (s.from.base in loop.blocks ==> HasBlock(s.from.base))
      && (if s.block.base in loop.blocks then Inside(m, s, s', c) else Outside(m, s, s', c))
    }

    ghost predicate Inside<M>(m: Machine<V, M>, s: State<V, M>, s': State<V, M>, c: nat)
      requires s.State? && s'.State? && (s.from.base in loop.blocks ==> HasBlock(s.from.base))
    {
      var b := s.block.base;
      && s'.block == Name(b, c) && ComesFrom(b, c, s.from, s'.from)
      && Agree(m, s.env, s'.env, Defined(s.from), FromCopy(b, c, s.from))
      && (b != loop.header ==> b in available && available[b] <= Defined(s.from))
    }

    ghost predicate Outside<M>(m: Machine<V, M>, s: State<V, M>, s': State<V, M>, c: nat)
      requires s.State? && s'.State? && (s.from.base in loop.blocks ==> HasBlock(s.from.base))
    {
      && s'.block == s.block && LeavesFrom(c, s.from, s'.from) && Agree(m, s.env, s'.env, Defined(s.from), c)
      && (s.from.base in loop.blocks ==> loop.IsExit(f, s.block))
    }

    /** The original enters the header once more than there are copies of the loop. */
    ghost predicate Diverged<M>(s: State<V, M>, s': State<V, M>) {
      s.State? && s'.State? && s.block == Name(loop.header, 0) && s'.block == DIVERGE && s'.mem == s.mem
    }

    ghost predicate Alike<M>(m: Machine<V, M>, s: State<V, M>, s': State<V, M>, c: nat) {
      Related(m, s, s', c) || (s.Stopped? && s' == s)
    }

    /** The version of the loop after going from block `b`, in version `c`, to block `t`. */
    function NextVersion(b: Name, c: nat, t: Name): nat {
      if b.base !in loop.blocks then 0
      else if t.base == loop.header && t.base in loop.blocks then c + 1
      else c
    }

    ghost predicate StepsAlike<M>(m: Machine<V, M>, from: Name, c: nat, t: State<V, M>, t': State<V, M>) {
      if t.Stopped? then t' == t
      else
        var d := NextVersion(from, c, t.block);
        if d == loop.depth then Diverged(t, t') else d < loop.depth && Related(m, t, t', d)
    }

    /** After the body of a block of the loop. */
    lemma InsideLeaves<M>(m: Machine<V, M>, l: Local<V, M>, l': Local<V, M>, b: int, c: nat, args: seq<V>)
      requires Valid() && b in loop.blocks && c < loop.depth && HasBlock(b) && LocalsAgree(m, l, l', Out(b), c)
      ensures StepsAlike(m, Name(b, 0), c, Leave(m, Code(b).op, args, Code(b).succs, Name(b, 0), l),
                         Leave(m, Code(b).op, args, loop.Targets(c, Code(b).succs), Name(b, c), l'))
    {
      assert InsideValid(b);
      var succs := Code(b).succs;
      var k := if |succs| == 1 then 0 else m.choose(Code(b).op, args, l.mem);
      if k < |succs| {
        var t := succs[k];
        assert t == Name(t.base, 0);
        if t.base !in loop.blocks {
          assert loop.IsExit(f, t);
        }
      }
    }

    lemma OutsideLeaves<M>(m: Machine<V, M>, l: Local<V, M>, l': Local<V, M>, n: Name, c: nat, args: seq<V>)
      requires Valid() && n in f && n.base !in loop.blocks && LocalsAgree(m, l, l', {}, 0)
      ensures StepsAlike(m, n, c, Leave(m, f[n].op, args, f[n].succs, n, l), Leave(m, f[n].op, args, f[n].succs, n, l'))
    {
      assert OutsideValid(n);
      var succs := f[n].succs;
      var k := if |succs| == 1 then 0 else m.choose(f[n].op, args, l.mem);
      if k < |succs| {
        assert succs[k] == Name(succs[k].base, 0);
      }
    }

    lemma InsideRuns<M>(m: Machine<V, M>, s: State<V, M>, s': State<V, M>, c: nat)
      requires Valid() && Related(m, s, s', c) && s.block.base in loop.blocks
      ensures HasBlock(s.block.base)
      ensures var code := Code(s.block.base); var code' := loop.Version(s.block.base, c, code);
        var l, l' := AfterBlock(m, code, s.from, Local(s.env, s.mem)), AfterBlock(m, code', s'.from, Local(s'.env, s'.mem));
        LocalsAgree(m, l, l', Out(s.block.base), c) && ReadAll(m, l'.env, code'.args) == ReadAll(m, l.env, code.args)
    {
      var b := s.block.base;
      assert HasBlock(b) && InsideValid(b);
      var code, S := Code(b), available[b];
      assert Agree(m, s.env, s'.env, S, c);
      PhisAgree(m, s.env, s'.env, b, c, s.from, s'.from, code.phis, |code.phis|, S);
      assert code.phis[..|code.phis|] == code.phis;
      var e, e' := EnterPhis(m, s.env, code.phis, |code.phis|, s.from), EnterPhis(m, s'.env, loop.VersionPhis(b, c, code.phis), |code.phis|, s'.from);
      BodyAgrees(m, code.body, |code.body|, Local(e, s.mem), Local(e', s.mem), S + PhiDests(code.phis), c, true);
      var l := RunBody(m, code.body, |code.body|, Local(e, s.mem));
      var l' := RunBody(m, loop.VersionBody(c, code.body), |code.body|, Local(e', s.mem));
      ReadAllAgrees(m, l.env, l'.env, Out(b), c, code.args);
    }

    function ExitCode(code: Block<V>, exit: bool): Block<V> {
      if exit then loop.FixedExit(code) else code
    }

    lemma OutsideRuns<M>(m: Machine<V, M>, s: State<V, M>, s': State<V, M>, c: nat, exit: bool)
      requires Valid() && Related(m, s, s', c) && s.block.base !in loop.blocks && s.block in f
      requires exit == loop.IsExit(f, s.block)
      ensures var code := f[s.block]; var code' := ExitCode(code, exit);
        var l, l' := AfterBlock(m, code, s.from, Local(s.env, s.mem)), AfterBlock(m, code', s'.from, Local(s'.env, s'.mem));
        LocalsAgree(m, l, l', {}, 0) && ReadAll(m, l'.env, code'.args) == ReadAll(m, l.env, code.args)
    {
      assert OutsideValid(s.block);
      var code := f[s.block];
      ExitPhisAgree(m, s.env, s'.env, code.phis, |code.phis|, c, s.from, s'.from, exit);
      var e, e' := EnterPhis(m, s.env, code.phis, |code.phis|, s.from), EnterPhis(m, s'.env, ExitPhis(code.phis, exit), |code.phis|, s'.from);
      BodyAgrees(m, code.body, |code.body|, Local(e, s.mem), Local(e', s.mem), {}, 0, false);
      Unchanged(code.body, code.args);
      var l := RunBody(m, code.body, |code.body|, Local(e, s.mem));
      var l' := RunBody(m, code.body, |code.body|, Local(e', s.mem));
      ReadAllAgrees(m, l.env, l'.env, {}, 0, code.args);
    }

    /** Version 0 renames nothing. */
    lemma Unchanged(body: seq<Instr<V>>, args: seq<Operand<V>>)
      ensures loop.VersionBody(0, body) == body && loop.RenamedOps(0, args) == args
    {
      forall args: seq<Operand<V>>
        ensures loop.RenamedOps(0, args) == args
      {
        assert forall i :: 0 <= i < |args| ==> loop.RenamedOp(0, args[i]) == args[i];
      }
      assert forall i :: 0 <= i < |body| ==> loop.VersionInstr(0, body[i]) == body[i];
    }

    lemma InsideSteps<M>(g: Program<V>, m: Machine<V, M>, s: State<V, M>, s': State<V, M>, c: nat)
      requires Valid() && loop.IsUnrolled(f, g) && Related(m, s, s', c) && s.block.base in loop.blocks
      ensures StepsAlike(m, s.block, c, Step(f, m, s), Step(g, m, s'))
    {
      var b := s.block.base;
      InsideRuns(m, s, s', c);
      var code, code' := Code(b), loop.Version(b, c, Code(b));
      assert s.block == Name(b, 0) && s'.block in g && g[s'.block] == code';
      var l, l' := AfterBlock(m, code, s.from, Local(s.env, s.mem)), AfterBlock(m, code', s'.from, Local(s'.env, s'.mem));
      InsideLeaves(m, l, l', b, c, ReadAll(m, l.env, code.args));
    }

    lemma OutsideSteps<M>(g: Program<V>, m: Machine<V, M>, s: State<V, M>, s': State<V, M>, c: nat)
      requires Valid() && loop.IsUnrolled(f, g) && Related(m, s, s', c) && s.block.base !in loop.blocks
      ensures StepsAlike(m, s.block, c, Step(f, m, s), Step(g, m, s'))
    {
      if s.block in f {
        var exit := loop.IsExit(f, s.block);
        OutsideRuns(m, s, s', c, exit);
        var code, code' := f[s.block], ExitCode(f[s.block], exit);
        assert s'.block in g && g[s'.block] == code';
        var l, l' := AfterBlock(m, code, s.from, Local(s.env, s.mem)), AfterBlock(m, code', s'.from, Local(s'.env, s'.mem));
        OutsideLeaves(m, l, l', s.block, c, ReadAll(m, l.env, code.args));
      }
    }

    /** One block in each program. */
    lemma StepRelates<M>(g: Program<V>, m: Machine<V, M>, s: State<V, M>, s': State<V, M>, c: nat)
      requires Valid() && loop.IsUnrolled(f, g) && Related(m, s, s', c)
      ensures StepsAlike(m, s.block, c, Step(f, m, s), Step(g, m, s'))
    {
      if s.block.base in loop.blocks {
        InsideSteps(g, m, s, s', c);
      } else {
        OutsideSteps(g, m, s, s', c);
      }
    }

    /** How often the original has gone back to the header since it entered the loop, after `n` blocks. */
    function Iteration<M>(m: Machine<V, M>, s: State<V, M>, c: nat, n: nat): nat {
      if n == 0 then c else
        var t, u := Run(f, m, s, n - 1), Run(f, m, s, n);
        if t.Stopped? || u.Stopped? then 0 else NextVersion(t.block, Iteration(m, s, c, n - 1), u.block)
    }

    /** The original has not yet entered the header more often than there are copies of the loop. */
    ghost predicate WithinBound<M>(m: Machine<V, M>, s: State<V, M>, c: nat, n: nat) {
      forall j: nat :: j <= n ==> Iteration(m, s, c, j) < loop.depth
    }

    /** Within the bound, the unrolled program does what the original does, block by block. */
    lemma {:induction false} Simulates<M>(g: Program<V>, m: Machine<V, M>, s: State<V, M>, s': State<V, M>, c: nat, n: nat)
      requires Valid() && loop.IsUnrolled(f, g) && Related(m, s, s', c) && WithinBound(m, s, c, n)
      ensures Alike(m, Run(f, m, s, n), Run(g, m, s', n), Iteration(m, s, c, n))
    {
      if n > 0 {
        Simulates(g, m, s, s', c, n - 1);
        var t, t' := Run(f, m, s, n - 1), Run(g, m, s', n - 1);
        if t.State? {
          StepRelates(g, m, t, t', Iteration(m, s, c, n - 1));
        }
        assert Iteration(m, s, c, n) < loop.depth;
      }
    }

    lemma IterationStep<M>(m: Machine<V, M>, s: State<V, M>, c: nat, n: nat)
      requires n > 0 && Iteration(m, s, c, n) > 0
      ensures var t, u := Run(f, m, s, n - 1), Run(f, m, s, n);
        t.State? && u == Step(f, m, t) && u.State? && Iteration(m, s, c, n) == NextVersion(t.block, Iteration(m, s, c, n - 1), u.block)
    {
    }

    lemma AlikeStep<M>(g: Program<V>, m: Machine<V, M>, t: State<V, M>, t': State<V, M>, c: nat)
      requires Valid() && loop.IsUnrolled(f, g) && Alike(m, t, t', c) && t.State? && Step(f, m, t).State?
      requires NextVersion(t.block, c, Step(f, m, t).block) >= loop.depth
      ensures Diverged(Step(f, m, t), Step(g, m, t')) && NextVersion(t.block, c, Step(f, m, t).block) == loop.depth
    {
      StepRelates(g, m, t, t', c);
    }

    /** When the original exceeds the bound, the unrolled program enters the diverge block, with the same memory. */
    lemma DivergesAtBound<M>(g: Program<V>, m: Machine<V, M>, s: State<V, M>, s': State<V, M>, c: nat, n: nat)
      requires Valid() && loop.IsUnrolled(f, g) && Related(m, s, s', c) && n > 0
      requires WithinBound(m, s, c, n - 1) && Iteration(m, s, c, n) >= loop.depth
      ensures Diverged(Run(f, m, s, n), Run(g, m, s', n)) && Iteration(m, s, c, n) == loop.depth
    {
      Simulates(g, m, s, s', c, n - 1);
      IterationStep(m, s, c, n);
      AlikeStep(g, m, Run(f, m, s, n - 1), Run(g, m, s', n - 1), Iteration(m, s, c, n - 1));
    }

    /** The unrolled program is in the diverge block exactly when the original has exceeded the bound. */
    lemma {:induction false} DivergesOnlyAtBound<M>(g: Program<V>, m: Machine<V, M>, s: State<V, M>, s': State<V, M>, c: nat, n: nat)
      requires Valid() && loop.IsUnrolled(f, g) && Related(m, s, s', c)
      requires DIVERGE in g && g[DIVERGE].succs == [DIVERGE]
      ensures AtDiverge(Run(g, m, s', n)) <==> !WithinBound(m, s, c, n)
    {
      if WithinBound(m, s, c, n) {
        Simulates(g, m, s, s', c, n);
        StaysInProgram(m, Run(f, m, s, n), Run(g, m, s', n), Iteration(m, s, c, n));
      } else {
        AtDivergeOnce(g, m, s, s', c, n);
      }
    }

    lemma {:induction false} AtDivergeOnce<M>(g: Program<V>, m: Machine<V, M>, s: State<V, M>, s': State<V, M>, c: nat, n: nat)
      requires Valid() && loop.IsUnrolled(f, g) && Related(m, s, s', c) && !WithinBound(m, s, c, n)
      requires DIVERGE in g && g[DIVERGE].succs == [DIVERGE]
      ensures AtDiverge(Run(g, m, s', n))
    {
      NotAtFirst(m, s, s', c, n);
      if WithinBound(m, s, c, n - 1) {
        DivergesAtBound(g, m, s, s', c, n);
      } else {
        AtDivergeOnce(g, m, s, s', c, n - 1);
        DivergeStays(g, m, Run(g, m, s', n - 1));
      }
    }

    lemma NotAtFirst<M>(m: Machine<V, M>, s: State<V, M>, s': State<V, M>, c: nat, n: nat)
      requires Related(m, s, s', c) && !WithinBound(m, s, c, n)
      ensures n > 0 && (WithinBound(m, s, c, n - 1) ==> Iteration(m, s, c, n) >= loop.depth)
    {
      assert Iteration(m, s, c, 0) == c;
    }

    lemma DivergeStays<M>(g: Program<V>, m: Machine<V, M>, s: State<V, M>)
      requires AtDiverge(s) && DIVERGE in g && g[DIVERGE].succs == [DIVERGE]
      ensures AtDiverge(Step(g, m, s))
    {
    }

    ghost predicate AtDiverge<M>(s: State<V, M>) {
      s.State? && s.block == DIVERGE
    }

    lemma StaysInProgram<M>(m: Machine<V, M>, t: State<V, M>, t': State<V, M>, c: nat)
      requires Valid() && Alike(m, t, t', c)
      ensures !AtDiverge(t')
    {
    }

    /** Before the loop is entered, both programs may start in the same state. */
    lemma StartsRelated<M>(m: Machine<V, M>, s: State<V, M>)
      requires Valid() && s.State? && s.block.copy == 0 && s.block != DIVERGE && s.from.copy == 0
      requires s.block.base !in loop.blocks && s.from.base !in loop.blocks
      ensures Related(m, s, s, 0)
    {
    }
  }

  lemma RunStep<V, M>(m: Machine<V, M>, body: seq<Instr<V>>, n: nat, l: Local<V, M>)
    requires 0 < n <= |body|
    ensures RunBody(m, body, n, l) == Execute(m, body[n - 1], RunBody(m, body, n - 1, l))
  {
  }

  predicate NoEntry<V>(incoming: seq<Entry<V>>, from: Name) {
    forall j :: 0 <= j < |incoming| ==> incoming[j].pred != from
  }

  lemma OtherCopies<V>(incoming: seq<Entry<V>>, from: Name)
    requires forall e :: e in incoming ==> e.pred.copy != from.copy
    ensures NoEntry(incoming, from)
  {
    forall j | 0 <= j < |incoming|
      ensures incoming[j].pred != from
    {
      assert incoming[j] in incoming;
    }
  }

  lemma {:induction false} NoEntryMeansUndef<V, M>(m: Machine<V, M>, env: Env<V>, incoming: seq<Entry<V>>, from: Name)
    requires NoEntry(incoming, from)
    ensures PhiValue(m, env, incoming, from) == m.undef
  {
    if incoming != [] {
      NoEntryMeansUndef(m, env, incoming[1..], from);
    }
  }

  lemma {:induction false} PhiConcat<V, M>(m: Machine<V, M>, env: Env<V>, a: seq<Entry<V>>, b: seq<Entry<V>>, from: Name)
    ensures PhiValue(m, env, a + b, from) == if NoEntry(a, from) then PhiValue(m, env, b, from) else PhiValue(m, env, a, from)
  {
    if a == [] {
      assert a + b == b;
    } else {
      assert (a + b)[1..] == a[1..] + b;
      PhiConcat(m, env, a[1..], b, from);
      assert NoEntry(a, from) <==> a[0].pred != from && NoEntry(a[1..], from);
    }
  }

  /** If one part has only entries of other copies, the other one gives the value. */
  lemma OneSide<V, M>(m: Machine<V, M>, env: Env<V>, a: seq<Entry<V>>, b: seq<Entry<V>>, from: Name, left: bool)
    requires forall e :: e in (if left then b else a) ==> e.pred.copy != from.copy
    ensures PhiValue(m, env, a + b, from) == PhiValue(m, env, if left then a else b, from)
  {
    PhiConcat(m, env, a, b, from);
    if left {
      OtherCopies(b, from);
      NoEntryMeansUndef(m, env, b, from);
      if NoEntry(a, from) { NoEntryMeansUndef(m, env, a, from); }
    } else {
      OtherCopies(a, from);
    }
  }

  lemma PhiDestsStep<V>(phis: seq<Phi<V>>, n: nat)
    requires 0 < n <= |phis|
    ensures PhiDests(phis[..n]) == PhiDests(phis[..n - 1]) + {phis[n - 1].dest.base}
  {
    var a, b := phis[..n], phis[..n - 1];
    forall x
      ensures x in PhiDests(a) <==> x in PhiDests(b) + {phis[n - 1].dest.base}
    {
      if x in PhiDests(a) {
        var k :| 0 <= k < |a| && a[k].dest.base == x;
        assert k < n - 1 ==> b[k] == a[k];
      }
      if x in PhiDests(b) {
        var k :| 0 <= k < |b| && b[k].dest.base == x;
        assert a[k] == b[k];
      }
      assert a[n - 1] == phis[n - 1];
    }
  }

  // ----- Why values may leave the loop through PHI nodes only ------------------------------------------------

  /** The loop counts in memory; the block after it uses the last count directly. */
  const ESCAPING: Program<int> := map[
    Name(3, 0) := Block([], [], 0, [], [Name(1, 0)]),
    Name(1, 0) := Block([], [Instr(Name(100, 0), 1, [])], 0, [], [Name(2, 0), Name(1, 0)]),
    Name(2, 0) := Block([], [Instr(Name(200, 0), 2, [Use(Name(100, 0))])], 0, [], [])]

  const TWICE := Loop(1, {1}, {100}, 2)

  const ESCAPING_TWICE: Program<int> := map[
    Name(3, 0) := Block([], [], 0, [], [Name(1, 0)]),
    Name(1, 0) := Block([], [Instr(Name(100, 0), 1, [])], 0, [], [Name(2, 0), Name(1, 1)]),
    Name(1, 1) := Block([], [Instr(Name(100, 1), 1, [])], 0, [], [Name(2, 0), DIVERGE]),
    Name(2, 0) := Block([], [Instr(Name(200, 0), 2, [Use(Name(100, 0))])], 0, [], [])]

  /** Instruction 1 reads memory and counts it up, instruction 2 writes its operand; the loop is left at two. */
  const COUNTER: Machine<int, int> := Machine(0,
    (op: int, args: seq<int>, mem: int) => if op == 1 then (mem, mem + 1) else if args == [] then (0, mem) else (args[0], args[0]),
    (op: int, args: seq<int>, mem: int) => if mem == 2 then 0 else 1)

  lemma EscapingIsUnrolled()
    ensures TWICE.IsUnrolled(ESCAPING, ESCAPING_TWICE)
  {
    var l, f := TWICE, ESCAPING;
    var b := f[Name(1, 0)];
    assert l.RenamedOps<int>(0, []) == [] && l.RenamedOps<int>(1, []) == [];
    assert l.VersionPhis<int>(1, 0, []) == [] && l.VersionPhis<int>(1, 1, []) == [];
    assert l.VersionBody(0, b.body) == [Instr(Name(100, 0), 1, [])] && l.VersionBody(1, b.body) == [Instr(Name(100, 1), 1, [])];
    assert l.Targets(0, b.succs) == [Name(2, 0), Name(1, 1)] && l.Targets(1, b.succs) == [Name(2, 0), DIVERGE];
    assert l.FixedPhis<int>([]) == [];
    assert l.FixedExit(f[Name(2, 0)]) == f[Name(2, 0)] && l.FixedExit(f[Name(3, 0)]) == f[Name(3, 0)];
  }

  /** The block at the head of a program with one instruction and no PHI nodes. */
  lemma OneStep(p: Program<int>, s: State<int, int>, i: Instr<int>)
    requires s.State? && s.block in p && p[s.block].phis == [] && p[s.block].body == [i] && p[s.block].args == []
    ensures var l := Execute(COUNTER, i, Local(s.env, s.mem));
      Step(p, COUNTER, s) == Leave(COUNTER, p[s.block].op, [], p[s.block].succs, s.block, l)
  {
    var b := p[s.block];
    assert RunBody(COUNTER, b.body, 0, Local(s.env, s.mem)) == Local(s.env, s.mem);
    assert AfterBlock(COUNTER, b, s.from, Local(s.env, s.mem)) == Execute(COUNTER, i, Local(s.env, s.mem));
    assert ReadAll(COUNTER, Execute(COUNTER, i, Local(s.env, s.mem)).env, b.args) == [];
  }

  const ESCAPING_START: State<int, int> := State(Name(3, 0), Name(4, 0), map[], 0)

  lemma EscapingRuns()
    ensures Run(ESCAPING, COUNTER, ESCAPING_START, 1) == State(Name(1, 0), Name(3, 0), map[], 0)
    ensures Run(ESCAPING, COUNTER, ESCAPING_START, 2) == State(Name(1, 0), Name(1, 0), map[Name(100, 0) := 0], 1)
    ensures Run(ESCAPING, COUNTER, ESCAPING_START, 3) == State(Name(2, 0), Name(1, 0), map[Name(100, 0) := 1], 2)
    ensures Run(ESCAPING, COUNTER, ESCAPING_START, 4) == Stopped(1)
  {
    var f, s := ESCAPING, ESCAPING_START;
    assert Run(f, COUNTER, s, 0) == s;
    var a := State(Name(1, 0), Name(3, 0), map[], 0);
    assert ReadAll(COUNTER, map[], []) == [];
    assert Run(f, COUNTER, s, 1) == a;
    OneStep(f, a, Instr(Name(100, 0), 1, []));
    var b := State(Name(1, 0), Name(1, 0), map[Name(100, 0) := 0], 1);
    assert Run(f, COUNTER, s, 2) == b;
    assert ReadAll(COUNTER, b.env, []) == [];
    OneStep(f, b, Instr(Name(100, 0), 1, []));
    var c := State(Name(2, 0), Name(1, 0), map[Name(100, 0) := 1], 2);
    assert Run(f, COUNTER, s, 3) == c;
    assert ReadAll(COUNTER, c.env, [Use(Name(100, 0))]) == [1];
    OneStep(f, c, Instr(Name(200, 0), 2, [Use(Name(100, 0))]));
  }

  lemma EscapingTwiceRuns()
    ensures Run(ESCAPING_TWICE, COUNTER, ESCAPING_START, 4) == Stopped(0)
  {
    var g, s := ESCAPING_TWICE, ESCAPING_START;
    assert Run(g, COUNTER, s, 0) == s;
    var a := State(Name(1, 0), Name(3, 0), map[], 0);
    assert ReadAll(COUNTER, map[], []) == [];
    assert Run(g, COUNTER, s, 1) == a;
    OneStep(g, a, Instr(Name(100, 0), 1, []));
    var b := State(Name(1, 1), Name(1, 0), map[Name(100, 0) := 0], 1);
    assert Run(g, COUNTER, s, 2) == b;
    assert ReadAll(COUNTER, b.env, []) == [];
    OneStep(g, b, Instr(Name(100, 1), 1, []));
    var c := State(Name(2, 0), Name(1, 1), map[Name(100, 0) := 0, Name(100, 1) := 1], 2);
    assert Run(g, COUNTER, s, 3) == c;
    assert ReadAll(COUNTER, c.env, [Use(Name(100, 0))]) == [0];
    OneStep(g, c, Instr(Name(200, 0), 2, [Use(Name(100, 0))]));
  }

  const ESCAPING_SOURCE := Source(ESCAPING, TWICE, map[1 := {}])

  lemma EscapingStaysInBound()
    ensures ESCAPING_SOURCE.WithinBound(COUNTER, ESCAPING_START, 0, 4)
  {
    EscapingRuns();
    var p := ESCAPING_SOURCE;
    assert p.Iteration(COUNTER, ESCAPING_START, 0, 0) == 0 && p.Iteration(COUNTER, ESCAPING_START, 0, 1) == 0;
    assert p.Iteration(COUNTER, ESCAPING_START, 0, 2) == 1 && p.Iteration(COUNTER, ESCAPING_START, 0, 3) == 1;
    assert p.Iteration(COUNTER, ESCAPING_START, 0, 4) == 0;
    forall j: nat | j <= 4
      ensures p.Iteration(COUNTER, ESCAPING_START, 0, j) < 2
    {
      assert j == 0 || j == 1 || j == 2 || j == 3 || j == 4;
    }
  }

  /** All else that is assumed of the program holds. */
  lemma EscapingIsOtherwiseValid()
    ensures ESCAPING_SOURCE.HasBlock(1) && ESCAPING_SOURCE.InsideValid(1) && ESCAPING_SOURCE.OutsideValid(Name(3, 0))
    ensures !ESCAPING_SOURCE.OutsideValid(Name(2, 0))
  {
    var p := ESCAPING_SOURCE;
    assert p.HasBlock(1);
    var body := p.f[Name(2, 0)].body;
    assert !p.OpValid(body[0].args[0], {}) && !p.OpsValid(body[0].args, {}) && !p.BodyValid(body, false, {});
  }

  /** The original writes the last count, one; the unrolled program that of its first copy, zero. */
  lemma EscapingDiffers()
    ensures TWICE.IsUnrolled(ESCAPING, ESCAPING_TWICE) && ESCAPING_SOURCE.WithinBound(COUNTER, ESCAPING_START, 0, 4)
    ensures Run(ESCAPING, COUNTER, ESCAPING_START, 4) == Stopped(1) && Run(ESCAPING_TWICE, COUNTER, ESCAPING_START, 4) == Stopped(0)
  {
    EscapingIsUnrolled();
    EscapingRuns();
    EscapingTwiceRuns();
    EscapingStaysInBound();
  }

  /**
   * A loop of two blocks whose values flow within a block, to the other block, round the loop and, through a
   * PHI node, out of it.
   */
  const CLOSED: Program<int> := map[
    Name(3, 0) := Block([], [], 0, [], [Name(1, 0)]),
    Name(1, 0) := Block(
      [Phi(Name(100, 0), [Entry(Name(3, 0), Const(0)), Entry(Name(4, 0), Use(Name(103, 0)))])],
      [Instr(Name(101, 0), 1, [Use(Name(100, 0))]), Instr(Name(102, 0), 1, [Use(Name(101, 0)), Use(Name(100, 0))])],
      0, [Use(Name(102, 0))], [Name(2, 0), Name(4, 0)]),
    Name(4, 0) := Block([], [Instr(Name(103, 0), 1, [Use(Name(101, 0)), Use(Name(100, 0))])], 0, [], [Name(1, 0)]),
    Name(2, 0) := Block(
      [Phi(Name(200, 0), [Entry(Name(1, 0), Use(Name(101, 0)))])], [Instr(Name(201, 0), 2, [Use(Name(200, 0))])], 0, [], [])]

  const CLOSED_SOURCE := Source(CLOSED, Loop(1, {1, 4}, {100, 101, 102, 103}, 2), map[1 := {}, 4 := {100, 101, 102}])

  lemma ClosedDests()
    ensures var head, latch := CLOSED[Name(1, 0)], CLOSED[Name(4, 0)];
      && PhiDests(head.phis) == {100} && BodyDests(head.body, 0) == {} && BodyDests(head.body, 1) == {101}
      && BodyDests(head.body, 2) == {101, 102} && PhiDests(latch.phis) == {} && BodyDests(latch.body, 1) == {103}
    ensures CLOSED_SOURCE.HasBlock(1) && CLOSED_SOURCE.Out(1) == {100, 101, 102}
    ensures CLOSED_SOURCE.HasBlock(4) && CLOSED_SOURCE.Out(4) == {100, 101, 102, 103}
  {
    var head, latch := CLOSED[Name(1, 0)], CLOSED[Name(4, 0)];
    assert head.phis[0].dest.base in PhiDests(head.phis);
    assert head.body[0].dest.base in BodyDests(head.body, 1);
    assert head.body[0].dest.base in BodyDests(head.body, 2) && head.body[1].dest.base in BodyDests(head.body, 2);
    assert latch.body[0].dest.base in BodyDests(latch.body, 1);
    assert CLOSED_SOURCE.HasBlock(1) && CLOSED_SOURCE.HasBlock(4);
  }

  lemma ClosedHead()
    ensures CLOSED_SOURCE.HasBlock(1) && CLOSED_SOURCE.InsideValid(1)
  {
    ClosedDests();
    var p := CLOSED_SOURCE;
    var body := p.Code(1).body;
    assert p.EntryValid(p.Code(1).phis[0].incoming[0]) && p.EntryValid(p.Code(1).phis[0].incoming[1]);
    assert p.OpsValid(body[0].args, {100} + BodyDests(body, 0)) && p.OpsValid(body[1].args, {100} + BodyDests(body, 1));
  }

  lemma ClosedLatch()
    ensures CLOSED_SOURCE.HasBlock(4) && CLOSED_SOURCE.InsideValid(4)
  {
    ClosedDests();
  }

  lemma ClosedOutside()
    ensures CLOSED_SOURCE.OutsideValid(Name(2, 0)) && CLOSED_SOURCE.OutsideValid(Name(3, 0))
  {
    ClosedDests();
  }

  /** All that is assumed of a program holds of that one. */
  lemma ClosedIsValid()
    ensures CLOSED_SOURCE.Valid()
  {
    ClosedHead();
    ClosedLatch();
    ClosedOutside();
  }
}
