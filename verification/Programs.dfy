/**
 * Programs in static single assignment form, as far as src/LoopUnrollPass.cpp needs them: blocks with PHI
 * nodes, instructions and a terminator.  What instructions compute is left open.
 */
module Programs {

  datatype Name = Name(base: int, copy: nat)

  datatype Operand<V> = Const(v: V) | Use(name: Name)

  /** The value of a PHI node when control comes from `pred`. */
  datatype Entry<V> = Entry(pred: Name, value: Operand<V>)

  datatype Phi<V> = Phi(dest: Name, incoming: seq<Entry<V>>)

  datatype Instr<V> = Instr(dest: Name, op: int, args: seq<Operand<V>>)

  /** PHI nodes, instructions and a terminator that chooses among the successors. */
  datatype Block<V> = Block(phis: seq<Phi<V>>, body: seq<Instr<V>>, op: int, args: seq<Operand<V>>, succs: seq<Name>)

  type Program<V> = map<Name, Block<V>>

  /** The block that waits forever; `make_diverge_block`. */
  const DIVERGE: Name := Name(-1, 0)

  // ----- Execution ---------------------------------------------------------------------------------------

  type Env<V> = map<Name, V>

  /** What instructions and terminators do, given their operands and the memory. */
  datatype Machine<!V, !M> = Machine(undef: V, exec: (int, seq<V>, M) -> (V, M), choose: (int, seq<V>, M) -> nat)

  datatype State<V, M> = State(block: Name, from: Name, env: Env<V>, mem: M) | Stopped(mem: M)

  function Val<V, M>(m: Machine<V, M>, env: Env<V>, n: Name): V {
    if n in env then env[n] else m.undef
  }

  function Read<V, M>(m: Machine<V, M>, env: Env<V>, o: Operand<V>): V {
    match o
    case Const(v) => v
    case Use(n) => Val(m, env, n)
  }

  function ReadAll<V, M>(m: Machine<V, M>, env: Env<V>, args: seq<Operand<V>>): (r: seq<V>)
    ensures |r| == |args| && forall i :: 0 <= i < |args| ==> r[i] == Read(m, env, args[i])
  {
    seq(|args|, i requires 0 <= i < |args| => Read(m, env, args[i]))
  }

  /** The first entry for the block that control comes from. */
  function PhiValue<V, M>(m: Machine<V, M>, env: Env<V>, incoming: seq<Entry<V>>, from: Name): V {
    if incoming == [] then m.undef
    else if incoming[0].pred == from then Read(m, env, incoming[0].value)
    else PhiValue(m, env, incoming[1..], from)
  }

  /** All PHI nodes read their operands before any of them is assigned. */
  function EnterPhis<V, M>(m: Machine<V, M>, env: Env<V>, phis: seq<Phi<V>>, n: nat, from: Name): Env<V>
    requires n <= |phis|
  {
    if n == 0 then env
    else EnterPhis(m, env, phis, n - 1, from)[phis[n - 1].dest := PhiValue(m, env, phis[n - 1].incoming, from)]
  }

  /** Values and memory, inside a block. */
  datatype Local<V, M> = Local(env: Env<V>, mem: M)

  function Execute<V, M>(m: Machine<V, M>, i: Instr<V>, l: Local<V, M>): Local<V, M> {
    var (v, mem) := m.exec(i.op, ReadAll(m, l.env, i.args), l.mem);
    Local(l.env[i.dest := v], mem)
  }

  function RunBody<V, M>(m: Machine<V, M>, body: seq<Instr<V>>, n: nat, l: Local<V, M>): Local<V, M>
    requires n <= |body|
  {
    if n == 0 then l else Execute(m, body[n - 1], RunBody(m, body, n - 1, l))
  }

  /** Values and memory at the end of a block. */
  function AfterBlock<V, M>(m: Machine<V, M>, b: Block<V>, from: Name, l: Local<V, M>): Local<V, M> {
    RunBody(m, b.body, |b.body|, Local(EnterPhis(m, l.env, b.phis, |b.phis|, from), l.mem))
  }

  /** The terminator, whose operands have the given values; with one successor it has no choice. */
  function Leave<V, M>(m: Machine<V, M>, op: int, args: seq<V>, succs: seq<Name>, name: Name, l: Local<V, M>): State<V, M> {
    var k := if |succs| == 1 then 0 else m.choose(op, args, l.mem);
    if k < |succs| then State(succs[k], name, l.env, l.mem) else Stopped(l.mem)
  }

  /** One block. */
  function Step<V, M>(p: Program<V>, m: Machine<V, M>, s: State<V, M>): State<V, M> {
    if s.Stopped? || s.block !in p then Stopped(s.mem) else
      var b := p[s.block];
      var l := AfterBlock(m, b, s.from, Local(s.env, s.mem));
      Leave(m, b.op, ReadAll(m, l.env, b.args), b.succs, s.block, l)
  }

  function Run<V, M>(p: Program<V>, m: Machine<V, M>, s: State<V, M>, n: nat): State<V, M> {
    if n == 0 then s else Step(p, m, Run(p, m, s, n - 1))
  }
}
