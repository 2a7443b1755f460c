/** src/LoopUnrollPass.cpp, step by step: it makes of the program what `IsUnrolled` says. */
module LoopUnrollPasses {
  import opened Programs
  import opened LoopUnroll

  // ----- The pass ----------------------------------------------------------------------------------------

  class Function<V> {
    var blocks: Program<V>

    constructor (blocks: Program<V>)
      ensures this.blocks == blocks
    {
      this.blocks := blocks;
    }
  }

  /** `CloneBasicBlock`: only what the block defines gets new names. */
  function Cloned<V>(loop: Loop, c: nat, block: Block<V>): Block<V> {
    block.(phis := seq(|block.phis|, i requires 0 <= i < |block.phis| => block.phis[i].(dest := loop.Renamed(c, block.phis[i].dest))),
           body := seq(|block.body|, i requires 0 <= i < |block.body| => block.body[i].(dest := loop.Renamed(c, block.body[i].dest))))
  }

  lemma CloneOfOriginal<V>(loop: Loop, block: Block<V>)
    ensures Cloned(loop, 0, block) == block
  {
    assert Cloned(loop, 0, block).phis == block.phis;
    assert Cloned(loop, 0, block).body == block.body;
  }

  lemma {:induction false} IncomingStep<V>(loop: Loop, b: int, c: nat, a: seq<Entry<V>>, e: Entry<V>)
    ensures loop.Incoming(b, c, a + [e]) == loop.Incoming(b, c, a) + loop.Entries(b, c, e)
  {
    if a == [] {
      assert a + [e] == [e];
      assert loop.Incoming(b, c, [e][1..]) == [];
    } else {
      assert (a + [e])[1..] == a[1..] + [e];
      IncomingStep(loop, b, c, a[1..], e);
    }
  }

  /** What replacing or removing one element does to what is before and after it. */
  lemma SlicesAfterEdit<T>(s: seq<T>, k: nat)
    requires k < |s|
    ensures forall x {:trigger s[k := x]} :: s[k := x][..k + 1] == s[..k] + [x] && s[k := x][k + 1..] == s[k + 1..]
    ensures (s[..k] + s[k + 1..])[..k] == s[..k] && (s[..k] + s[k + 1..])[k..] == s[k + 1..] == s[k..][1..]
    ensures s[..k + 1] == s[..k] + [s[k]]
  {
  }

  /** The incoming values of a PHI node are redirected or removed in place. */
  method RedirectIncoming<V>(loop: Loop, b: int, c: nat, incoming: seq<Entry<V>>) returns (r: seq<Entry<V>>)
    ensures r == loop.Incoming(b, c, incoming)
  {
    r := incoming;
    var k := 0;
    ghost var n := 0;
    assert incoming[..0] == [];
    while k < |r|
      invariant n <= |incoming| && k <= |r|
      invariant r[..k] == loop.Incoming(b, c, incoming[..n]) && r[k..] == incoming[n..]
      decreases |r| - k
    {
      var e := r[k];
      assert e == incoming[n] && r[k..][1..] == incoming[n..][1..];
      assert incoming[..n + 1] == incoming[..n] + [e];
      IncomingStep(loop, b, c, incoming[..n], e);
      SlicesAfterEdit(r, k);
      if e.pred.base in loop.blocks {
        if b == loop.header {
          if c == 0 {
            r := r[..k] + r[k + 1..];
          } else {
            r := r[k := Entry(Name(e.pred.base, c - 1), loop.RenamedOp(c - 1, e.value))];
            k := k + 1;
          }
        } else {
          r := r[k := Entry(Name(e.pred.base, c), loop.RenamedOp(c, e.value))];
          k := k + 1;
        }
      } else {
        if c == 0 {
          k := k + 1;
        } else {
          r := r[..k] + r[k + 1..];
        }
      }
      n := n + 1;
    }
    assert incoming[..n] == incoming && r[..k] == r;
  }

  method RedirectTargets<V>(loop: Loop, c: nat, succs: seq<Name>) returns (r: seq<Name>)
    ensures r == loop.Targets(c, succs)
  {
    r := succs;
    for k := 0 to |succs|
      invariant |r| == |succs| && r[k..] == succs[k..]
      invariant forall j :: 0 <= j < k ==> r[j] == loop.Target(c, succs[j])
    {
      var t := r[k];
      assert t == r[k..][0] == succs[k];
      if t.base in loop.blocks {
        if t.base == loop.header {
          if c < loop.depth - 1 {
            r := r[k := Name(t.base, c + 1)];
          } else {
            r := r[k := DIVERGE];
          }
        } else {
          r := r[k := Name(t.base, c)];
        }
      }
    }
  }

  method RenameOperands<V>(loop: Loop, c: nat, args: seq<Operand<V>>) returns (r: seq<Operand<V>>)
    ensures r == loop.RenamedOps(c, args)
  {
    r := args;
    for k := 0 to |args|
      invariant |r| == |args| && r[k..] == args[k..]
      invariant forall j :: 0 <= j < k ==> r[j] == loop.RenamedOp(c, args[j])
    {
      assert r[k] == r[k..][0] == args[k];
      if r[k].Use? && r[k].name.base in loop.values && c != 0 {
        r := r[k := Use(Name(r[k].name.base, c))];
      }
    }
  }

  /** Branches, PHI nodes and operands of version `c` of a block. */
  method RedirectBlock<V>(loop: Loop, b: int, c: nat, clone: Block<V>, ghost block: Block<V>) returns (r: Block<V>)
    requires clone == Cloned(loop, c, block)
    ensures r == loop.Version(b, c, block)
  {
    var succs := RedirectTargets<V>(loop, c, clone.succs);
    var phis := clone.phis;
    for k := 0 to |phis|
      invariant |phis| == |block.phis| && forall j :: 0 <= j < k ==> phis[j] == loop.VersionPhi(b, c, block.phis[j])
      invariant forall j :: k <= j < |phis| ==> phis[j] == clone.phis[j]
    {
      var incoming := RedirectIncoming(loop, b, c, phis[k].incoming);
      phis := phis[k := phis[k].(incoming := incoming)];
    }
    var body := clone.body;
    for k := 0 to |body|
      invariant |body| == |block.body| && forall j :: 0 <= j < k ==> body[j] == loop.VersionInstr(c, block.body[j])
      invariant forall j :: k <= j < |body| ==> body[j] == clone.body[j]
    {
      var args := RenameOperands(loop, c, body[k].args);
      body := body[k := body[k].(args := args)];
    }
    var args := RenameOperands(loop, c, clone.args);
    r := Block(phis, body, clone.op, args, succs);
    assert phis == loop.VersionPhis(b, c, block.phis) && body == loop.VersionBody(c, block.body);
  }

  /** The entries of a PHI node that come from the loop. */
  method CollectInside<V>(loop: Loop, incoming: seq<Entry<V>>) returns (inside: seq<Entry<V>>)
    ensures inside == loop.FromLoop(incoming)
  {
    inside := [];
    for k := 0 to |incoming|
      invariant inside == loop.FromLoop(incoming[..k])
    {
      assert incoming[..k + 1][..k] == incoming[..k];
      if incoming[k].pred.base in loop.blocks {
        inside := inside + [incoming[k]];
      }
    }
    assert incoming[..|incoming|] == incoming;
  }

  /** `addIncoming` for each of them, for version `c`. */
  method AddVersion<V>(loop: Loop, c: nat, inside: seq<Entry<V>>, incoming: seq<Entry<V>>) returns (r: seq<Entry<V>>)
    ensures r == incoming + loop.OfVersion(c, inside)
  {
    r := incoming;
    for j := 0 to |inside|
      invariant r == incoming + loop.OfVersion(c, inside[..j])
    {
      assert inside[..j + 1][..j] == inside[..j];
      r := r + [Entry(Name(inside[j].pred.base, c), loop.RenamedOp(c, inside[j].value))];
    }
    assert inside[..|inside|] == inside;
  }

  /** The values and blocks of a PHI node that belong to the loop are multiplied. */
  method MultiplyIncoming<V>(loop: Loop, phi: Phi<V>) returns (r: Phi<V>)
    requires loop.depth >= 1
    ensures r == loop.FixedPhi(phi)
  {
    var inside := CollectInside(loop, phi.incoming);
    var incoming := phi.incoming;
    assert incoming == phi.incoming + [];
    for c := 1 to loop.depth
      invariant incoming == phi.incoming + loop.FromVersions(c, phi.incoming)
    {
      NextVersions(loop, c, phi.incoming);
      incoming := AddVersion(loop, c, inside, incoming);
    }
    r := phi.(incoming := incoming);
  }

  lemma NextVersions<V>(loop: Loop, c: nat, incoming: seq<Entry<V>>)
    requires c >= 1
    ensures incoming + loop.FromVersions(c, incoming) + loop.OfVersion(c, loop.FromLoop(incoming))
      == incoming + loop.FromVersions(c + 1, incoming)
  {
    FromLoopVersion(loop, c, incoming);
    var a, b := loop.FromVersions(c, incoming), loop.FromVersion(c, incoming);
    assert incoming + a + b == incoming + (a + b);
  }

  lemma {:induction false} FromLoopVersion<V>(loop: Loop, c: nat, incoming: seq<Entry<V>>)
    ensures loop.OfVersion(c, loop.FromLoop(incoming)) == loop.FromVersion(c, incoming)
  {
    if incoming != [] {
      var n := |incoming| - 1;
      var x := incoming[n];
      FromLoopVersion(loop, c, incoming[..n]);
      FromVersionStep(loop, c, incoming[..n], x);
      assert incoming == incoming[..n] + [x];
      var s := loop.FromLoop(incoming[..n]);
      if x.pred.base in loop.blocks {
        assert (s + [x])[..|s|] == s;
      } else {
        assert s + [] == s;
      }
    }
  }

  lemma {:induction false} FromVersionStep<V>(loop: Loop, c: nat, a: seq<Entry<V>>, e: Entry<V>)
    ensures loop.FromVersion(c, a + [e]) == loop.FromVersion(c, a)
      + if e.pred.base in loop.blocks then [Entry(Name(e.pred.base, c), loop.RenamedOp(c, e.value))] else []
  {
    if a == [] {
      assert a + [e] == [e];
      assert loop.FromVersion(c, [e][1..]) == [];
    } else {
      assert (a + [e])[1..] == a[1..] + [e];
      FromVersionStep(loop, c, a[1..], e);
    }
  }

  /** Which version a block has, before and while it is redirected. */
  ghost predicate ClonesReady<V>(loop: Loop, f: Program<V>, g: Program<V>, order: seq<int>, done: nat, version: nat) {
    forall c: nat, j {:trigger Name(order[j], c)} :: c < loop.depth && 0 <= j < |order| ==>
      && Name(order[j], 0) in f && Name(order[j], c) in g
      && g[Name(order[j], c)] ==
           if c < version || (c == version && j < done) then loop.Version(order[j], c, f[Name(order[j], 0)])
           else Cloned(loop, c, f[Name(order[j], 0)])
  }

  /** Blocks outside the loop, as they are. */
  ghost predicate OthersKept<V>(loop: Loop, f: Program<V>, g: Program<V>) {
    && (forall n {:trigger n in g} :: n in f && n.base !in loop.blocks ==> n in g && g[n] == f[n])
    && (forall n {:trigger n in g} :: n in g && n != DIVERGE && n.base !in loop.blocks ==> n in f)
  }

  /** The loop's blocks, in the order of `getBlocks`, and its exit blocks. */
  ghost predicate IsLoopOf<V>(loop: Loop, f: Program<V>, order: seq<int>, exits: set<Name>) {
    && loop.depth >= 1 && order != [] && order[0] == loop.header && (forall b :: b in loop.blocks <==> b in order) && (forall i, j :: 0 <= i < j < |order| ==> order[i] != order[j])
    && (forall b :: b in loop.blocks ==> Name(b, 0) in f) && DIVERGE.base !in loop.blocks && DIVERGE !in f
    && (forall n :: n in exits <==> n in f && loop.IsExit(f, n))
  }

  /** `make_diverge_block`: assume false, for ever. */
  function DivergeBlock<V>(assumeOp: int, zero: V): Block<V> {
    Block([], [Instr(DIVERGE, assumeOp, [Const(zero)])], 0, [], [DIVERGE])
  }

  /** A block of the loop, or one of its copies. */
  ghost predicate IsVersion(loop: Loop, n: Name) {
    n.base in loop.blocks && 0 <= n.copy < loop.depth
  }

  /** The versions below `version`, and `done` blocks of that one, have been cloned. */
  ghost predicate Clones<V>(loop: Loop, f: Program<V>, g: Program<V>, order: seq<int>, version: nat, done: nat) {
    && (forall c: nat, j {:trigger Name(order[j], c)} :: 0 <= j < |order| && (c < version || (c == version && j < done)) ==>
          && Name(order[j], 0) in f && Name(order[j], c) in g
          && g[Name(order[j], c)] == Cloned(loop, c, f[Name(order[j], 0)]))
    && SameOutside(loop, f, g)
  }

  ghost predicate SameOutside<V>(loop: Loop, f: Program<V>, g: Program<V>) {
    forall n: Name {:trigger n in g} :: n.base !in loop.blocks ==> (n in g <==> n in f) && (n in g ==> g[n] == f[n])
  }

  /** The first `done` exit blocks have been fixed. */
  ghost predicate ExitsFixed<V>(loop: Loop, f: Program<V>, g: Program<V>, fixed: set<Name>) {
    forall n: Name {:trigger n in g} :: n.base !in loop.blocks ==>
      (n in g <==> n in f) && (n in g ==> g[n] == if n in fixed then loop.FixedExit(f[n]) else f[n])
  }

  /** The blocks of the loop have not changed. */
  ghost predicate SameInside<V>(loop: Loop, f: Program<V>, g: Program<V>) {
    forall n: Name {:trigger n in g} :: n.base in loop.blocks && n in f ==> n in g && g[n] == f[n]
  }

  class LoopUnrollPass<V> {

    /** The clones of the loop body. */
    static method CloneBodies(F: Function<V>, loop: Loop, order: seq<int>)
      requires loop.depth >= 1 && (forall i, j :: 0 <= i < j < |order| ==> order[i] != order[j])
      requires forall b :: b in loop.blocks <==> b in order
      requires forall b :: b in loop.blocks ==> Name(b, 0) in F.blocks
      modifies F
      ensures Clones(loop, old(F.blocks), F.blocks, order, loop.depth, 0)
      ensures forall n :: n in F.blocks ==> n in old(F.blocks) || IsVersion(loop, n)
    {
      ghost var f := F.blocks;
      forall j | 0 <= j < |order|
        ensures Name(order[j], 0) in f && Cloned(loop, 0, f[Name(order[j], 0)]) == f[Name(order[j], 0)]
      {
        assert order[j] in order;
        CloneOfOriginal(loop, f[Name(order[j], 0)]);
      }
      for c := 1 to loop.depth
        invariant Clones(loop, f, F.blocks, order, c, 0) && forall n :: n in F.blocks ==> n in f || IsVersion(loop, n)
      {
        for j := 0 to |order|
          invariant Clones(loop, f, F.blocks, order, c, j) && forall n :: n in F.blocks ==> n in f || IsVersion(loop, n)
        {
          CloneBlock(F, loop, order, c, j, f);
        }
      }
    }

    /** One block of one version. */
    static method CloneBlock(F: Function<V>, loop: Loop, order: seq<int>, c: nat, j: nat, ghost f: Program<V>)
      requires 0 < c < loop.depth && j < |order| && (forall i, k :: 0 <= i < k < |order| ==> order[i] != order[k])
      requires (forall b :: b in loop.blocks <==> b in order) && Clones(loop, f, F.blocks, order, c, j)
      modifies F
      ensures Clones(loop, f, F.blocks, order, c, j + 1)
      ensures F.blocks.Keys == old(F.blocks.Keys) + {Name(order[j], c)} && IsVersion(loop, Name(order[j], c))
    {
      var b := order[j];
      assert b in order;
      assert F.blocks[Name(b, 0)] == Cloned(loop, 0, f[Name(b, 0)]);
      F.blocks := F.blocks[Name(b, c) := Cloned(loop, c, F.blocks[Name(b, 0)])];
    }

    /** Branches, value uses and PHI nodes go to the correct version. */
    static method RedirectBodies(F: Function<V>, loop: Loop, order: seq<int>, ghost f: Program<V>)
      requires loop.depth >= 1 && (forall i, j :: 0 <= i < j < |order| ==> order[i] != order[j])
      requires forall b :: b in loop.blocks <==> b in order
      requires ClonesReady(loop, f, F.blocks, order, 0, 0)
      modifies F
      ensures ClonesReady(loop, f, F.blocks, order, 0, loop.depth) && SameOutside(loop, old(F.blocks), F.blocks)
      ensures F.blocks.Keys == old(F.blocks.Keys)
    {
      ghost var g := F.blocks;
      for c := 0 to loop.depth
        invariant ClonesReady(loop, f, F.blocks, order, 0, c) && SameOutside(loop, g, F.blocks) && F.blocks.Keys == g.Keys
      {
        for j := 0 to |order|
          invariant ClonesReady(loop, f, F.blocks, order, j, c) && SameOutside(loop, g, F.blocks) && F.blocks.Keys == g.Keys
        {
          var b := order[j];
          assert b in order;
          assert F.blocks[Name(b, c)] == Cloned(loop, c, f[Name(b, 0)]);
          var block := RedirectBlock(loop, b, c, F.blocks[Name(b, c)], f[Name(b, 0)]);
          F.blocks := F.blocks[Name(b, c) := block];
        }
      }
    }

    /** PHI nodes in the blocks that the loop is left to. */
    static method FixExits(F: Function<V>, loop: Loop, exits: set<Name>)
      requires loop.depth >= 1 && forall n :: n in exits ==> n in F.blocks && n.base !in loop.blocks
      modifies F
      ensures ExitsFixed(loop, old(F.blocks), F.blocks, exits) && SameInside(loop, old(F.blocks), F.blocks)
      ensures F.blocks.Keys == old(F.blocks.Keys)
    {
      ghost var f := F.blocks;
      var todo := exits;
      while todo != {}
        invariant todo <= exits && ExitsFixed(loop, f, F.blocks, exits - todo) && SameInside(loop, f, F.blocks) && F.blocks.Keys == f.Keys
        decreases todo
      {
        var n :| n in todo;
        assert n in F.blocks;
        var block := FixExit(loop, F.blocks[n]);
        F.blocks := F.blocks[n := block];
        todo := todo - {n};
      }
      assert exits - todo == exits;
    }

    static method FixExit(loop: Loop, block: Block<V>) returns (r: Block<V>)
      requires loop.depth >= 1
      ensures r == loop.FixedExit(block)
    {
      var phis := block.phis;
      for k := 0 to |phis|
        invariant |phis| == |block.phis| && forall j :: 0 <= j < k ==> phis[j] == loop.FixedPhi(block.phis[j])
        invariant forall j :: k <= j < |phis| ==> phis[j] == block.phis[j]
      {
        var phi := MultiplyIncoming(loop, phis[k]);
        phis := phis[k := phi];
      }
      assert phis == loop.FixedPhis(block.phis);
      r := block.(phis := phis);
    }

    /** `runOnLoop`. */
    static method RunOnLoop(F: Function<V>, loop: Loop, order: seq<int>, exits: set<Name>, assumeOp: int, zero: V)
      requires IsLoopOf(loop, F.blocks, order, exits)
      modifies F
      ensures loop.IsUnrolled(old(F.blocks), F.blocks)
      ensures DIVERGE in F.blocks
      ensures var d := F.blocks[DIVERGE]; d.phis == [] && d.body == [Instr(DIVERGE, assumeOp, [Const(zero)])] && d.succs == [DIVERGE]
      ensures forall n :: n in F.blocks ==> n in old(F.blocks) || n == DIVERGE || IsVersion(loop, n)
    {
      ghost var f := F.blocks;
      F.blocks := F.blocks[DIVERGE := DivergeBlock(assumeOp, zero)];
      ghost var g := F.blocks;
      CloneBodies(F, loop, order);
      ghost var h := F.blocks;
      ClonesAreReady(loop, f, g, h, order);
      RedirectBodies(F, loop, order, f);
      ghost var i := F.blocks;
      forall n | n in exits
        ensures n in i && n.base !in loop.blocks
      {
        assert n in g && n in h;
      }
      FixExits(F, loop, exits);
      PassIsUnrolling(loop, f, g, h, i, F.blocks, order, exits);
    }
  }

  lemma ClonesAreReady<V>(loop: Loop, f: Program<V>, g: Program<V>, h: Program<V>, order: seq<int>)
    requires (forall b :: b in loop.blocks <==> b in order) && (forall b :: b in loop.blocks ==> Name(b, 0) in f)
    requires DIVERGE.base !in loop.blocks && DIVERGE in g && g == f[DIVERGE := g[DIVERGE]] && Clones(loop, g, h, order, loop.depth, 0)
    ensures ClonesReady(loop, f, h, order, 0, 0)
  {
    forall c: nat, j | c < loop.depth && 0 <= j < |order|
      ensures Name(order[j], 0) in f && Name(order[j], c) in h && h[Name(order[j], c)] == Cloned(loop, c, f[Name(order[j], 0)])
    {
      assert order[j] in order;
    }
  }

  lemma PassIsUnrolling<V>(loop: Loop, f: Program<V>, g: Program<V>, h: Program<V>, i: Program<V>, j: Program<V>,
                           order: seq<int>, exits: set<Name>)
    requires IsLoopOf(loop, f, order, exits) && DIVERGE in g && g == f[DIVERGE := g[DIVERGE]]
    requires SameOutside(loop, g, h) && SameOutside(loop, h, i) && ClonesReady(loop, f, i, order, 0, loop.depth)
    requires ExitsFixed(loop, i, j, exits) && SameInside(loop, i, j)
    ensures loop.IsUnrolled(f, j) && DIVERGE in j && j[DIVERGE] == g[DIVERGE]
  {
    VersionsAreThere(loop, f, i, j, order);
    OutsideIsFixed(loop, g, h, i, j, exits);
    OutsideIsUnrolled(loop, f, g, j, exits);
  }

  lemma OutsideIsUnrolled<V>(loop: Loop, f: Program<V>, g: Program<V>, j: Program<V>, exits: set<Name>)
    requires DIVERGE.base !in loop.blocks && DIVERGE !in f && DIVERGE in g && g == f[DIVERGE := g[DIVERGE]]
    requires forall n :: n in exits <==> n in f && loop.IsExit(f, n)
    requires forall n: Name {:trigger n in j} :: n.base !in loop.blocks ==>
      (n in j <==> n in g) && (n in j ==> j[n] == if n in exits then loop.FixedExit(g[n]) else g[n])
    ensures forall n {:trigger n in j} :: n in f && n.base !in loop.blocks ==>
      n in j && j[n] == if loop.IsExit(f, n) then loop.FixedExit(f[n]) else f[n]
    ensures forall n {:trigger n in j} :: n in j && n != DIVERGE && n.base !in loop.blocks ==> n in f
    ensures DIVERGE in j && j[DIVERGE] == g[DIVERGE]
  {
    assert DIVERGE !in exits;
    forall n | n in f && n.base !in loop.blocks
      ensures n in j && j[n] == if loop.IsExit(f, n) then loop.FixedExit(f[n]) else f[n]
    {
      assert n in g && g[n] == f[n];
    }
  }

  lemma VersionsAreThere<V>(loop: Loop, f: Program<V>, i: Program<V>, j: Program<V>, order: seq<int>)
    requires (forall b :: b in loop.blocks <==> b in order) && ClonesReady(loop, f, i, order, 0, loop.depth) && SameInside(loop, i, j)
    ensures forall b, c: nat {:trigger Name(b, c)} :: b in loop.blocks && c < loop.depth && Name(b, 0) in f ==>
      Name(b, c) in j && j[Name(b, c)] == loop.Version(b, c, f[Name(b, 0)])
  {
    forall b, c: nat | b in loop.blocks && c < loop.depth && Name(b, 0) in f
      ensures Name(b, c) in j && j[Name(b, c)] == loop.Version(b, c, f[Name(b, 0)])
    {
      var k :| 0 <= k < |order| && order[k] == b;
      assert Name(order[k], c) in i;
    }
  }

  lemma OutsideIsFixed<V>(loop: Loop, g: Program<V>, h: Program<V>, i: Program<V>, j: Program<V>, exits: set<Name>)
    requires SameOutside(loop, g, h) && SameOutside(loop, h, i) && ExitsFixed(loop, i, j, exits)
    ensures forall n: Name {:trigger n in j} :: n.base !in loop.blocks ==>
      (n in j <==> n in g) && (n in j ==> j[n] == if n in exits then loop.FixedExit(g[n]) else g[n])
  {
    forall n: Name | n.base !in loop.blocks
      ensures n in j <==> n in g
      ensures n in j ==> j[n] == if n in exits then loop.FixedExit(g[n]) else g[n]
    {
      assert n in h <==> n in g;
      assert n in i <==> n in h;
    }
  }
}
