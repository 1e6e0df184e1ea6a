/** The whole way of a program: its functions are generated, lowered, and their names put in registers. */
module Compiler {
  import opened Liveness
  import opened Mir
  import opened MirCfg
  import opened Source
  import opened CodeGen
  import opened CodeGenCorrect
  import opened ControlFlow
  import opened DfsLiveness
  import opened Pipeline
  import opened Allocation
  import GeneratedFlow
  import SureReads
  import Passes
  import Rewrite

  // ----- What the passes hand to the allocator -----

  lemma GeneratedJumpsInside(params: seq<nat>, body: seq<Stmt>, t0: nat)
    ensures JumpsInside(GenFunc(params, body, t0))
  {
    FuncClean(params, body, t0);
    var nodes := GenFunc(params, body, t0);
    hide GenFunc;
    forall i: nat | i < |nodes| && Jumps(nodes[i].instr.opcode)
      ensures Target(nodes, nodes[i]) < |nodes|
    {
      assert CleanNode(nodes[i], FuncTemps(params, body, t0), |nodes| - 1);
      FindPosition(nodes, nodes[i].jump.value);
    }
  }

  /** The passes' code has a graph, END in reach of every node, and only instructions the allocator's
      rewriting is made for. */
  lemma CompiledIsReady(f: Func, c: Trace, nodes: seq<Node>)
    requires Compiled(f, c, nodes)
    ensures Graphable(nodes) && EndInReach(nodes)
    ensures forall n :: 0 <= n < |nodes| ==> Rewrite.Lowered(nodes[n].instr) && Rewrite.OffsetGiven(nodes[n].instr)
  {
    GeneratedJumpsInside(f.params, f.body, c.t0);
    GeneratedFlow.FuncReachesEnd(f.params, f.body, c.t0);
    var code := GenFunc(f.params, f.body, c.t0);
    EndStaysInReach(code, nodes, c.l);
    JumpsStayInside(code, nodes, c.l);
    hide GenFunc, JumpsInside, EndInReach;
    forall n | 0 <= n < |nodes|
      ensures Rewrite.Lowered(nodes[n].instr) && Rewrite.OffsetGiven(nodes[n].instr)
    {
      SettledIsLowered(nodes[n].instr);
    }
  }

  lemma SettledIsLowered(i: Instr)
    requires Passes.Settled(i)
    ensures Rewrite.Lowered(i) && Rewrite.OffsetGiven(i)
  {
  }

  /** When the program's text shows that a function cannot avoid reading something, its liveness pass is
      complete. */
  lemma SureReadIsComplete(f: Func, c: Trace, nodes: seq<Node>)
    requires Compiled(f, c, nodes) && BlockSurelyReads(f.body)
    ensures PassComplete(nodes)
  {
    CompiledIsReady(f, c, nodes);
    CodeSurelyReads(f, c, nodes);
    hide *;
    ReportedIsComplete(nodes);
  }

  lemma CodeSurelyReads(f: Func, c: Trace, nodes: seq<Node>)
    requires Compiled(f, c, nodes) && BlockSurelyReads(f.body)
    ensures ControlFlow.SurelyReads(nodes)
  {
    SureReads.FuncReads(f.params, f.body, c.t0);
    hide GenFunc, BlockSurelyReads, ControlFlow.SurelyReads;
    SureReadKept(GenFunc(f.params, f.body, c.t0), nodes, c.l);
  }

  lemma ReportedIsComplete(nodes: seq<Node>)
    requires Graphable(nodes) && EndInReach(nodes) && ControlFlow.SurelyReads(nodes)
    ensures PassComplete(nodes)
  {
    hide EndInReach, ControlFlow.SurelyReads, FirstPassReports, JumpsInside, GraphOf;
    SureReadIsReported(nodes);
    GraphSized(nodes);
  }

  lemma GraphSized(nodes: seq<Node>)
    requires IsGraphOf(GraphOf(nodes), nodes) && |nodes| > 0
    ensures Exit(GraphOf(nodes)) == |nodes| - 1 && GraphOf(nodes).Valid()
  {
  }

  // ----- The two halves together -----

  /** The machine code returns what the program returns, falls off the end when the program does, and
      runs on when the program does. */
  ghost predicate SameOutcomes(ctx: Context, nodes: seq<Node>, t: State, body: seq<Stmt>, start: Store) {
    forall o: Outcome :: !o.Running? ==> (Reaches(ctx, nodes, t, o) <==> Means(body, start, t, o))
  }

  /** Function `i` of a program compiled and allocated, with a complete liveness pass. */
  ghost predicate Built(f: Func, c: Trace, code: seq<seq<Node>>, r: Result, nregs: nat, i: nat) {
    && i < |code| && Compiled(f, c, code[i]) && BlockInFragment(f.body)
    && r.Done? && Allocated(code, r, nregs) && PassComplete(code[i])
  }

  lemma BuiltSizes(f: Func, c: Trace, code: seq<seq<Node>>, r: Result, nregs: nat, i: nat)
    requires Built(f, c, code, r, nregs, i)
    ensures r.Done? && i < |r.live| == |r.code| == |code| && Analysed(code[i], r.live[i])
    ensures r.live[i].Valid() && |r.live[i].ins| == |code[i]| > 0
  {
    assert Analysed(code[i], r.live[i]);
  }

  lemma AllWithin(nodes: seq<Node>)
    requires IsGraphOf(GraphOf(nodes), nodes) && EndInReach(nodes)
    ensures EndStaysReachable(nodes) && forall n: nat :: n < |nodes| ==> n in ReachingEnd(nodes)
  {
    GraphSized(nodes);
    hide GraphOf, IsGraphOf, EndInReach, Reaching, Rewrite.EdgesStay;
    WithinGraph(GraphOf(nodes), nodes, |nodes| - 1);
  }

  lemma WithinGraph(g: FlowGraph, nodes: seq<Node>, exit: nat)
    requires IsGraphOf(g, nodes) && EndInReach(nodes) && exit == |nodes| - 1
    ensures Rewrite.EdgesStay(g, Reaching(g, exit)) && forall n: nat :: n < |nodes| ==> n in Reaching(g, exit)
  {
    EveryNodeReaches(g, nodes, exit);
    hide GraphOf, IsGraphOf, EndInReach, Reaching;
    forall n: nat, m: nat | n in Reaching(g, exit) && g.Edge(n, m)
      ensures m in Reaching(g, exit)
    {
      EdgeLands(g, nodes, n, m);
    }
  }

  lemma EdgeLands(g: FlowGraph, nodes: seq<Node>, n: nat, m: nat)
    requires IsGraphOf(g, nodes) && g.Edge(n, m)
    ensures m < |nodes|
  {
    var k :| 0 <= k < |g.succ[n]| && g.succ[n][k] == m;
  }

  lemma BuiltIsAt(f: Func, c: Trace, code: seq<seq<Node>>, r: Result, nregs: nat, i: nat)
    requires Built(f, c, code, r, nregs, i)
    ensures At(code, r, nregs, i, 0) && EndStaysReachable(code[i]) && 0 in ReachingEnd(code[i])
    ensures forall n :: 0 <= n < |code[i]| ==> Rewrite.Lowered(code[i][n].instr)
  {
    CompiledIsReady(f, c, code[i]);
    BuiltSizes(f, c, code, r, nregs, i);
    assert IsGraphOf(r.live[i].g, code[i]) && r.live[i].g == GraphOf(code[i]);
    hide Compiled, Allocated, GraphOf, IsGraphOf, PassComplete, Rewrite.Lowered, EndInReach, EndStaysReachable;
    AllWithin(code[i]);
  }

  lemma BuiltRunsInLockstep(ctx: Context, f: Func, c: Trace, code: seq<seq<Node>>, r: Result, nregs: nat, i: nat,
                            s: State, t: State, k: nat)
    requires Built(f, c, code, r, nregs, i) && i < |r.live| == |r.code| && s.pos == 0
    requires |r.live[i].ins| > 0 && Rewrite.Agree(r.names, r.colour, r.live[i].ins[0], s, t)
    ensures Rewrite.Lockstep(r.names, r.colour, r.live[i].ins, Run(ctx, code[i], s, k), Run(ctx, r.code[i], t, k))
  {
    BuiltIsAt(f, c, code, r, nregs, i);
    hide Compiled, Allocated, PassComplete, Rewrite.Lowered, Rewrite.Agree, Rewrite.Lockstep, Run, ReachingEnd,
      EndStaysReachable, BlockInFragment;
    AllocationPreservesMeaning(code, r, nregs, i, ctx, s, t, k);
  }

  lemma LockstepOutcomes(ctx: Context, names: seq<Name>, colour: seq<nat>, ins: seq<seq<Name>>,
                         nodes: seq<Node>, code: seq<Node>, s: State, t: State, o: Outcome)
    requires forall k: nat :: Rewrite.Lockstep(names, colour, ins, Run(ctx, nodes, s, k), Run(ctx, code, t, k))
    requires !o.Running?
    ensures Reaches(ctx, nodes, s, o) <==> Reaches(ctx, code, t, o)
  {
    hide Run;
    if k: nat :| Run(ctx, nodes, s, k) == o {
      assert Rewrite.Lockstep(names, colour, ins, Run(ctx, nodes, s, k), Run(ctx, code, t, k));
      assert Run(ctx, code, t, k) == o;
    }
    if k: nat :| Run(ctx, code, t, k) == o {
      assert Rewrite.Lockstep(names, colour, ins, Run(ctx, nodes, s, k), Run(ctx, code, t, k));
      assert Run(ctx, nodes, s, k) == o;
    }
  }

  lemma MeansAlike(body: seq<Stmt>, start: Store, s: State, t: State, o: Outcome)
    requires s.mem == t.mem && s.calls == t.calls
    ensures Means(body, start, s, o) <==> Means(body, start, t, o)
  {
    hide EndsWith;
    if end :| EndsWith(body, start, end) && Final(end, s) == o {
      assert Final(end, t) == o;
    }
    if end :| EndsWith(body, start, end) && Final(end, t) == o {
      assert Final(end, s) == o;
    }
  }

  /** From a symbolic start that agrees with the machine on what is live there, the allocated code and the
      program have the same outcomes. */
  lemma BuiltMeansProgram(ctx: Context, f: Func, c: Trace, code: seq<seq<Node>>, r: Result, nregs: nat, i: nat,
                          s: State, t: State, st: Store)
    requires Built(f, c, code, r, nregs, i) && s.pos == 0 && s.received == 0 && Matches(st, s)
    requires i < |r.live| == |r.code| && |r.live[i].ins| > 0
    requires Rewrite.Agree(r.names, r.colour, r.live[i].ins[0], s, t)
    ensures SameOutcomes(ctx, r.code[i], t, f.body, Bound(ctx, f.params, st))
  {
    var start := Bound(ctx, f.params, st);
    assert s.mem == t.mem && s.calls == t.calls;
    hide Compiled, BlockInFragment, Allocated, PassComplete, Matches, Bound, Run, EndsWith, Final, Reaches, Means,
      Rewrite.Agree, Rewrite.Lockstep;
    forall k: nat
      ensures Rewrite.Lockstep(r.names, r.colour, r.live[i].ins, Run(ctx, code[i], s, k), Run(ctx, r.code[i], t, k))
    {
      BuiltRunsInLockstep(ctx, f, c, code, r, nregs, i, s, t, k);
    }
    forall o: Outcome | !o.Running?
      ensures Reaches(ctx, r.code[i], t, o) <==> Means(f.body, start, t, o)
    {
      LockstepOutcomes(ctx, r.names, r.colour, r.live[i].ins, code[i], r.code[i], s, t, o);
      LoweredEndsWhenSourceEnds(ctx, f, c, code[i], s, st, o);
      MeansAlike(f.body, start, s, t, o);
    }
  }

  /** The variables' values in an environment. */
  function StoreOf(env: Env): Store {
    map n | n in env && n.Var? :: n.id := env[n]
  }

  lemma StoreOfMatches(s: State)
    ensures Matches(StoreOf(s.env), s)
  {
  }

  function EnvOf(st: Store): Env {
    map x | x in st :: Var(x) := st[x]
  }

  lemma EnvOfMatches(st: Store, s: State)
    requires s.env == EnvOf(st)
    ensures Matches(st, s)
  {
  }

  /** Whatever the hard registers hold when the function is entered, its allocated code does what the
      program does from some store: the one that gives variables read before they are assigned what
      their registers hold. */
  lemma MachineRunsProgram(ctx: Context, f: Func, c: Trace, code: seq<seq<Node>>, r: Result, nregs: nat, i: nat,
                           t: State) returns (st: Store)
    requires Built(f, c, code, r, nregs, i) && t.pos == 0 && t.received == 0
    ensures i < |r.code| && SameOutcomes(ctx, r.code[i], t, f.body, Bound(ctx, f.params, st))
  {
    BuiltIsAt(f, c, code, r, nregs, i);
    BuiltSizes(f, c, code, r, nregs, i);
    NodeNamed(code, r, nregs, i, 0);
    hide Compiled, BlockInFragment, Allocated, PassComplete, SameOutcomes, ReachingEnd, Matches, EndStaysReachable;
    var s := StartExists(r.names, r.colour, r.live[i].ins[0], t);
    StoreOfMatches(s);
    st := StoreOf(s.env);
    BuiltMeansProgram(ctx, f, c, code, r, nregs, i, s, t, st);
  }

  lemma NothingToAgree(names: seq<Name>, colour: seq<nat>, s: State, t: State)
    requires s == t.(env := s.env)
    ensures Rewrite.Agree(names, colour, [], s, t)
  {
  }

  /** When nothing is live at the start, no start matters: neither the registers nor the store. */
  lemma NothingLiveAtStart(ctx: Context, f: Func, c: Trace, code: seq<seq<Node>>, r: Result, nregs: nat, i: nat,
                           t: State, st: Store)
    requires Built(f, c, code, r, nregs, i) && t.pos == 0 && t.received == 0
    requires i < |r.live| && |r.live[i].ins| > 0 && r.live[i].ins[0] == []
    ensures i < |r.code| && SameOutcomes(ctx, r.code[i], t, f.body, Bound(ctx, f.params, st))
  {
    hide *;
    BuiltSizes(f, c, code, r, nregs, i);
    var s := t.(env := EnvOf(st));
    EnvOfMatches(st, s);
    NothingToAgree(r.names, r.colour, s, t);
    BuiltMeansProgram(ctx, f, c, code, r, nregs, i, s, t, st);
  }

  /** From `t`, `nodes` does what the function does from some store. */
  ghost predicate RunsFrom(ctx: Context, f: Func, nodes: seq<Node>, t: State) {
    exists st :: SameOutcomes(ctx, nodes, t, f.body, Bound(ctx, f.params, st))
  }

  /** Started anywhere, `nodes` does what the function does. */
  ghost predicate Implements(f: Func, nodes: seq<Node>) {
    forall ctx, t: State :: t.pos == 0 && t.received == 0 ==> RunsFrom(ctx, f, nodes, t)
  }

  lemma BuiltImplements(f: Func, c: Trace, code: seq<seq<Node>>, r: Result, nregs: nat, i: nat)
    requires Built(f, c, code, r, nregs, i)
    ensures i < |r.code| && Implements(f, r.code[i])
  {
    BuiltSizes(f, c, code, r, nregs, i);
    hide Built, SameOutcomes;
    forall ctx, t: State | t.pos == 0 && t.received == 0
      ensures RunsFrom(ctx, f, r.code[i], t)
    {
      var st := MachineRunsProgram(ctx, f, c, code, r, nregs, i, t);
    }
  }

  /** A function the generator is proved for and whose liveness pass is complete for `nodes`, its code. */
  ghost predicate Promised(f: Func, nodes: seq<Node>) {
    BlockInFragment(f.body) && (BlockSurelyReads(f.body) || PassComplete(nodes))
  }

  /** Compiles a program and puts its names in registers. Its functions always have graphs. When every
      register got a colour, the machine code of every function of the fragment whose liveness pass is
      complete does what the function does. A function that cannot avoid reading something is one. */
  method Compile(funcs: seq<Func>, nregs: nat, cost: Name -> int)
    returns (code: seq<seq<Node>>, r: Result, ghost traces: seq<Trace>, ghost attempt: Attempt)
    requires nregs >= 1
    ensures |code| == |traces| == |funcs| && AllGraphable(code)
    ensures forall i: nat :: i < |funcs| ==> Compiled(funcs[i], traces[i], code[i])
    ensures MentionsNames(code) ==> Attempted(code, nregs, cost, attempt) && EndsAs(r, nregs, cost, attempt)
    ensures MentionsNames(code) && NeverCore(code, nregs) ==> r.Done?
    ensures r.Done? ==> |r.code| == |funcs| && Allocated(code, r, nregs)
    ensures r.Done? ==> forall i: nat :: i < |funcs| ==> InRegisters(r.code[i], nregs)
    ensures r.Done? ==> forall i: nat :: i < |funcs| && Promised(funcs[i], code[i]) ==> Implements(funcs[i], r.code[i])
  {
    hide Graphable, Compiled, MentionsNames, NeverCore, PassComplete, BlockInFragment, BlockSurelyReads, Implements;
    hide Attempted, EndsAs;
    code, traces := CompileAll(funcs);
    forall i: nat | i < |funcs|
      ensures Graphable(code[i]) && ShapeOf(code[i])
    {
      CompiledIsReady(funcs[i], traces[i], code[i]);
      CompiledShape(funcs[i], traces[i], code[i]);
    }
    r, attempt := AllocateProgram(code, nregs, cost);
    if r.Done? {
      forall i: nat | i < |funcs|
        ensures InRegisters(r.code[i], nregs)
      {
        hide Allocated;
        BuiltInRegisters(funcs[i], traces[i], code, r, nregs, i);
      }
      forall i: nat | i < |funcs| && Promised(funcs[i], code[i])
        ensures Implements(funcs[i], r.code[i])
      {
        if BlockSurelyReads(funcs[i].body) {
          SureReadIsComplete(funcs[i], traces[i], code[i]);
        }
        hide Allocated;
        BuiltImplements(funcs[i], traces[i], code, r, nregs, i);
      }
    }
  }

  /** The code works in the first `nregs` hard registers. */
  ghost predicate InRegisters(nodes: seq<Node>, nregs: nat) {
    forall n :: 0 <= n < |nodes| ==> Rewrite.OnlyRegisters(nodes[n].instr, nregs)
  }

  lemma BuiltInRegisters(f: Func, c: Trace, code: seq<seq<Node>>, r: Result, nregs: nat, i: nat)
    requires r.Done? && Allocated(code, r, nregs) && i < |code| && Compiled(f, c, code[i])
    ensures |r.code| == |code| && InRegisters(r.code[i], nregs)
  {
    CompiledIsReady(f, c, code[i]);
    assert |r.code| == |code| && |r.code[i]| == |code[i]|;
    hide Allocated, Compiled, Rewrite.OnlyRegisters, Rewrite.Lowered, Rewrite.OffsetGiven, Rewrite.RegistersByColour;
    forall n | 0 <= n < |r.code[i]|
      ensures Rewrite.OnlyRegisters(r.code[i][n].instr, nregs)
    {
      HardRegistersOnly(code, r, nregs, i, n);
    }
  }

  ghost predicate ShapeOf(nodes: seq<Node>) {
    |nodes| > 0 && nodes[|nodes| - 1].instr.opcode.End?
  }

  lemma CompiledShape(f: Func, c: Trace, nodes: seq<Node>)
    requires Compiled(f, c, nodes)
    ensures ShapeOf(nodes)
  {
    hide Passes.Refines, GenFunc;
  }
}
