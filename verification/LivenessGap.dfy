/** A function the one-pass finish of the liveness loop miscompiles: x = 5; y = 7; while(1) f(x). */
module LivenessGap {
  import opened Wrappers
  import opened Liveness
  import opened Mir
  import opened MirCfg
  import opened DfsLiveness
  import opened Rewrite
  import opened Allocation
  import opened OneRegister
  import FirstPass

  const X := Var(0)
  const Y := Var(1)
  const CALLEE := Loc(Var(2), false)

  function Code(): (nodes: seq<Node>)
    ensures |nodes| == 8
  {
    [ Node(0, Plain(Label, Absent, Absent, Absent), None),
      Node(1, Plain(Begin, Absent, Absent, Absent), None),
      Node(2, Plain(Move, Const(5), Absent, Loc(X, false)), None),
      Node(3, Plain(Move, Const(7), Absent, Loc(Y, false)), None),
      Node(4, Plain(If, Const(1), Const(0), Const(EQL)), Some(7)),
      Node(5, Instr(Call, CALLEE, Absent, Absent, [Loc(X, false)]), None),
      Node(6, Plain(Jump, Absent, Absent, Absent), Some(4)),
      Node(7, Plain(End, Absent, Absent, Absent), None)]
  }

  lemma Targets()
    ensures Target(Code(), Code()[4]) == 7 && Target(Code(), Code()[6]) == 4
  {
    FindIs(Code(), 7, 7);
    FindIs(Code(), 4, 4);
  }

  lemma CodeSuccessors(i: nat)
    requires i < 8
    ensures Successors(Code(), i) == [[1], [2], [3], [4], [5, 7], [6], [4], []][i]
  {
    Targets();
    hide Target;
  }

  lemma CodeUses(i: nat, v: Name)
    requires i < 8
    ensures Reads(Code()[i].instr, v) <==> i == 5 && v == X
    ensures DefOf(Code()[i].instr) == if i == 2 then Some(X) else if i == 3 then Some(Y) else None
  {
    if i == 5 && v == X {
      var c := Code()[5].instr;
      assert c.args[0] == Loc(X, false);
      assert Mentions(c.args[0], v);
    }
  }

  lemma CodeIsGraphable()
    ensures Graphable(Code()) && IsGraphOf(GraphOf(Code()), Code())
  {
    Targets();
    hide Target, IsGraphOf, GraphOf;
    GraphOfIsValid(Code());
  }

  lemma Edges()
    ensures IsGraphOf(GraphOf(Code()), Code())
    ensures var g := GraphOf(Code());
      && g.Edge(0, 1) && g.Edge(1, 2) && g.Edge(2, 3) && g.Edge(3, 4) && g.Edge(4, 5) && g.Edge(4, 7)
      && g.Edge(5, 6) && g.Edge(6, 4) && forall n: nat :: g.Edge(n, 5) || g.Edge(n, 7) ==> n == 4
  {
    CodeIsGraphable();
    hide Code, GraphOf, Successors;
    forall i: nat | i < 8
      ensures GraphOf(Code()).succ[i] == [[1], [2], [3], [4], [5, 7], [6], [4], []][i]
    {
      CodeSuccessors(i);
    }
  }

  lemma Reaches(g: FlowGraph, w: seq<nat>)
    requires Walk(g, w)
    ensures w[0] in Reaching(g, w[|w| - 1])
  {
  }

  lemma SuffixWalks(g: FlowGraph, w: seq<nat>, k: nat)
    requires Walk(g, w) && k < |w|
    ensures Walk(g, w[k..])
  {
  }

  const WALK: seq<nat> := [0, 1, 2, 3, 4, 5, 6, 4, 7]

  lemma WholeWalk()
    ensures Walk(GraphOf(Code()), WALK) && Walk(GraphOf(Code()), [7]) && Exit(GraphOf(Code())) == 7
  {
    Edges();
    hide GraphOf, Code;
  }

  lemma AllReach(n: nat)
    requires n < 8
    ensures n in ReachingEnd(Code())
  {
    WholeWalk();
    var g := GraphOf(Code());
    hide GraphOf, Code, Walk, Reaching;
    if n == 7 {
      Reaches(g, [7]);
    } else {
      SuffixWalks(g, WALK, n);
      Reaches(g, WALK[n..]);
    }
  }

  lemma CodeReadsOneName()
    ensures ReadsOneName(Code())
  {
    forall i: nat, v, w | i < 8 && Reads(Code()[i].instr, v) && Reads(Code()[i].instr, w)
      ensures v == w
    {
      CodeUses(i, v);
      CodeUses(i, w);
    }
  }

  lemma UseLists(g: FlowGraph, n: nat)
    requires g == GraphOf(Code()) && n < 8
    ensures g.use[n] != [] <==> n == 5
  {
    SourcesAreUses(Code()[n].instr);
    hide Uses;
    assert Code()[5].instr.args[0].Loc?;
    assert g.use[n] == Uses(Code()[n].instr);
  }

  lemma StaysSilent()
    ensures Silent(Code())
  {
    Edges();
    var g := GraphOf(Code());
    forall n: nat | n < 8
      ensures g.use[n] != [] <==> n == 5
    {
      UseLists(g, n);
    }
    assert 4 in g.pred[7] && g.pred[7][0] in g.pred[7];
    assert g.Edge(g.pred[7][0], 7);
    hide GraphOf, Code, FirstPassReports;
    FirstPass.LateUseIsSilent(g, 7, 4, 5);
  }

  lemma UseFollowsEdge()
    ensures GraphOf(Code()).Valid() && UseAfterEdge(GraphOf(Code()), ReachingEnd(Code()))
  {
    Edges();
    AllReach(4);
    AllReach(5);
    UseLists(GraphOf(Code()), 5);
    hide GraphOf, Code, ReachingEnd;
  }

  /** The first pass reports nothing although the call's use comes after an edge. */
  lemma PassStopsEarly()
    ensures Silent(Code()) && !PassComplete(Code())
  {
    StaysSilent();
    UseFollowsEdge();
    hide GraphOf, Code, ReachingEnd, FirstPassReports, UseAfterEdge;
  }

  lemma CodeIsSilent()
    ensures AllSilent([Code()])
  {
    PassStopsEarly();
    CodeReadsOneName();
    hide Silent, ReadsOneName, Code;
  }

  /** Nothing interferes, so one register is enough for the allocator. */
  lemma CodeNeverHasCore(nregs: nat)
    requires nregs >= 1
    ensures NeverCore([Code()], nregs)
  {
    CodeIsSilent();
    hide AllSilent, NeverCore;
    SilentNeverHasCore([Code()], nregs);
  }

  lemma BothMentioned()
    ensures Mentioned([Code()], X) && Mentioned([Code()], Y)
  {
    CodeUses(2, X);
    CodeUses(3, Y);
    assert MentionedAt([Code()][0][2].instr, X) && MentionedAt([Code()][0][3].instr, Y);
  }

  // ----- What it does -----

  const START := State(0, map[], map[], 0, [])

  /** The first thing the function does to the outside is to call f with `v`. */
  ghost predicate CallsWith(ctx: Context, nodes: seq<Node>, v: int) {
    var o := Run(ctx, nodes, START, 6);
    o.Running? && o.s.calls == [CallEvent(CALLEE, [v])]
  }

  /** The code up to the call, with x and y in `a` and `b`. */
  lemma RunsToCall(ctx: Context, nodes: seq<Node>, a: Name, b: Name)
    requires |nodes| == 8 && nodes[0].instr.opcode.Label? && nodes[1].instr.opcode.Begin?
    requires nodes[2].instr == Plain(Move, Const(5), Absent, Loc(a, false))
    requires nodes[3].instr == Plain(Move, Const(7), Absent, Loc(b, false))
    requires nodes[4].instr == Plain(If, Const(1), Const(0), Const(EQL))
    requires nodes[5].instr == Instr(Call, CALLEE, Absent, Absent, [Loc(a, false)])
    ensures CallsWith(ctx, nodes, if a == b then 7 else 5)
  {
    var s := START;
    var s3 := State(3, map[a := 5], map[], 0, []);
    var s4 := State(4, map[a := 5][b := 7], map[], 0, []);
    var s5 := s4.(pos := 5);
    assert Mir.Step(ctx, nodes, s) == Running(s.(pos := 1));
    assert Mir.Step(ctx, nodes, s.(pos := 1)) == Running(s.(pos := 2));
    assert Mir.Step(ctx, nodes, s.(pos := 2)) == Running(s3);
    assert Mir.Step(ctx, nodes, s3) == Running(s4);
    assert Mir.Step(ctx, nodes, s4) == Running(s5);
    CallHappens(ctx, nodes[5].instr, s5, if a == b then 7 else 5);
    hide Effect;
    RunThen(ctx, nodes, s, 1, 5);
    RunThen(ctx, nodes, s.(pos := 1), 1, 4);
    RunThen(ctx, nodes, s.(pos := 2), 1, 3);
    RunThen(ctx, nodes, s3, 1, 2);
    RunThen(ctx, nodes, s4, 1, 1);
  }

  lemma CallHappens(ctx: Context, i: Instr, s: State, v: int)
    requires i.opcode.Call? && i.op0 == CALLEE && i.op2.Absent? && |i.args| == 1 && Value(s, i.args[0]) == v
    requires s.calls == []
    ensures Effect(ctx, i, s).calls == [CallEvent(CALLEE, [v])]
  {
    assert Values(s, i.args) == [v];
  }

  lemma OriginalCallsWithFive(ctx: Context)
    ensures CallsWith(ctx, Code(), 5)
  {
    hide CallsWith;
    RunsToCall(ctx, Code(), X, Y);
  }

  /** With x and y in the same register the rewritten function passes 7. */
  lemma RewrittenCallsWithSeven(ctx: Context, names: seq<Name>, colour: seq<nat>)
    requires X in names && Y in names && |colour| == |names| && forall i :: 0 <= i < |colour| ==> colour[i] == 1
    ensures CallsWith(ctx, Rewritten(names, colour, Code()), 7)
  {
    var nodes := Rewritten(names, colour, Code());
    FirstRegister(names, colour, X);
    FirstRegister(names, colour, Y);
    assert nodes[2].instr == Plain(Move, Const(5), Absent, Temp(0));
    assert nodes[3].instr == Plain(Move, Const(7), Absent, Temp(0));
    assert nodes[5].instr.args == [Temp(0)];
    hide HardOperand, SymOperand, CallsWith;
    RunsToCall(ctx, nodes, Reg(0), Reg(0));
  }

  lemma CodeIsLowered()
    ensures forall n :: 0 <= n < 8 ==> Lowered(Code()[n].instr)
  {
  }

  lemma ReachesEnd()
    ensures EndStaysReachable(Code()) && 0 in ReachingEnd(Code())
  {
    AllReach(0);
    CodeIsGraphable();
    var g := GraphOf(Code());
    hide GraphOf, Code;
    forall n: nat, m: nat | n in ReachingEnd(Code()) && g.Edge(n, m)
      ensures m in ReachingEnd(Code())
    {
      var k :| 0 <= k < |g.succ[n]| && g.succ[n][k] == m;
      AllReach(m);
    }
  }

  lemma StartAgrees(names: seq<Name>, colour: seq<nat>, live: seq<Name>)
    ensures Agree(names, colour, live, START, START)
  {
  }

  /** For every allocation of the function, with however many registers: all that
      AllocationPreservesMeaning asks for holds but the completeness of the liveness pass, and the two
      runs are not in lockstep: the rewritten function calls f(7) where the original calls f(5). */
  lemma GapBreaksMeaning(ctx: Context, r: Result, nregs: nat)
    requires nregs >= 1 && r.Done? && Allocated([Code()], r, nregs)
    ensures |r.code| == |r.live| == 1 && |r.live[0].ins| == 8
    ensures !PassComplete(Code()) && EndStaysReachable(Code()) && 0 in ReachingEnd(Code())
    ensures forall n :: 0 <= n < 8 ==> Lowered(Code()[n].instr)
    ensures Agree(r.names, r.colour, r.live[0].ins[0], START, START)
    ensures CallsWith(ctx, Code(), 5) && CallsWith(ctx, r.code[0], 7)
  {
    hide *;
    OneFunction(Code(), r, nregs);
    PassStopsEarly();
    CodeIsSilent();
    SameColour([Code()], r, nregs);
    BothMentioned();
    MentionedIsNamed([Code()], r, nregs, X);
    MentionedIsNamed([Code()], r, nregs, Y);
    CodeIsLowered();
    ReachesEnd();
    StartAgrees(r.names, r.colour, r.live[0].ins[0]);
    OriginalCallsWithFive(ctx);
    RewrittenCallsWithSeven(ctx, r.names, r.colour);
  }

  /** The allocator does allocate it, whatever the number of registers, and so miscompiles it. */
  method AllocateCode(nregs: nat, cost: Name -> int) returns (r: Result)
    requires nregs >= 1
    ensures r.Done? && Allocated([Code()], r, nregs) && |r.code| == 1
    ensures forall ctx :: CallsWith(ctx, Code(), 5) && CallsWith(ctx, r.code[0], 7)
  {
    CodeIsGraphable();
    CodeNeverHasCore(nregs);
    BothMentioned();
    hide Graphable, NeverCore, CallsWith, Allocated, Mentioned, Attempted, EndsAs;
    ghost var attempt;
    r, attempt := AllocateProgram([Code()], nregs, cost);
    forall ctx
      ensures |r.code| == 1 && CallsWith(ctx, Code(), 5) && CallsWith(ctx, r.code[0], 7)
    {
      GapBreaksMeaning(ctx, r, nregs);
    }
  }
}
