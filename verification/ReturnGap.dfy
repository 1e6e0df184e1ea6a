/** A program of the proved fragment that is miscompiled: x = 5; y = 7; if(1) { return x; }. Its one read comes
    after a test that the liveness walk reaches first. */
module ReturnGap {
  import opened Wrappers
  import opened Liveness
  import opened Mir
  import opened MirCfg
  import opened Source
  import opened CodeGen
  import opened CodeGenCorrect
  import opened DfsLiveness
  import opened Rewrite
  import opened Pipeline
  import opened Allocation
  import opened OneRegister
  import Compiler
  import FirstPass
  import Passes

  const X := Var(0)
  const Y := Var(1)

  const PROGRAM := Func([], [Assign(0, Num(5)), Assign(1, Num(7)), IfThen(Num(1), [Stmt.Return(Id(0))])])

  /** Its code, which the passes leave as it is. */
  function Code(): (nodes: seq<Node>)
    ensures |nodes| == 7
  {
    [ Node(0, Plain(Label, Absent, Absent, Absent), None),
      Node(1, Plain(Begin, Absent, Absent, Absent), None),
      Node(2, Plain(Move, Const(5), Absent, Loc(X, false)), None),
      Node(3, Plain(Move, Const(7), Absent, Loc(Y, false)), None),
      Node(4, Plain(If, Const(1), Const(0), Const(EQL)), Some(6)),
      Node(5, Plain(Opcode.Return, Loc(X, false), Absent, Absent), None),
      Node(6, Plain(End, Absent, Absent, Absent), None)]
  }

  function MoveNode(at: nat, n: int, x: nat): Node {
    Node(at, Plain(Move, Const(n), Absent, Loc(Var(x), false)), None)
  }

  lemma ConsCode(s: Stmt, rest: seq<Stmt>, at: nat, t: nat)
    ensures var a := GenStmt(s, at, t);
      var b := GenBlock(rest, at + |a.code|, a.temps);
      GenBlock([s] + rest, at, t) == Chunk(a.code + b.code, b.temps)
  {
    hide GenStmt, Sequential;
    assert ([s] + rest)[1..] == rest;
  }

  lemma SetCode(x: nat, n: int, at: nat, t: nat)
    ensures GenStmt(Assign(x, Num(n)), at, t) == Chunk([MoveNode(at, n, x)], t)
  {
  }

  lemma ReturnCode(x: nat, at: nat, t: nat)
    ensures GenBlock([Stmt.Return(Id(x))], at, t) == Chunk([ReturnNode(at, Loc(Var(x), false))], t)
  {
    assert GenStmt(Stmt.Return(Id(x)), at, t) == Chunk([ReturnNode(at, Loc(Var(x), false))], t);
    assert GenBlock([], at + 1, t) == Chunk([], t);
    hide GenStmt, GenBlock, Sequential;
    ConsCode(Stmt.Return(Id(x)), [], at, t);
  }

  lemma IfShape(e: Expr, body: seq<Stmt>, at: nat, t: nat)
    ensures var c := GenExpr(e, at, t);
      var test := at + |c.code|;
      var b := GenBlock(body, test + 1, c.temps);
      GenStmt(IfThen(e, body), at, t) ==
        Chunk(c.code + [TestNode(test, c.res, Some(test + 1 + |b.code|))] + b.code, b.temps)
  {
    hide GenExpr, GenBlock, Sequential;
  }

  lemma IfCode(x: nat, at: nat, t: nat)
    ensures GenStmt(IfThen(Num(1), [Stmt.Return(Id(x))]), at, t) ==
      Chunk([TestNode(at, Const(1), Some(at + 2)), ReturnNode(at + 1, Loc(Var(x), false))], t)
  {
    assert GenExpr(Num(1), at, t) == Gen([], Const(1), t);
    hide GenStmt, GenBlock, GenExpr, Sequential;
    ReturnCode(x, at + 1, t);
    IfShape(Num(1), [Stmt.Return(Id(x))], at, t);
    JoinsUp(TestNode(at, Const(1), Some(at + 2)), ReturnNode(at + 1, Loc(Var(x), false)));
  }

  lemma JoinsUp(a: Node, b: Node)
    ensures [] + [a] + [b] == [a, b]
  {
  }

  lemma BodyCode(t: nat)
    ensures GenBlock(PROGRAM.body, 2, t) == Chunk([MoveNode(2, 5, 0)] + ([MoveNode(3, 7, 1)]
      + ([TestNode(4, Const(1), Some(6)), ReturnNode(5, Loc(X, false))] + [])), t)
  {
    var body := PROGRAM.body;
    assert body == [body[0]] + ([body[1]] + ([body[2]] + []));
    assert GenBlock([], 6, t) == Chunk([], t);
    hide GenStmt, GenBlock, Sequential;
    SetCode(0, 5, 2, t);
    SetCode(1, 7, 3, t);
    IfCode(0, 4, t);
    ConsCode(body[0], [body[1]] + ([body[2]] + []), 2, t);
    ConsCode(body[1], [body[2]] + [], 3, t);
    ConsCode(body[2], [], 4, t);
  }

  lemma FuncShape(params: seq<nat>, body: seq<Stmt>, t0: nat)
    ensures var b := GenBlock(body, |params| + 2, t0).code;
      GenFunc(params, body, t0) ==
        Prologue(params) + b + [Node(|params| + 2 + |b|, Plain(End, Absent, Absent, Absent), None)]
  {
    hide GenBlock, Prologue, Sequential;
  }

  lemma ProgramCode(t0: nat)
    ensures GenFunc(PROGRAM.params, PROGRAM.body, t0) == Code()
  {
    hide GenBlock, GenFunc, Sequential;
    FuncShape([], PROGRAM.body, t0);
    BodyCode(t0);
    CodeInParts();
  }

  lemma CodeInParts()
    ensures Prologue([]) + ([MoveNode(2, 5, 0)] + ([MoveNode(3, 7, 1)]
        + ([TestNode(4, Const(1), Some(6)), ReturnNode(5, Loc(X, false))] + [])))
      + [Node(6, Plain(End, Absent, Absent, Absent), None)] == Code()
  {
  }

  lemma CodeIsFinished()
    ensures Passes.Every(Code(), Passes.Finished)
  {
  }

  lemma CodeTarget()
    ensures Target(Code(), Code()[4]) == 6
  {
    FindIs(Code(), 6, 6);
  }

  lemma CodeSuccessors(i: nat)
    requires i < 7
    ensures Successors(Code(), i) == [[1], [2], [3], [4], [5, 6], [6], []][i]
  {
    CodeTarget();
    hide Target;
  }

  lemma CodeUses(i: nat, v: Name)
    requires i < 7
    ensures Reads(Code()[i].instr, v) <==> i == 5 && v == X
  {
  }

  /** The predecessors of END, in the order their edges are added: the test comes before the RETURN. */
  lemma {:induction false} TestIsFirst(i: nat)
    requires 5 <= i <= 7
    ensures Predecessors(Code(), 6, i) != [] && Predecessors(Code(), 6, i)[0] == 4
  {
    hide Code;
    CodeSuccessors(i - 1);
    if i == 5 {
      NoneBefore(4);
      assert Count([5, 6], 6) == 1 by {
        assert [5, 6][..1] == [5] && [5][..0] == [];
        assert Count([5], 6) == 0;
      }
    } else {
      TestIsFirst(i - 1);
    }
  }

  lemma {:induction false} NoneBefore(i: nat)
    requires i <= 4
    ensures Predecessors(Code(), 6, i) == []
  {
    if i > 0 {
      hide Code;
      NoneBefore(i - 1);
      CodeSuccessors(i - 1);
      assert Count([i], 6) == 0 by {
        assert [i][..0] == [];
      }
    }
  }

  lemma CodeIsGraphable()
    ensures Graphable(Code()) && IsGraphOf(GraphOf(Code()), Code())
  {
    CodeTarget();
    hide Target, IsGraphOf, GraphOf;
    GraphOfIsValid(Code());
  }

  lemma Edges()
    ensures IsGraphOf(GraphOf(Code()), Code())
    ensures var g := GraphOf(Code());
      g.Edge(4, 5) && g.Edge(4, 6) && g.Edge(5, 6) && forall n: nat :: g.Edge(n, 5) ==> n == 4
  {
    CodeIsGraphable();
    hide Code, GraphOf, Successors;
    forall i: nat | i < 7
      ensures GraphOf(Code()).succ[i] == [[1], [2], [3], [4], [5, 6], [6], []][i]
    {
      CodeSuccessors(i);
    }
  }

  lemma UseLists(g: FlowGraph, n: nat)
    requires g == GraphOf(Code()) && n < 7
    ensures g.use[n] != [] <==> n == 5
  {
    SourcesAreUses(Code()[n].instr);
    hide Uses;
    assert g.use[n] == Uses(Code()[n].instr);
  }

  lemma StaysSilent()
    ensures Silent(Code())
  {
    Edges();
    var g := GraphOf(Code());
    forall n: nat | n < 7
      ensures g.use[n] != [] <==> n == 5
    {
      UseLists(g, n);
    }
    TestIsFirst(7);
    assert g.pred[6] == Predecessors(Code(), 6, 7);
    hide GraphOf, Code, FirstPassReports, Predecessors;
    FirstPass.LateUseIsSilent(g, 6, 4, 5);
  }

  lemma UseFollowsEdge()
    ensures GraphOf(Code()).Valid() && UseAfterEdge(GraphOf(Code()), ReachingEnd(Code()))
  {
    Edges();
    UseLists(GraphOf(Code()), 5);
    var g := GraphOf(Code());
    hide GraphOf, Code;
    assert Walk(g, [4, 6]) && Walk(g, [5, 6]);
    assert [4, 6][0] == 4 && [5, 6][0] == 5 && [4, 6][1] == 6 && [5, 6][1] == 6;
    assert CanReach(g, 6, 4) && CanReach(g, 6, 5);
  }

  /** The liveness pass stops too early. */
  lemma PassStopsEarly()
    ensures Silent(Code()) && !PassComplete(Code())
  {
    StaysSilent();
    UseFollowsEdge();
    hide GraphOf, Code, ReachingEnd, FirstPassReports, UseAfterEdge;
  }

  lemma CodeIsSilent()
    ensures AllSilent([Code()])
  {
    StaysSilent();
    forall i: nat, v, w | i < 7 && Reads(Code()[i].instr, v) && Reads(Code()[i].instr, w)
      ensures v == w
    {
      CodeUses(i, v);
      CodeUses(i, w);
    }
    hide Silent, Code, Reads;
  }

  lemma BothMentioned()
    ensures Mentioned([Code()], X) && Mentioned([Code()], Y)
  {
    assert MentionedAt([Code()][0][2].instr, X) && MentionedAt([Code()][0][3].instr, Y);
  }

  // ----- What it does -----

  /** The program returns 5, from any store. */
  lemma ProgramReturnsFive(st: Store, end: Flow)
    requires EndsWith(PROGRAM.body, st, end)
    ensures end == Leave(5)
  {
    var fuel: nat :| ExecBlock(false, PROGRAM.body, st, fuel) == Some(end);
    var body, inner := PROGRAM.body, [Stmt.Return(Id(0))];
    var s1 := st[0 := 5];
    var s2 := s1[1 := 7];
    assert Exec(false, body[0], st, fuel) == Some(Next(s1));
    assert Exec(false, body[1], s1, fuel) == Some(Next(s2));
    assert Exec(false, inner[0], s2, fuel) == Some(Leave(5));
    assert ExecBlock(false, inner, s2, fuel) == Some(Leave(5));
    assert Exec(false, body[2], s2, fuel) == Some(Leave(5));
    assert body[1..][0] == body[1] && body[1..][1..][0] == body[2];
    assert ExecBlock(false, body[1..][1..], s2, fuel) == Some(Leave(5));
    assert ExecBlock(false, body[1..], s1, fuel) == Some(Leave(5));
  }

  /** With x and y in the same register the machine code returns 7. */
  lemma MachineReturnsSeven(ctx: Context, names: seq<Name>, colour: seq<nat>, t: State)
    requires X in names && Y in names && |colour| == |names| && forall i :: 0 <= i < |colour| ==> colour[i] == 1
    requires t.pos == 0
    ensures Reaches(ctx, Rewritten(names, colour, Code()), t, Returned(7, t.mem, t.calls))
  {
    var nodes := Rewritten(names, colour, Code());
    FirstRegister(names, colour, X);
    FirstRegister(names, colour, Y);
    assert nodes[0].instr.opcode.Label? && nodes[1].instr.opcode.Begin?;
    assert nodes[2].instr == Plain(Move, Const(5), Absent, Temp(0));
    assert nodes[3].instr == Plain(Move, Const(7), Absent, Temp(0));
    assert nodes[4].instr == Plain(If, Const(1), Const(0), Const(EQL));
    assert nodes[5].instr == Plain(Opcode.Return, Temp(0), Absent, Absent);
    hide Rewritten, HardOperand, SymOperand;
    LastMoveReturned(ctx, nodes, t);
  }

  lemma LastMoveReturned(ctx: Context, nodes: seq<Node>, t: State)
    requires |nodes| == 7 && nodes[0].instr.opcode.Label? && nodes[1].instr.opcode.Begin? && t.pos == 0
    requires nodes[2].instr == Plain(Move, Const(5), Absent, Temp(0))
    requires nodes[3].instr == Plain(Move, Const(7), Absent, Temp(0))
    requires nodes[4].instr == Plain(If, Const(1), Const(0), Const(EQL))
    requires nodes[5].instr == Plain(Opcode.Return, Temp(0), Absent, Absent)
    ensures Reaches(ctx, nodes, t, Returned(7, t.mem, t.calls))
  {
    var t3 := t.(pos := 3, env := t.env[Reg(0) := 5]);
    var t4 := t.(pos := 4, env := t.env[Reg(0) := 5][Reg(0) := 7]);
    var t5 := t4.(pos := 5);
    assert Mir.Step(ctx, nodes, t) == Running(t.(pos := 1));
    assert Mir.Step(ctx, nodes, t.(pos := 1)) == Running(t.(pos := 2));
    assert Mir.Step(ctx, nodes, t.(pos := 2)) == Running(t3);
    assert Mir.Step(ctx, nodes, t3) == Running(t4);
    assert Mir.Step(ctx, nodes, t4) == Running(t5);
    assert Mir.Step(ctx, nodes, t5) == Returned(7, t.mem, t.calls);
    hide Effect, Mir.Step;
    RunThen(ctx, nodes, t, 1, 5);
    RunThen(ctx, nodes, t.(pos := 1), 1, 4);
    RunThen(ctx, nodes, t.(pos := 2), 1, 3);
    RunThen(ctx, nodes, t3, 1, 2);
    RunThen(ctx, nodes, t4, 1, 1);
    assert Run(ctx, nodes, t, 6) == Returned(7, t.mem, t.calls);
  }

  /** Every allocation of the program's code, with however many registers, returns something else. */
  lemma EveryAllocationIsWrong(ctx: Context, r: Result, nregs: nat, t: State)
    requires nregs >= 1 && r.Done? && Allocated([Code()], r, nregs) && t.pos == 0
    ensures |r.code| == 1 && Reaches(ctx, r.code[0], t, Returned(7, t.mem, t.calls))
    ensures !Compiler.RunsFrom(ctx, PROGRAM, r.code[0], t)
  {
    OneFunction(Code(), r, nregs);
    CodeIsSilent();
    SameColour([Code()], r, nregs);
    BothMentioned();
    MentionedIsNamed([Code()], r, nregs, X);
    MentionedIsNamed([Code()], r, nregs, Y);
    hide Code, Allocated, AllSilent, Mentioned, Rewritten, Reaches;
    MachineReturnsSeven(ctx, r.names, r.colour, t);
    forall st
      ensures !Compiler.SameOutcomes(ctx, r.code[0], t, PROGRAM.body, Bound(ctx, PROGRAM.params, st))
    {
      NeverSeven(ctx, r.code[0], t, Bound(ctx, PROGRAM.params, st));
    }
  }

  lemma NeverSeven(ctx: Context, nodes: seq<Node>, t: State, start: Store)
    requires Reaches(ctx, nodes, t, Returned(7, t.mem, t.calls))
    ensures !Compiler.SameOutcomes(ctx, nodes, t, PROGRAM.body, start)
  {
    if end :| EndsWith(PROGRAM.body, start, end) && Final(end, t) == Returned(7, t.mem, t.calls) {
      ProgramReturnsFive(start, end);
      assert false;
    }
    hide Reaches, EndsWith;
    assert !Means(PROGRAM.body, start, t, Returned(7, t.mem, t.calls));
  }

  /** The compiler does compile the program, whatever the number of registers, and gets it wrong. */
  method Miscompile(nregs: nat, cost: Name -> int) returns (machine: seq<Node>)
    requires nregs >= 1
    ensures BlockInFragment(PROGRAM.body) && !Compiler.Implements(PROGRAM, machine)
    ensures forall ctx, t: State :: t.pos == 0 ==> Reaches(ctx, machine, t, Returned(7, t.mem, t.calls))
  {
    hide Allocated, NeverCore, Mentioned, AllSilent, Compiler.Implements, Reaches, Code, Compiler.Promised, Compiled;
    hide Attempted, EndsAs, Compiler.InRegisters, AllGraphable;
    var code, r, traces, _ := Compiler.Compile([PROGRAM], nregs, cost);
    OnlyCode(code, traces);
    CodeIsSilent();
    SilentNeverHasCore([Code()], nregs);
    BothMentioned();
    assert MentionsNames(code);
    machine := r.code[0];
    AllWrong(r, nregs);
  }

  lemma AllWrong(r: Result, nregs: nat)
    requires nregs >= 1 && r.Done? && Allocated([Code()], r, nregs)
    ensures |r.code| == 1 && !Compiler.Implements(PROGRAM, r.code[0])
    ensures forall ctx, t: State :: t.pos == 0 ==> Reaches(ctx, r.code[0], t, Returned(7, t.mem, t.calls))
  {
    OneFunction(Code(), r, nregs);
    hide *;
    forall ctx, t: State | t.pos == 0
      ensures Reaches(ctx, r.code[0], t, Returned(7, t.mem, t.calls))
      ensures !Compiler.RunsFrom(ctx, PROGRAM, r.code[0], t)
    {
      EveryAllocationIsWrong(ctx, r, nregs, t);
    }
    NotImplemented(r.code[0]);
  }

  lemma NotImplemented(nodes: seq<Node>)
    requires forall ctx, t: State :: t.pos == 0 ==> !Compiler.RunsFrom(ctx, PROGRAM, nodes, t)
    ensures !Compiler.Implements(PROGRAM, nodes)
  {
    hide Compiler.RunsFrom;
    var t := State(0, map[], map[], 0, []);
    var ctx := Context(0, _ => 0, _ => 0, _ => 0, (_, m) => (0, m), (_, _) => 0);
    assert t.pos == 0 && t.received == 0 && !Compiler.RunsFrom(ctx, PROGRAM, nodes, t);
  }

  lemma OnlyCode(code: seq<seq<Node>>, traces: seq<Trace>)
    requires |code| == |traces| == 1 && Compiled(PROGRAM, traces[0], code[0])
    ensures code == [Code()]
  {
    ProgramCode(traces[0].t0);
    CodeIsFinished();
    hide Code, GenFunc, Passes.Refines;
  }
}
