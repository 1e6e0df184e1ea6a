/** In generated code END can be reached from every node. */
module GeneratedFlow {
  import opened Wrappers
  import opened Mir
  import opened Source
  import opened CodeGen
  import opened CodeGenCorrect
  import opened ControlFlow

  ghost predicate AllFall(code: seq<Node>) {
    forall q :: 0 <= q < |code| ==> Falls(code[q].instr.opcode)
  }

  lemma TailFalls(e: Expr, at: nat, a: Operand, b: Operand, r: nat, d: Operand)
    requires Compound(e)
    ensures AllFall(Tail(e, at, a, b, r, d))
  {
  }

  lemma {:induction false} OperandsFall(e: Expr, at: nat, t: nat)
    requires Compound(e)
    ensures AllFall(GenOperands(e, at, t).code)
    decreases e, 0
  {
    hide Sequential, GenExpr, Falls;
    var a := GenExpr(e.l, at, t);
    ExprFalls(e.l, at, t);
    ExprFalls(e.r, at + |a.code|, a.temps);
  }

  lemma {:induction false} ExprFalls(e: Expr, at: nat, t: nat)
    ensures AllFall(GenExpr(e, at, t).code)
    decreases e, 1
  {
    hide Sequential, GenOperands, Tail, Falls;
    if Compound(e) {
      var o := GenOperands(e, at, t);
      OperandsFall(e, at, t);
      TailFalls(e, at + |o.code|, o.a, o.b, o.temps, Temp(o.temps));
    }
  }

  lemma AssignFalls(x: nat, e: Expr, at: nat, t: nat)
    ensures AllFall(GenAssign(x, e, at, t).code)
  {
    hide Sequential, GenOperands, Tail, GenExpr;
    if Compound(e) {
      var o := GenOperands(e, at, t);
      OperandsFall(e, at, t);
      TailFalls(e, at + |o.code|, o.a, o.b, o.temps, VarOperand(x));
      hide Falls;
    }
  }

  lemma FallingRegion(nodes: seq<Node>, code: seq<Node>, at: nat)
    requires Located(nodes, code, at) && AllFall(code) && at + |code| < |nodes|
    ensures Region(nodes, at, at + |code|)
  {
    forall p | at <= p < at + |code|
      ensures Falls(nodes[p].instr.opcode)
    {
      LocatedNode(nodes, code, at, p - at);
    }
    RegionFalls(nodes, at, at + |code|);
  }

  /** A condition up to its test, and past it. */
  lemma CondRegion(nodes: seq<Node>, e: Expr, at: nat, t: nat)
    requires Located(nodes, GenExpr(e, at, t).code, at)
    requires var test := at + |GenExpr(e, at, t).code|; test + 1 < |nodes| && nodes[test].instr.opcode.If?
    ensures var test := at + |GenExpr(e, at, t).code|; Region(nodes, at, test) && Region(nodes, at, test + 1)
  {
    ExprFalls(e, at, t);
    hide Sequential, GenExpr;
    var test := at + |GenExpr(e, at, t).code|;
    FallingRegion(nodes, GenExpr(e, at, t).code, at);
    RegionFalls(nodes, test, test + 1);
    RegionThen(nodes, at, test, test + 1);
  }

  lemma JumpTarget(nodes: seq<Node>, p: nat, dest: nat)
    requires Sequential(nodes, 0) && p < |nodes| && nodes[p].jump == Some(dest) && dest <= |nodes|
    ensures Target(nodes, nodes[p]) == dest
  {
    FindPosition(nodes, dest);
  }

  lemma {:induction false} IfRegion(nodes: seq<Node>, e: Expr, body: seq<Stmt>, at: nat, t: nat)
    requires Sequential(nodes, 0) && Located(nodes, GenStmt(IfThen(e, body), at, t).code, at)
    requires at + |GenStmt(IfThen(e, body), at, t).code| < |nodes|
    ensures Region(nodes, at, at + |GenStmt(IfThen(e, body), at, t).code|)
    decreases body, 1
  {
    hide Sequential, Located, GenExpr, GenBlock, Region;
    var c := GenExpr(e, at, t);
    var test := at + |c.code|;
    var b := GenBlock(body, test + 1, c.temps);
    var n := TestNode(test, c.res, Some(test + 1 + |b.code|));
    LocatedParts(nodes, c.code + [n], b.code, at);
    LocatedParts(nodes, c.code, [n], at);
    LocatedNode(nodes, [n], test, 0);
    WithinList(nodes, b.code, test + 1);
    CondRegion(nodes, e, at, t);
    BlockRegion(nodes, body, test + 1, c.temps);
    RegionThen(nodes, at, test + 1, test + 1 + |b.code|);
  }

  lemma {:induction false} WhileRegion(nodes: seq<Node>, e: Expr, body: seq<Stmt>, at: nat, t: nat)
    requires Sequential(nodes, 0) && Located(nodes, GenStmt(While(e, body), at, t).code, at)
    requires at + |GenStmt(While(e, body), at, t).code| < |nodes|
    ensures Region(nodes, at, at + |GenStmt(While(e, body), at, t).code|)
    decreases body, 1
  {
    hide Sequential, Located, GenExpr, GenBlock, Region;
    var c := GenExpr(e, at, t);
    var test := at + |c.code|;
    var b := GenBlock(body, test + 1, c.temps);
    var back := test + 1 + |b.code|;
    LoopParts(nodes, c.code, TestNode(test, c.res, Some(back + 1)), b.code, JumpNode(back, Some(at)), at);
    CondRegion(nodes, e, at, t);
    BlockRegion(nodes, body, test + 1, c.temps);
    JumpTarget(nodes, test, back + 1);
    JumpTarget(nodes, back, at);
    RegionOfLoop(nodes, at, test, back);
  }

  lemma {:induction false} DoRegion(nodes: seq<Node>, body: seq<Stmt>, e: Expr, at: nat, t: nat)
    requires Sequential(nodes, 0) && Located(nodes, GenStmt(Do(body, e), at, t).code, at)
    requires at + |GenStmt(Do(body, e), at, t).code| < |nodes|
    ensures Region(nodes, at, at + |GenStmt(Do(body, e), at, t).code|)
    decreases body, 1
  {
    hide Sequential, Located, GenExpr, GenBlock, Region;
    var b := GenBlock(body, at, t);
    var c := GenExpr(e, at + |b.code|, b.temps);
    var test := at + |b.code| + |c.code|;
    DoParts(nodes, b.code, c.code, TestNode(test, c.res, Some(test + 2)), JumpNode(test + 1, Some(at)), at);
    BlockRegion(nodes, body, at, t);
    CondRegion(nodes, e, at + |b.code|, b.temps);
    RegionThen(nodes, at, at + |b.code|, test);
    RegionFalls(nodes, test + 1, test + 1);
    JumpTarget(nodes, test, test + 2);
    JumpTarget(nodes, test + 1, at);
    RegionOfLoop(nodes, at, test, test + 1);
  }

  /** Where the parts of a FOR stand. */
  lemma ForLocated(nodes: seq<Node>, i: Chunk, c: Gen, b: Chunk, n: Chunk, at: nat)
    requires Sequential(i.code, at) && Sequential(c.code, at + |i.code|)
    requires Sequential(b.code, at + |i.code| + |c.code| + 1)
    requires Sequential(n.code, at + |i.code| + |c.code| + 1 + |b.code|)
    requires Located(nodes, ForChunk(i, c, b, n, at).code, at)
    ensures
      var start := at + |i.code|;
      var test := start + |c.code|;
      var back := test + 1 + |b.code| + |n.code|;
      && Located(nodes, i.code, at) && Located(nodes, c.code, start)
      && Located(nodes, b.code, test + 1) && Located(nodes, n.code, test + 1 + |b.code|)
      && test < back < |nodes| && nodes[test] == TestNode(test, c.res, Some(back + 1))
      && nodes[back] == JumpNode(back, Some(start))
  {
    hide Sequential, Located;
    var start := at + |i.code|;
    var test := start + |c.code|;
    var back := test + 1 + |b.code| + |n.code|;
    var branch, jump := TestNode(test, c.res, Some(back + 1)), JumpNode(back, Some(start));
    LoopShape(i.code, c.code, [branch], b.code, n.code, [jump]);
    LocatedParts(nodes, i.code, c.code + [branch] + (b.code + n.code) + [jump], at);
    LoopParts(nodes, c.code, branch, b.code + n.code, jump, start);
    LocatedParts(nodes, b.code, n.code, test + 1);
  }

  lemma ForLength(i: Chunk, c: Gen, b: Chunk, n: Chunk, at: nat)
    requires Sequential(i.code, at) && Sequential(c.code, at + |i.code|)
    requires Sequential(b.code, at + |i.code| + |c.code| + 1)
    requires Sequential(n.code, at + |i.code| + |c.code| + 1 + |b.code|)
    ensures |ForChunk(i, c, b, n, at).code| == |i.code| + |c.code| + 1 + |b.code| + |n.code| + 1
  {
    hide Sequential;
  }

  lemma {:induction false} ForRegion(nodes: seq<Node>, init: Stmt, e: Expr, step: Stmt, body: seq<Stmt>,
                                     at: nat, t: nat)
    requires Sequential(nodes, 0) && Located(nodes, GenStmt(For(init, e, step, body), at, t).code, at)
    requires at + |GenStmt(For(init, e, step, body), at, t).code| < |nodes|
    ensures Region(nodes, at, at + |GenStmt(For(init, e, step, body), at, t).code|)
    decreases For(init, e, step, body), 0
  {
    hide Sequential, Located, GenStmt, GenExpr, GenBlock, Region;
    var i, c, b, n := ForParts(init, e, step, body, at, t);
    var start := at + |i.code|;
    var test := start + |c.code|;
    var back := test + 1 + |b.code| + |n.code|;
    ForLocated(nodes, i, c, b, n, at);
    ForLength(i, c, b, n, at);
    hide ForChunk;
    StmtRegion(nodes, init, at, t);
    CondRegion(nodes, e, start, i.temps);
    BlockRegion(nodes, body, test + 1, c.temps);
    StmtRegion(nodes, step, test + 1 + |b.code|, b.temps);
    RegionThen(nodes, test + 1, test + 1 + |b.code|, back);
    JumpTarget(nodes, test, back + 1);
    JumpTarget(nodes, back, start);
    RegionOfLoop(nodes, start, test, back);
    RegionThen(nodes, at, start, back + 1);
  }

  lemma AssignRegion(nodes: seq<Node>, x: nat, e: Expr, at: nat, t: nat)
    requires Located(nodes, GenStmt(Assign(x, e), at, t).code, at)
    requires at + |GenStmt(Assign(x, e), at, t).code| < |nodes|
    ensures Region(nodes, at, at + |GenStmt(Assign(x, e), at, t).code|)
  {
    assert GenStmt(Assign(x, e), at, t) == GenAssign(x, e, at, t);
    hide GenStmt, GenAssign, Sequential;
    AssignFalls(x, e, at, t);
    FallingRegion(nodes, GenAssign(x, e, at, t).code, at);
  }

  lemma ReturnRegion(nodes: seq<Node>, e: Expr, at: nat, t: nat)
    requires Located(nodes, GenStmt(Stmt.Return(e), at, t).code, at)
    requires at + |GenStmt(Stmt.Return(e), at, t).code| < |nodes|
    ensures Region(nodes, at, at + |GenStmt(Stmt.Return(e), at, t).code|)
  {
    ExprFalls(e, at, t);
    hide Sequential, GenExpr;
    FallingRegion(nodes, GenStmt(Stmt.Return(e), at, t).code, at);
  }

  /** Every node of a statement's code leads behind it. */
  lemma {:induction false} StmtRegion(nodes: seq<Node>, c: Stmt, at: nat, t: nat)
    requires Sequential(nodes, 0) && Located(nodes, GenStmt(c, at, t).code, at)
    requires at + |GenStmt(c, at, t).code| < |nodes|
    ensures Region(nodes, at, at + |GenStmt(c, at, t).code|)
    decreases c, 1
  {
    hide *;
    match c
    case Assign(x, e) =>
      AssignRegion(nodes, x, e, at, t);
    case IfThen(e, body) =>
      IfRegion(nodes, e, body, at, t);
    case While(e, body) =>
      WhileRegion(nodes, e, body, at, t);
    case Do(body, e) =>
      DoRegion(nodes, body, e, at, t);
    case For(init, e, step, body) =>
      ForRegion(nodes, init, e, step, body, at, t);
    case Return(e) =>
      ReturnRegion(nodes, e, at, t);
  }

  lemma {:induction false} BlockRegion(nodes: seq<Node>, ss: seq<Stmt>, at: nat, t: nat)
    requires Sequential(nodes, 0) && Located(nodes, GenBlock(ss, at, t).code, at)
    requires at + |GenBlock(ss, at, t).code| < |nodes|
    ensures Region(nodes, at, at + |GenBlock(ss, at, t).code|)
    decreases ss, 0
  {
    hide Sequential, Located, GenStmt, Region;
    if ss == [] {
      RegionFalls(nodes, at, at);
    } else {
      var a := GenStmt(ss[0], at, t);
      var b := GenBlock(ss[1..], at + |a.code|, a.temps);
      LocatedParts(nodes, a.code, b.code, at);
      StmtRegion(nodes, ss[0], at, t);
      BlockRegion(nodes, ss[1..], at + |a.code|, a.temps);
      RegionThen(nodes, at, at + |a.code|, at + |a.code| + |b.code|);
    }
  }

  lemma PrologueFalls(params: seq<nat>)
    ensures AllFall(Prologue(params))
  {
    var code := Prologue(params);
    forall q | 0 <= q < |code|
      ensures Falls(code[q].instr.opcode)
    {
      if q >= 2 {
        assert code[(q - 2) + 2] == Node((q - 2) + 2, Plain(Receive, Absent, Absent, VarOperand(params[q - 2])), None);
      }
    }
  }

  /** From every node of a generated function, behind a RETURN too, an edge path leads to its END. */
  lemma FuncReachesEnd(params: seq<nat>, body: seq<Stmt>, t0: nat)
    ensures EndInReach(GenFunc(params, body, t0))
  {
    var nodes := GenFunc(params, body, t0);
    FuncParts(params, body, t0);
    PrologueFalls(params);
    hide Sequential, Located, GenFunc, GenBlock, Prologue, Region;
    var at := |params| + 2;
    FallingRegion(nodes, Prologue(params), 0);
    BlockRegion(nodes, body, at, t0);
    RegionThen(nodes, 0, at, at + |GenBlock(body, at, t0).code|);
  }
}
