/** A program that cannot avoid reading something has code that cannot either. */
module SureReads {
  import opened Wrappers
  import opened Liveness
  import opened Mir
  import opened Source
  import opened CodeGen
  import opened CodeGenCorrect
  import opened Pipeline
  import ControlFlow
  import GeneratedFlow

  /** A node no way through the function avoids, where something is read. */
  ghost predicate ReadAt(nodes: seq<Node>, s: nat, from: nat) {
    from <= s && ControlFlow.Cut(nodes, s) && HasSource(nodes[s].instr)
  }

  /** Behind a piece of code whose jumps do not lead further. */
  lemma CutBehind(nodes: seq<Node>, code: seq<Node>, at: nat, bound: nat)
    requires Sequential(nodes, 0) && Located(nodes, code, at) && at + |code| < |nodes|
    requires Clean(code, bound, at + |code|) && ControlFlow.Cut(nodes, at)
    ensures ControlFlow.Cut(nodes, at + |code|)
  {
    var end := at + |code|;
    forall p: nat | p < end
      ensures ControlFlow.StaysUpTo(nodes, p, end)
    {
      if p < at {
        assert ControlFlow.StaysUpTo(nodes, p, at);
      } else {
        LocatedNode(nodes, code, at, p - at);
        assert CleanNode(code[p - at], bound, end);
        if Jumps(nodes[p].instr.opcode) {
          GeneratedFlow.JumpTarget(nodes, p, nodes[p].jump.value);
        }
      }
    }
  }

  lemma ResultIsLoc(e: Expr, at: nat, t: nat)
    ensures GenExpr(e, at, t).res.Loc? <==> !e.Num?
  {
  }

  /** Behind the first node of a tail. */
  lemma CutInTail(nodes: seq<Node>, n: Node, at: nat)
    requires Located(nodes, [n], at) && at + 1 < |nodes| && n.instr.opcode.Move? && ControlFlow.Cut(nodes, at)
    ensures ControlFlow.Cut(nodes, at + 1)
  {
    LocatedNode(nodes, [n], at, 0);
    var end := at + 1;
    forall p: nat | p < end
      ensures ControlFlow.StaysUpTo(nodes, p, end)
    {
      if p < at {
        assert ControlFlow.StaysUpTo(nodes, p, at);
      }
    }
  }

  /** The tail of a compound expression one of whose first operand, or for arithmetic and relations any
      operand, is not a constant. */
  lemma TailReads(nodes: seq<Node>, e: Expr, at: nat, a: Operand, b: Operand, r: nat, d: Name) returns (s: nat)
    requires Compound(e) && Located(nodes, Tail(e, at, a, b, r, Loc(d, false)), at)
    requires at + |Tail(e, at, a, b, r, Loc(d, false))| < |nodes| && ControlFlow.Cut(nodes, at)
    requires a.Loc? || ((e.Bin? || e.Rel?) && b.Loc?)
    ensures ReadAt(nodes, s, at)
  {
    var tail := Tail(e, at, a, b, r, Loc(d, false));
    if e.Bin? {
      s := at;
    } else {
      assert tail == [tail[0]] + tail[1..];
      LocatedParts(nodes, [tail[0]], tail[1..], at);
      CutInTail(nodes, tail[0], at);
      s := at + 1;
    }
    LocatedNode(nodes, tail, at, s - at);
    hide Located, ControlFlow.Cut;
  }

  /** Where the parts of a compound expression stand. */
  lemma CompoundParts(nodes: seq<Node>, e: Expr, at: nat, t: nat, d: Name)
    requires Compound(e) && Located(nodes, CompoundNodes(e, at, t, d), at)
    ensures var o := GenOperands(e, at, t);
      var tail := Tail(e, at + |o.code|, o.a, o.b, o.temps, Loc(d, false));
      && |CompoundNodes(e, at, t, d)| == |o.code| + |tail|
      && Located(nodes, o.code, at) && Located(nodes, tail, at + |o.code|)
  {
    var o := GenOperands(e, at, t);
    var tail := Tail(e, at + |o.code|, o.a, o.b, o.temps, Loc(d, false));
    hide Located, Tail, GenOperands, Sequential;
    LocatedParts(nodes, o.code, tail, at);
  }

  lemma OperandParts(nodes: seq<Node>, e: Expr, at: nat, t: nat)
    requires Compound(e) && Located(nodes, GenOperands(e, at, t).code, at)
    ensures var a := GenExpr(e.l, at, t);
      var b := GenExpr(e.r, at + |a.code|, a.temps);
      && GenOperands(e, at, t) == Operands(a.code + b.code, a.res, b.res, b.temps)
      && Located(nodes, a.code, at) && Located(nodes, b.code, at + |a.code|)
      && (a.res.Loc? <==> !e.l.Num?) && (b.res.Loc? <==> !e.r.Num?) && (e.l.Num? ==> a.code == [])
  {
    var a := GenExpr(e.l, at, t);
    var b := GenExpr(e.r, at + |a.code|, a.temps);
    ResultIsLoc(e.l, at, t);
    ResultIsLoc(e.r, at + |a.code|, a.temps);
    assert e.l.Num? ==> a.code == [];
    hide Located, GenExpr, Sequential;
    LocatedParts(nodes, a.code, b.code, at);
  }

  /** The code of a compound expression that surely reads something does so at one node. */
  lemma {:induction false} CompoundReads(nodes: seq<Node>, e: Expr, at: nat, t: nat, d: Name) returns (s: nat)
    requires Compound(e) && CodeReads(e) && Sequential(nodes, 0) && ControlFlow.Cut(nodes, at)
    requires Located(nodes, CompoundNodes(e, at, t, d), at) && at + |CompoundNodes(e, at, t, d)| < |nodes|
    ensures ReadAt(nodes, s, at)
    decreases e, 0
  {
    hide Sequential, Located, GenExpr, GenOperands, Tail, CompoundNodes, Clean, ControlFlow.Cut, ReadAt;
    CompoundParts(nodes, e, at, t, d);
    OperandParts(nodes, e, at, t);
    var o := GenOperands(e, at, t);
    if !e.l.Num? || ((e.Bin? || e.Rel?) && !e.r.Num?) {
      OperandsClean(e, at, t);
      CutBehind(nodes, o.code, at, o.temps);
      s := TailReads(nodes, e, at + |o.code|, o.a, o.b, o.temps, d);
      ReadLater(nodes, s, at, at + |o.code|);
    } else {
      s := ExprReads(nodes, e.r, at, GenExpr(e.l, at, t).temps);
    }
  }

  lemma ReadLater(nodes: seq<Node>, s: nat, from: nat, later: nat)
    requires ReadAt(nodes, s, later) && from <= later
    ensures ReadAt(nodes, s, from)
  {
  }

  lemma {:induction false} ExprReads(nodes: seq<Node>, e: Expr, at: nat, t: nat) returns (s: nat)
    requires CodeReads(e) && Sequential(nodes, 0) && ControlFlow.Cut(nodes, at)
    requires Located(nodes, GenExpr(e, at, t).code, at) && at + |GenExpr(e, at, t).code| < |nodes|
    ensures ReadAt(nodes, s, at)
    decreases e, 1
  {
    var r := GenOperands(e, at, t).temps;
    assert GenExpr(e, at, t).code == CompoundNodes(e, at, t, Reg(r));
    hide Sequential, Located, GenExpr, GenOperands, CompoundNodes, ControlFlow.Cut, CodeReads;
    s := CompoundReads(nodes, e, at, t, Reg(r));
  }

  lemma AssignReads(nodes: seq<Node>, x: nat, e: Expr, at: nat, t: nat) returns (s: nat)
    requires (e.Id? || CodeReads(e)) && Sequential(nodes, 0) && ControlFlow.Cut(nodes, at)
    requires Located(nodes, GenStmt(Assign(x, e), at, t).code, at)
    requires at + |GenStmt(Assign(x, e), at, t).code| < |nodes|
    ensures ReadAt(nodes, s, at)
  {
    assert GenStmt(Assign(x, e), at, t) == GenAssign(x, e, at, t);
    if Compound(e) {
      assert GenAssign(x, e, at, t).code == CompoundNodes(e, at, t, Var(x));
      hide Sequential, Located, GenStmt, GenAssign, CompoundNodes, ControlFlow.Cut, CodeReads;
      s := CompoundReads(nodes, e, at, t, Var(x));
    } else {
      s := at;
      LocatedNode(nodes, GenAssign(x, e, at, t).code, at, 0);
    }
  }

  /** A condition's test, or a RETURN, behind the code of its expression. */
  lemma ResultReads(nodes: seq<Node>, e: Expr, at: nat, t: nat, from: nat)
    requires !e.Num? && Sequential(nodes, 0) && from <= at && ControlFlow.Cut(nodes, at)
    requires Located(nodes, GenExpr(e, at, t).code, at) && at + |GenExpr(e, at, t).code| < |nodes|
    requires var n := nodes[at + |GenExpr(e, at, t).code|].instr;
      n.op0 == GenExpr(e, at, t).res && (n.opcode.If? || n.opcode.Return?)
    ensures ReadAt(nodes, at + |GenExpr(e, at, t).code|, from)
  {
    ResultIsLoc(e, at, t);
    ExprClean(e, at, t);
    hide Sequential, Located, GenExpr, Clean, ControlFlow.Cut;
    CutBehind(nodes, GenExpr(e, at, t).code, at, GenExpr(e, at, t).temps);
  }

  lemma IfReads(nodes: seq<Node>, e: Expr, body: seq<Stmt>, at: nat, t: nat) returns (s: nat)
    requires !e.Num? && Sequential(nodes, 0) && ControlFlow.Cut(nodes, at)
    requires Located(nodes, GenStmt(IfThen(e, body), at, t).code, at)
    requires at + |GenStmt(IfThen(e, body), at, t).code| < |nodes|
    ensures ReadAt(nodes, s, at)
  {
    hide Sequential, Located, GenExpr, GenBlock, ControlFlow.Cut;
    var c := GenExpr(e, at, t);
    s := at + |c.code|;
    var b := GenBlock(body, s + 1, c.temps);
    var n := TestNode(s, c.res, Some(s + 1 + |b.code|));
    LocatedParts(nodes, c.code + [n], b.code, at);
    LocatedParts(nodes, c.code, [n], at);
    LocatedNode(nodes, [n], s, 0);
    ResultReads(nodes, e, at, t, at);
  }

  lemma WhileReads(nodes: seq<Node>, e: Expr, body: seq<Stmt>, at: nat, t: nat) returns (s: nat)
    requires !e.Num? && Sequential(nodes, 0) && ControlFlow.Cut(nodes, at)
    requires Located(nodes, GenStmt(While(e, body), at, t).code, at)
    requires at + |GenStmt(While(e, body), at, t).code| < |nodes|
    ensures ReadAt(nodes, s, at)
  {
    hide Sequential, Located, GenExpr, GenBlock, ControlFlow.Cut;
    var c := GenExpr(e, at, t);
    s := at + |c.code|;
    var b := GenBlock(body, s + 1, c.temps);
    var back := s + 1 + |b.code|;
    LoopParts(nodes, c.code, TestNode(s, c.res, Some(back + 1)), b.code, JumpNode(back, Some(at)), at);
    ResultReads(nodes, e, at, t, at);
  }

  lemma {:induction false} DoReads(nodes: seq<Node>, body: seq<Stmt>, e: Expr, at: nat, t: nat) returns (s: nat)
    requires (BlockSurelyReads(body) || !e.Num?) && Sequential(nodes, 0) && ControlFlow.Cut(nodes, at)
    requires Located(nodes, GenStmt(Do(body, e), at, t).code, at)
    requires at + |GenStmt(Do(body, e), at, t).code| < |nodes|
    ensures ReadAt(nodes, s, at)
    decreases body, 1
  {
    hide Sequential, Located, GenExpr, GenBlock, Clean, ControlFlow.Cut, BlockSurelyReads;
    var b := GenBlock(body, at, t);
    var c := GenExpr(e, at + |b.code|, b.temps);
    var test := at + |b.code| + |c.code|;
    DoParts(nodes, b.code, c.code, TestNode(test, c.res, Some(test + 2)), JumpNode(test + 1, Some(at)), at);
    if BlockSurelyReads(body) {
      s := BlockReads(nodes, body, at, t);
    } else {
      BlockClean(body, at, t);
      CutBehind(nodes, b.code, at, b.temps);
      ResultReads(nodes, e, at + |b.code|, b.temps, at);
      s := test;
    }
  }

  lemma {:induction false} ForReads(nodes: seq<Node>, init: Stmt, e: Expr, step: Stmt, body: seq<Stmt>,
                                    at: nat, t: nat) returns (s: nat)
    requires (SurelyReads(init) || !e.Num?) && Sequential(nodes, 0) && ControlFlow.Cut(nodes, at)
    requires Located(nodes, GenStmt(For(init, e, step, body), at, t).code, at)
    requires at + |GenStmt(For(init, e, step, body), at, t).code| < |nodes|
    ensures ReadAt(nodes, s, at)
    decreases For(init, e, step, body), 0
  {
    hide Sequential, Located, GenStmt, GenExpr, GenBlock, Clean, ControlFlow.Cut, SurelyReads;
    var i, c, b, n := ForParts(init, e, step, body, at, t);
    var start := at + |i.code|;
    GeneratedFlow.ForLocated(nodes, i, c, b, n, at);
    GeneratedFlow.ForLength(i, c, b, n, at);
    hide ForChunk;
    if SurelyReads(init) {
      s := StmtReads(nodes, init, at, t);
    } else {
      StmtClean(init, at, t);
      CutBehind(nodes, i.code, at, i.temps);
      ResultReads(nodes, e, start, i.temps, at);
      s := start + |c.code|;
    }
  }

  lemma ReturnReads(nodes: seq<Node>, e: Expr, at: nat, t: nat) returns (s: nat)
    requires !e.Num? && Sequential(nodes, 0) && ControlFlow.Cut(nodes, at)
    requires Located(nodes, GenStmt(Stmt.Return(e), at, t).code, at)
    requires at + |GenStmt(Stmt.Return(e), at, t).code| < |nodes|
    ensures ReadAt(nodes, s, at)
  {
    hide Sequential, Located, GenExpr, ControlFlow.Cut;
    var c := GenExpr(e, at, t);
    s := at + |c.code|;
    LocatedParts(nodes, c.code, [ReturnNode(s, c.res)], at);
    LocatedNode(nodes, [ReturnNode(s, c.res)], s, 0);
    ResultReads(nodes, e, at, t, at);
  }

  lemma {:induction false} StmtReads(nodes: seq<Node>, c: Stmt, at: nat, t: nat) returns (s: nat)
    requires SurelyReads(c) && Sequential(nodes, 0) && ControlFlow.Cut(nodes, at)
    requires Located(nodes, GenStmt(c, at, t).code, at) && at + |GenStmt(c, at, t).code| < |nodes|
    ensures ReadAt(nodes, s, at)
    decreases c, 1
  {
    hide Sequential, Located, GenStmt, ControlFlow.Cut, ReadAt;
    match c
    case Assign(x, e) =>
      s := AssignReads(nodes, x, e, at, t);
    case IfThen(e, body) =>
      s := IfReads(nodes, e, body, at, t);
    case While(e, body) =>
      s := WhileReads(nodes, e, body, at, t);
    case Do(body, e) =>
      s := DoReads(nodes, body, e, at, t);
    case For(init, e, step, body) =>
      s := ForReads(nodes, init, e, step, body, at, t);
    case Return(e) =>
      s := ReturnReads(nodes, e, at, t);
  }

  lemma {:induction false} BlockReads(nodes: seq<Node>, ss: seq<Stmt>, at: nat, t: nat) returns (s: nat)
    requires BlockSurelyReads(ss) && Sequential(nodes, 0) && ControlFlow.Cut(nodes, at)
    requires Located(nodes, GenBlock(ss, at, t).code, at) && at + |GenBlock(ss, at, t).code| < |nodes|
    ensures ReadAt(nodes, s, at)
    decreases ss, 0
  {
    hide Sequential, Located, GenStmt, Clean, SurelyReads, ControlFlow.Cut;
    var a := GenStmt(ss[0], at, t);
    LocatedParts(nodes, a.code, GenBlock(ss[1..], at + |a.code|, a.temps).code, at);
    if SurelyReads(ss[0]) {
      s := StmtReads(nodes, ss[0], at, t);
    } else {
      StmtClean(ss[0], at, t);
      CutBehind(nodes, a.code, at, a.temps);
      s := BlockReads(nodes, ss[1..], at + |a.code|, a.temps);
    }
  }

  lemma FirstIsCut(nodes: seq<Node>)
    requires |nodes| > 0
    ensures ControlFlow.Cut(nodes, 0)
  {
  }

  /** What holds of the program holds of its function. */
  lemma FuncReads(params: seq<nat>, body: seq<Stmt>, t0: nat)
    requires BlockSurelyReads(body)
    ensures ControlFlow.SurelyReads(GenFunc(params, body, t0))
  {
    var nodes := GenFunc(params, body, t0);
    FuncParts(params, body, t0);
    PrologueClean(params, 0, |params| + 2);
    FirstIsCut(nodes);
    hide Sequential, Located, GenFunc, GenBlock, Prologue, Clean, BlockSurelyReads, ControlFlow.Cut;
    CutBehind(nodes, Prologue(params), 0, 0);
    var s := BlockReads(nodes, body, |params| + 2, t0);
  }
}
