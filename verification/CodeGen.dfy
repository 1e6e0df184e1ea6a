/** Generating MIR from structured code: parse_expression, parse_statement and parse_block of astparse.c. */
module CodeGen {
  import opened Wrappers
  import opened Liveness
  import opened Mir
  import opened MirList
  import opened Source

  // ----- The code each construct becomes -----

  function ArithOpcode(op: ArithOp): Opcode {
    match op
    case Plus => Add
    case Minus => Sub
    case Times => Mul
  }

  /** The comparison an IF skips the "true" MOVE on. */
  function NegatedCode(op: RelOp): int {
    match op
    case Equal => NEQ
    case NotEqual => EQL
    case Less => GEQ
    case LessEqual => GTR
    case Greater => LEQ
    case GreaterEqual => LSS
  }

  function VarOperand(x: nat): Operand {
    Loc(Var(x), false)
  }

  predicate Compound(e: Expr) {
    !e.Num? && !e.Id?
  }

  /** The nodes after the operands' code: `a` and `b` hold the operands, `r` is the result register and
      `dest` the operand of the last instruction. */
  function Tail(e: Expr, at: nat, a: Operand, b: Operand, r: nat, dest: Operand): (code: seq<Node>)
    requires Compound(e)
    ensures |code| > 0 && forall i :: 0 <= i < |code| ==> code[i].id == at + i
    ensures forall i :: 0 <= i < |code| ==> !IsCompare(code[i].instr.opcode)
  {
    match e
    case Bin(op, _, _) => [Node(at, Plain(ArithOpcode(op), a, b, dest), None)]
    case Rel(op, _, _) => [
      Node(at, Plain(Move, Const(0), Absent, Temp(r)), None),
      Node(at + 1, Plain(If, a, b, Const(NegatedCode(op))), Some(at + 3)),
      Node(at + 2, Plain(Move, Const(1), Absent, dest), None)]
    case Or(_, _) => [
      Node(at, Plain(Move, Const(1), Absent, Temp(r)), None),
      Node(at + 1, Plain(If, a, Const(0), Const(NEQ)), Some(at + 4)),
      Node(at + 2, Plain(If, b, Const(0), Const(NEQ)), Some(at + 4)),
      Node(at + 3, Plain(Move, Const(0), Absent, dest), None)]
    case And(_, _) => [
      Node(at, Plain(Move, Const(0), Absent, Temp(r)), None),
      Node(at + 1, Plain(If, a, Const(0), Const(EQL)), Some(at + 4)),
      Node(at + 2, Plain(If, a, Const(0), Const(EQL)), Some(at + 4)),
      Node(at + 3, Plain(Move, Const(1), Absent, dest), None)]
  }

  /** Emitted code, the operand that holds its value, and the next free temporary. */
  datatype Gen = Gen(code: seq<Node>, res: Operand, temps: nat)

  /** Node identities count up from `at` and no comparison is waiting for an IF to merge with. */
  ghost predicate Sequential(code: seq<Node>, at: nat) {
    forall i :: 0 <= i < |code| ==> code[i].id == at + i && !IsCompare(code[i].instr.opcode)
  }

  /** The code of both operands of a compound expression, where their values are, and the next temporary. */
  datatype Operands = Operands(code: seq<Node>, a: Operand, b: Operand, temps: nat)

  function GenOperands(e: Expr, at: nat, t: nat): (g: Operands)
    requires Compound(e)
    ensures Sequential(g.code, at) && t <= g.temps
    decreases e, 0
  {
    var a := GenExpr(e.l, at, t);
    var b := GenExpr(e.r, at + |a.code|, a.temps);
    Operands(a.code + b.code, a.res, b.res, b.temps)
  }

  /** Temporaries a compound expression allocates after its operands. */
  function OwnTemps(e: Expr): nat {
    if e.Or? || e.And? then 2 else 1
  }

  function GenExpr(e: Expr, at: nat, t: nat): (g: Gen)
    ensures Sequential(g.code, at) && t <= g.temps
    decreases e, 1
  {
    match e
    case Num(n) => Gen([], Const(n), t)
    case Id(x) => Gen([], VarOperand(x), t)
    case _ =>
      var o := GenOperands(e, at, t);
      Gen(o.code + Tail(e, at + |o.code|, o.a, o.b, o.temps, Temp(o.temps)), Temp(o.temps), o.temps + OwnTemps(e))
  }

  datatype Chunk = Chunk(code: seq<Node>, temps: nat)

  /** An assignment: a MOVE for a variable or constant, otherwise the right-hand side's code with its
      last instruction redirected to the variable. */
  function GenAssign(x: nat, e: Expr, at: nat, t: nat): (g: Chunk)
    ensures Sequential(g.code, at) && t <= g.temps
  {
    if Compound(e) then
      var o := GenOperands(e, at, t);
      Chunk(o.code + Tail(e, at + |o.code|, o.a, o.b, o.temps, VarOperand(x)), o.temps + OwnTemps(e))
    else
      Chunk([Node(at, Plain(Move, GenExpr(e, at, t).res, Absent, VarOperand(x)), None)], t)
  }

  /** The test of a condition: jumps when it is zero. */
  function TestNode(at: nat, cond: Operand, exit: Option<nat>): Node {
    Node(at, Plain(If, cond, Const(0), Const(EQL)), exit)
  }

  function ReturnNode(at: nat, res: Operand): Node {
    Node(at, Plain(Opcode.Return, res, Absent, Absent), None)
  }

  function JumpNode(at: nat, dest: Option<nat>): Node {
    Node(at, Plain(Jump, Absent, Absent, Absent), dest)
  }

  /** A loop that tests first: the condition, the test, the body and the jump back. */
  function GenLoop(e: Expr, body: seq<Stmt>, at: nat, t: nat): (g: Chunk)
    ensures Sequential(g.code, at) && t <= g.temps
    decreases body, 1
  {
    var c := GenExpr(e, at, t);
    var test := at + |c.code|;
    var b := GenBlock(body, test + 1, c.temps);
    var back := test + 1 + |b.code|;
    Chunk(c.code + [TestNode(test, c.res, Some(back + 1))] + b.code + [JumpNode(back, Some(at))], b.temps)
  }

  function GenStmt(s: Stmt, at: nat, t: nat): (g: Chunk)
    ensures Sequential(g.code, at) && t <= g.temps
    decreases s, 0
  {
    match s
    case Assign(x, e) => GenAssign(x, e, at, t)
    case IfThen(e, body) =>
      var c := GenExpr(e, at, t);
      var test := at + |c.code|;
      var b := GenBlock(body, test + 1, c.temps);
      Chunk(c.code + [TestNode(test, c.res, Some(test + 1 + |b.code|))] + b.code, b.temps)
    case While(e, body) => GenLoop(e, body, at, t)
    case Do(body, e) =>
      var b := GenBlock(body, at, t);
      var c := GenExpr(e, at + |b.code|, b.temps);
      var test := at + |b.code| + |c.code|;
      Chunk(b.code + c.code + [TestNode(test, c.res, Some(test + 2))] + [JumpNode(test + 1, Some(at))], c.temps)
    case For(init, e, step, body) =>
      var i := GenStmt(init, at, t);
      var c := GenExpr(e, at + |i.code|, i.temps);
      var b := GenBlock(body, at + |i.code| + |c.code| + 1, c.temps);
      var n := GenStmt(step, at + |i.code| + |c.code| + 1 + |b.code|, b.temps);
      ForChunk(i, c, b, n, at)
    case Return(e) =>
      var c := GenExpr(e, at, t);
      Chunk(c.code + [ReturnNode(at + |c.code|, c.res)], c.temps)
  }

  /** A FOR from the code of its parts: after the first statement, a loop whose body ends with the step. */
  function ForChunk(i: Chunk, c: Gen, b: Chunk, n: Chunk, at: nat): (g: Chunk)
    requires Sequential(i.code, at) && Sequential(c.code, at + |i.code|)
    requires Sequential(b.code, at + |i.code| + |c.code| + 1)
    requires Sequential(n.code, at + |i.code| + |c.code| + 1 + |b.code|)
    ensures Sequential(g.code, at) && g.temps == n.temps
  {
    var test := at + |i.code| + |c.code|;
    var back := test + 1 + |b.code| + |n.code|;
    Chunk(i.code + c.code + [TestNode(test, c.res, Some(back + 1))] + b.code + n.code
            + [JumpNode(back, Some(at + |i.code|))], n.temps)
  }

  function GenBlock(ss: seq<Stmt>, at: nat, t: nat): (g: Chunk)
    ensures Sequential(g.code, at) && t <= g.temps
    decreases ss, 0
  {
    if ss == [] then Chunk([], t)
    else
      var a := GenStmt(ss[0], at, t);
      var b := GenBlock(ss[1..], at + |a.code|, a.temps);
      Chunk(a.code + b.code, b.temps)
  }

  lemma Assoc(a: seq<Node>, b: seq<Node>, c: seq<Node>)
    ensures (a + b) + c == a + (b + c)
  {
  }

  /** Patching the jump of the node behind `pre`. */
  lemma PatchBehind(pre: seq<Node>, n: Node, post: seq<Node>, dest: nat)
    ensures (pre + [n] + post)[|pre| := n.(jump := Some(dest))] == pre + [n.(jump := Some(dest))] + post
  {
  }

  lemma CompoundCode(was: seq<Node>, e: Expr, at: nat, t: nat)
    requires Compound(e)
    ensures var o := GenOperands(e, at, t);
      && was + o.code + Tail(e, at + |o.code|, o.a, o.b, o.temps, Temp(o.temps)) == was + GenExpr(e, at, t).code
      && GenExpr(e, at, t).res == Temp(o.temps) && GenExpr(e, at, t).temps == o.temps + OwnTemps(e)
  {
    hide Sequential, GenOperands, Tail;
    var o := GenOperands(e, at, t);
    Assoc(was, o.code, Tail(e, at + |o.code|, o.a, o.b, o.temps, Temp(o.temps)));
  }

  lemma OperandsCode(was: seq<Node>, e: Expr, at: nat, t: nat)
    requires Compound(e)
    ensures var a := GenExpr(e.l, at, t);
      var b := GenExpr(e.r, at + |a.code|, a.temps);
      was + a.code + b.code == was + GenOperands(e, at, t).code
      && GenOperands(e, at, t) == Operands(a.code + b.code, a.res, b.res, b.temps)
  {
    hide Sequential, GenExpr;
    var a := GenExpr(e.l, at, t);
    Assoc(was, a.code, GenExpr(e.r, at + |a.code|, a.temps).code);
  }

  /** Patching the last node of the right-hand side's code gives the assignment's code. */
  lemma AssignCode(was: seq<Node>, x: nat, e: Expr, at: nat, t: nat)
    requires Compound(e)
    ensures var g := GenExpr(e, at, t);
      var n := g.code[|g.code| - 1];
      && |g.code| > 0 && g.temps == GenAssign(x, e, at, t).temps
      && (was + g.code)[|was| + |g.code| - 1 := n.(instr := n.instr.(op2 := VarOperand(x)))]
         == was + GenAssign(x, e, at, t).code
  {
    var o := GenOperands(e, at, t);
    var tail := Tail(e, at + |o.code|, o.a, o.b, o.temps, Temp(o.temps));
    var k := |tail| - 1;
    var patched := tail[k := tail[k].(instr := tail[k].instr.(op2 := VarOperand(x)))];
    assert patched == Tail(e, at + |o.code|, o.a, o.b, o.temps, VarOperand(x));
    assert (was + (o.code + tail))[|was| + |o.code| + k := patched[k]] == was + (o.code + patched);
  }

  lemma ForParts(init: Stmt, e: Expr, step: Stmt, body: seq<Stmt>, at: nat, t: nat)
    returns (i: Chunk, c: Gen, b: Chunk, n: Chunk)
    ensures i == GenStmt(init, at, t)
    ensures c == GenExpr(e, at + |i.code|, i.temps)
    ensures b == GenBlock(body, at + |i.code| + |c.code| + 1, c.temps)
    ensures n == GenStmt(step, at + |i.code| + |c.code| + 1 + |b.code|, b.temps)
    ensures GenStmt(For(init, e, step, body), at, t) == ForChunk(i, c, b, n, at)
    ensures ForChunk(i, c, b, n, at).temps == n.temps
  {
    hide Sequential, GenExpr, GenBlock, ForChunk;
    i := GenStmt(init, at, t);
    c := GenExpr(e, at + |i.code|, i.temps);
    b := GenBlock(body, at + |i.code| + |c.code| + 1, c.temps);
    n := GenStmt(step, at + |i.code| + |c.code| + 1 + |b.code|, b.temps);
  }

  /** The pieces of a FOR put together. */
  lemma ForCode(was: seq<Node>, i: Chunk, c: Gen, b: Chunk, n: Chunk, at: nat)
    requires Sequential(i.code, at) && Sequential(c.code, at + |i.code|)
    requires Sequential(b.code, at + |i.code| + |c.code| + 1)
    requires Sequential(n.code, at + |i.code| + |c.code| + 1 + |b.code|)
    ensures
      var test := at + |i.code| + |c.code|;
      var back := test + 1 + |b.code| + |n.code|;
      was + i.code + c.code + [TestNode(test, c.res, Some(back + 1))] +
        (b.code + n.code + [JumpNode(back, Some(at + |i.code|))]) == was + ForChunk(i, c, b, n, at).code
  {
    hide Sequential;
    var test := at + |i.code| + |c.code|;
    var back := test + 1 + |b.code| + |n.code|;
    Regroup(was, i.code, c.code, [TestNode(test, c.res, Some(back + 1))], b.code, n.code,
      [JumpNode(back, Some(at + |i.code|))]);
  }

  lemma Regroup(was: seq<Node>, a: seq<Node>, b: seq<Node>, c: seq<Node>, d: seq<Node>, e: seq<Node>, f: seq<Node>)
    ensures was + a + b + c + (d + e + f) == was + (a + b + c + d + e + f)
  {
    Assoc(was, a, b);
    Assoc(was, a + b, c);
    Assoc(a + b + c, d, e);
    Assoc(a + b + c, d + e, f);
    Assoc(was, a + b + c, d + e + f);
  }

  /** A function before its body: label, BEGIN and one RECEIVE for every parameter. */
  function Prologue(params: seq<nat>): (code: seq<Node>)
    ensures |code| == |params| + 2 && Sequential(code, 0)
    ensures code[0] == Node(0, Plain(Label, Absent, Absent, Absent), None)
    ensures code[1] == Node(1, Plain(Begin, Absent, Absent, Absent), None)
    ensures forall i :: 0 <= i < |params| ==>
      code[i + 2] == Node(i + 2, Plain(Receive, Absent, Absent, VarOperand(params[i])), None)
  {
    if params == [] then
      [Node(0, Plain(Label, Absent, Absent, Absent), None), Node(1, Plain(Begin, Absent, Absent, Absent), None)]
    else
      var n := |params| - 1;
      Prologue(params[..n]) + [Node(n + 2, Plain(Receive, Absent, Absent, VarOperand(params[n])), None)]
  }

  /** A whole function, its temporaries numbered from `t0` on. */
  function GenFunc(params: seq<nat>, body: seq<Stmt>, t0: nat): (code: seq<Node>)
    ensures Sequential(code, 0)
  {
    var b := GenBlock(body, |params| + 2, t0).code;
    Prologue(params) + b + [Node(|params| + 2 + |b|, Plain(End, Absent, Absent, Absent), None)]
  }

  // ----- The generator -----

  class Generator {
    const list: List
    /** The next temporary register (tr_alloc). */
    var temps: nat

    /** As long as code is only appended, a node's identity is its position. */
    ghost predicate Valid()
      reads this, list
    {
      && list.Valid() && list.nodes != [] && Sequential(list.nodes, 0)
      && list.blank == |list.nodes| && list.nextId == |list.nodes| + 1
    }

    /** The generator starts behind a function's LABEL. */
    constructor (list: List, temps: nat)
      requires list.Valid() && list.nodes != [] && Sequential(list.nodes, 0)
      requires list.blank == |list.nodes| && list.nextId == |list.nodes| + 1
      ensures Valid() && this.list == list && this.temps == temps
    {
      this.list, this.temps := list, temps;
    }

    method AllocTemp() returns (r: nat)
      requires Valid()
      modifies this
      ensures Valid() && r == old(temps) && temps == r + 1
    {
      r := temps;
      temps := temps + 1;
    }

    /** Emits an instruction that is not a comparison; nothing merges. */
    method Emit(opcode: Opcode, op0: Operand, op1: Operand, op2: Operand) returns (p: nat)
      requires Valid() && !IsCompare(opcode)
      modifies list
      ensures Valid() && p == |old(list.nodes)|
      ensures list.nodes == old(list.nodes) + [Node(p, Plain(opcode, op0, op1, op2), None)]
    {
      p := list.Emit(opcode, op0, op1, op2);
    }

    /** Emits a comparison and the IF on its result, which merge into one IF. */
    method EmitCompareIf(compare: Opcode, op0: Operand, op1: Operand, reg: nat) returns (p: nat)
      requires Valid() && IsCompare(compare)
      modifies list
      ensures Valid() && p == |old(list.nodes)|
      ensures list.nodes == old(list.nodes) + [Node(p, Plain(If, op0, op1, Const(CompareCode(compare))), None)]
    {
      hide WellLinked;
      var _ := list.Emit(compare, op0, op1, Temp(reg));
      ghost var mid := list.nodes;
      p := list.Emit(If, Temp(reg), Absent, Absent);
      assert list.nodes == mid[..|mid| - 1] + [list.nodes[p]];
    }

    /** Backpatches the jump of a node to a node that exists or is emitted next. */
    method Patch(src: nat, dest: nat)
      requires Valid() && src < |list.nodes| && list.nodes[src].jump.None? && dest <= |list.nodes|
      modifies list
      ensures Valid()
      ensures list.nodes == old(list.nodes)[src := old(list.nodes)[src].(jump := Some(dest))]
    {
      assert dest in list.inLinks by {
        if dest < |list.nodes| {
          assert list.nodes[dest].id == dest;
          assert dest in Ids(list.nodes);
        }
      }
      list.SetJump(src, dest);
    }

    /** The nodes of a relation: 0, skip on the opposite comparison, 1. */
    method EmitRel(e: Expr, a: Operand, b: Operand) returns (r: nat)
      requires Valid() && e.Rel?
      modifies this, list
      ensures Valid() && r == old(temps) && temps == r + 1
      ensures list.nodes == old(list.nodes) + Tail(e, |old(list.nodes)|, a, b, r, Temp(r))
    {
      hide WellLinked, Sequential;
      ghost var was := list.nodes;
      r := AllocTemp();
      var _ := Emit(Move, Const(0), Absent, Temp(r));
      ghost var pre := list.nodes;
      var label1 := Emit(If, a, b, Const(NegatedCode(e.rel)));
      var label2 := Emit(Move, Const(1), Absent, Temp(r));
      ghost var post := [list.nodes[label2]];
      PatchBehind(pre, list.nodes[label1], post, list.blank);
      Patch(label1, list.blank);
    }

    /** The nodes of OR and AND: a result, two tests that keep it, and the other result. */
    method EmitLogical(kept: int, other: int, compare: Opcode, first: Operand, second: Operand) returns (r: nat)
      requires Valid() && IsCompare(compare)
      modifies this, list
      ensures Valid() && r == old(temps) && temps == r + 2
      ensures var at := |old(list.nodes)|;
        list.nodes == old(list.nodes) + [
          Node(at, Plain(Move, Const(kept), Absent, Temp(r)), None),
          Node(at + 1, Plain(If, first, Const(0), Const(CompareCode(compare))), Some(at + 4)),
          Node(at + 2, Plain(If, second, Const(0), Const(CompareCode(compare))), Some(at + 4)),
          Node(at + 3, Plain(Move, Const(other), Absent, Temp(r)), None)]
    {
      hide WellLinked, Sequential;
      r := AllocTemp();
      var reg := AllocTemp();
      var _ := Emit(Move, Const(kept), Absent, Temp(r));
      ghost var pre := list.nodes;
      var label1 := EmitCompareIf(compare, first, Const(0), reg);
      var label2 := EmitCompareIf(compare, second, Const(0), reg);
      var label3 := Emit(Move, Const(other), Absent, Temp(r));
      ghost var n1, n2, n3 := list.nodes[label1], list.nodes[label2], list.nodes[label3];
      assert list.nodes == pre + [n1] + [n2, n3];
      PatchBehind(pre, n1, [n2, n3], list.blank);
      Patch(label1, list.blank);
      ghost var pre2 := pre + [list.nodes[label1]];
      assert list.nodes == pre2 + [n2] + [n3];
      PatchBehind(pre2, n2, [n3], list.blank);
      Patch(label2, list.blank);
    }

    /** The nodes that follow a compound expression's operands. */
    method EmitTail(e: Expr, a: Operand, b: Operand) returns (r: nat)
      requires Valid() && Compound(e)
      modifies this, list
      ensures Valid() && r == old(temps) && temps == r + OwnTemps(e)
      ensures list.nodes == old(list.nodes) + Tail(e, |old(list.nodes)|, a, b, r, Temp(r))
    {
      match e {
        case Bin(op, _, _) =>
          r := AllocTemp();
          var _ := Emit(ArithOpcode(op), a, b, Temp(r));
        case Rel(_, _, _) =>
          r := EmitRel(e, a, b);
        case Or(_, _) =>
          r := EmitLogical(1, 0, Neq, a, b);
        case And(_, _) =>
          r := EmitLogical(0, 1, Eql, a, a);
      }
    }

    /** parse_expression: appends the code and returns the operand that holds the value. */
    method ParseExpression(e: Expr) returns (res: Operand)
      requires Valid()
      modifies this, list
      ensures Valid()
      ensures list.nodes == old(list.nodes) + GenExpr(e, |old(list.nodes)|, old(temps)).code
      ensures res == GenExpr(e, |old(list.nodes)|, old(temps)).res
      ensures temps == GenExpr(e, |old(list.nodes)|, old(temps)).temps
      decreases e, 2
    {
      match e {
        case Num(n) =>
          res := Const(n);
        case Id(x) =>
          res := VarOperand(x);
        case _ =>
          res := ParseCompound(e);
      }
    }

    method ParseCompound(e: Expr) returns (res: Operand)
      requires Valid() && Compound(e)
      modifies this, list
      ensures Valid()
      ensures list.nodes == old(list.nodes) + GenExpr(e, |old(list.nodes)|, old(temps)).code
      ensures res == GenExpr(e, |old(list.nodes)|, old(temps)).res
      ensures temps == GenExpr(e, |old(list.nodes)|, old(temps)).temps
      decreases e, 1
    {
      hide WellLinked, Sequential, GenExpr, GenOperands, Tail;
      CompoundCode(list.nodes, e, |list.nodes|, temps);
      var a, b := ParseOperands(e);
      var r := EmitTail(e, a, b);
      res := Temp(r);
    }

    /** Both operands of an expression, left first. */
    method ParseOperands(e: Expr) returns (a: Operand, b: Operand)
      requires Valid() && Compound(e)
      modifies this, list
      ensures Valid()
      ensures var g := GenOperands(e, |old(list.nodes)|, old(temps));
        list.nodes == old(list.nodes) + g.code && a == g.a && b == g.b && temps == g.temps
      decreases e, 0
    {
      hide WellLinked, Sequential, GenExpr, GenOperands;
      OperandsCode(list.nodes, e, |list.nodes|, temps);
      a := ParseExpression(e.l);
      b := ParseExpression(e.r);
    }

    /** NODE_BECOMES: right-hand side first; a single value is moved, otherwise the last instruction
        emitted is redirected to the variable. */
    method ParseAssign(x: nat, e: Expr)
      requires Valid()
      modifies this, list
      ensures Valid()
      ensures list.nodes == old(list.nodes) + GenAssign(x, e, |old(list.nodes)|, old(temps)).code
      ensures temps == GenAssign(x, e, |old(list.nodes)|, old(temps)).temps
    {
      hide WellLinked, Sequential;
      ghost var was := list.nodes;
      var value := ParseExpression(e);
      if !Compound(e) {
        var _ := Emit(Move, value, Absent, VarOperand(x));
      } else {
        AssignCode(was, x, e, |was|, old(temps));
        var last := |list.nodes| - 1;
        Redirect(last, VarOperand(x));
      }
    }

    method Redirect(p: nat, dest: Operand)
      requires Valid() && p < |list.nodes|
      modifies list
      ensures Valid()
      ensures list.nodes == old(list.nodes)[p := old(list.nodes)[p].(instr := old(list.nodes)[p].instr.(op2 := dest))]
    {
      list.SetInstr(p, list.nodes[p].instr.(op2 := dest));
    }

    /** One RECEIVE for every parameter, behind label and BEGIN. */
    method ReceiveParams(params: seq<nat>)
      requires Valid() && list.nodes == Prologue([])
      modifies list
      ensures Valid() && list.nodes == Prologue(params)
    {
      hide WellLinked, Sequential;
      var i := 0;
      while i < |params|
        invariant 0 <= i <= |params| && Valid() && list.nodes == Prologue(params[..i])
      {
        var _ := Emit(Receive, Absent, Absent, VarOperand(params[i]));
        assert params[..i + 1][..i] == params[..i];
        i := i + 1;
      }
      assert params[..i] == params;
    }

    /** parse_statement. */
    method ParseStatement(s: Stmt)
      requires Valid()
      modifies this, list
      ensures Valid()
      ensures list.nodes == old(list.nodes) + GenStmt(s, |old(list.nodes)|, old(temps)).code
      ensures temps == GenStmt(s, |old(list.nodes)|, old(temps)).temps
      decreases s, 2
    {
      match s {
        case Assign(x, e) =>
          ParseAssign(x, e);
        case IfThen(e, body) =>
          ParseIf(e, body);
        case While(e, body) =>
          ParseWhile(e, body);
        case Do(body, e) =>
          ParseDo(body, e);
        case For(init, e, step, body) =>
          ParseFor(init, e, step, body);
        case Return(e) =>
          ParseReturn(e);
      }
    }

    method ParseReturn(e: Expr)
      requires Valid()
      modifies this, list
      ensures Valid()
      ensures list.nodes == old(list.nodes) + GenStmt(Stmt.Return(e), |old(list.nodes)|, old(temps)).code
      ensures temps == GenStmt(Stmt.Return(e), |old(list.nodes)|, old(temps)).temps
    {
      hide WellLinked, Sequential, GenExpr;
      ghost var was, t := list.nodes, temps;
      var e1 := ParseExpression(e);
      var mt1 := Emit(Opcode.Return, e1, Absent, Absent);
      Assoc(was, GenExpr(e, |was|, t).code, [ReturnNode(mt1, e1)]);
    }

    method ParseIf(e: Expr, body: seq<Stmt>)
      requires Valid()
      modifies this, list
      ensures Valid()
      ensures list.nodes == old(list.nodes) + GenStmt(IfThen(e, body), |old(list.nodes)|, old(temps)).code
      ensures temps == GenStmt(IfThen(e, body), |old(list.nodes)|, old(temps)).temps
      decreases body, 1
    {
      hide WellLinked, Sequential, GenExpr, GenBlock;
      ghost var was, t := list.nodes, temps;
      var e1 := ParseExpression(e);
      ghost var pre := list.nodes;
      var mt1 := Emit(If, e1, Const(0), Const(EQL));
      ParseBlock(body);
      ghost var b := GenBlock(body, mt1 + 1, GenExpr(e, |was|, t).temps).code;
      assert list.nodes == pre + [list.nodes[mt1]] + b;
      PatchBehind(pre, list.nodes[mt1], b, list.blank);
      Patch(mt1, list.blank);
      assert list.nodes == was + GenStmt(IfThen(e, body), |was|, t).code;
    }

    method ParseWhile(e: Expr, body: seq<Stmt>)
      requires Valid()
      modifies this, list
      ensures Valid()
      ensures list.nodes == old(list.nodes) + GenLoop(e, body, |old(list.nodes)|, old(temps)).code
      ensures temps == GenLoop(e, body, |old(list.nodes)|, old(temps)).temps
      decreases body, 1
    {
      hide WellLinked, Sequential, GenExpr, GenBlock;
      ghost var was, t := list.nodes, temps;
      var start := list.blank;
      var e1 := ParseExpression(e);
      ghost var pre := list.nodes;
      var mt2 := Emit(If, e1, Const(0), Const(EQL));
      ParseBlock(body);
      CloseLoop(start, mt2, pre, GenBlock(body, mt2 + 1, GenExpr(e, |was|, t).temps).code);
      assert list.nodes == was + GenLoop(e, body, |was|, t).code;
    }

    /** The jump back to the start of a loop, and the patch of its test at `mt2` to jump behind it. */
    method CloseLoop(start: nat, mt2: nat, ghost pre: seq<Node>, ghost rest: seq<Node>)
      requires Valid() && start <= mt2 == |pre| && mt2 < |list.nodes|
      requires list.nodes == pre + [list.nodes[mt2]] + rest && list.nodes[mt2].jump.None?
      modifies list
      ensures Valid()
      ensures var back := |old(list.nodes)|;
        list.nodes == pre + [old(list.nodes)[mt2].(jump := Some(back + 1))] + (rest + [JumpNode(back, Some(start))])
    {
      hide WellLinked, Sequential;
      ghost var mid, test := list.nodes, list.nodes[mt2];
      var back := Emit(Jump, Absent, Absent, Absent);
      ghost var jump := list.nodes[back];
      PatchBehind(mid, jump, [], start);
      Patch(back, start);
      assert list.nodes == pre + [test] + (rest + [jump.(jump := Some(start))]);
      PatchBehind(pre, test, rest + [jump.(jump := Some(start))], list.blank);
      Patch(mt2, list.blank);
    }

    method ParseDo(body: seq<Stmt>, e: Expr)
      requires Valid()
      modifies this, list
      ensures Valid()
      ensures list.nodes == old(list.nodes) + GenStmt(Do(body, e), |old(list.nodes)|, old(temps)).code
      ensures temps == GenStmt(Do(body, e), |old(list.nodes)|, old(temps)).temps
      decreases body, 1
    {
      hide WellLinked, Sequential, GenExpr, GenBlock;
      ghost var was, t := list.nodes, temps;
      var start := list.blank;
      ParseBlock(body);
      var e1 := ParseExpression(e);
      ghost var pre := list.nodes;
      var mt2 := Emit(If, e1, Const(0), Const(EQL));
      CloseLoop(start, mt2, pre, []);
      assert list.nodes == was + GenStmt(Do(body, e), |was|, t).code;
    }

    method ParseFor(init: Stmt, e: Expr, step: Stmt, body: seq<Stmt>)
      requires Valid()
      modifies this, list
      ensures Valid()
      ensures list.nodes == old(list.nodes) + GenStmt(For(init, e, step, body), |old(list.nodes)|, old(temps)).code
      ensures temps == GenStmt(For(init, e, step, body), |old(list.nodes)|, old(temps)).temps
      decreases For(init, e, step, body), 1
    {
      hide WellLinked, Sequential, GenExpr, GenBlock, GenStmt, ForChunk;
      ghost var was, t := list.nodes, temps;
      ghost var i, c, b, n := ForParts(init, e, step, body, |was|, t);
      ParseStatement(init);
      var start := list.blank;
      var e1 := ParseExpression(e);
      ghost var pre := list.nodes;
      var mt2 := Emit(If, e1, Const(0), Const(EQL));
      ForTail(step, body, For(init, e, step, body), pre, start, mt2);
      ForCode(was, i, c, b, n, |was|);
    }

    /** A FOR from its block on: the block, the step, the jump back and the patch of the test. */
    method ForTail(step: Stmt, body: seq<Stmt>, ghost whole: Stmt, ghost pre: seq<Node>, start: nat, mt2: nat)
      requires whole.For? && whole.step == step && whole.body == body
      requires Valid() && mt2 == |pre| && start <= mt2
      requires |list.nodes| == mt2 + 1 && list.nodes == pre + [list.nodes[mt2]] && list.nodes[mt2].jump.None?
      modifies this, list
      ensures Valid()
      ensures var b := GenBlock(body, mt2 + 1, old(temps));
        var n := GenStmt(step, mt2 + 1 + |b.code|, b.temps);
        var back := mt2 + 1 + |b.code| + |n.code|;
        && temps == n.temps
        && list.nodes == pre + [old(list.nodes)[mt2].(jump := Some(back + 1))]
             + (b.code + n.code + [JumpNode(back, Some(start))])
      decreases whole, 0
    {
      hide WellLinked, Sequential, GenBlock, GenStmt;
      ghost var test := list.nodes[mt2];
      ParseBlock(body);
      ghost var b := list.nodes[mt2 + 1..];
      ParseStatement(step);
      ghost var rest := list.nodes[mt2 + 1..];
      assert list.nodes == pre + [test] + rest;
      CloseLoop(start, mt2, pre, rest);
    }

    /** parse_block: the statements in order. */
    method ParseBlock(ss: seq<Stmt>)
      requires Valid()
      modifies this, list
      ensures Valid()
      ensures list.nodes == old(list.nodes) + GenBlock(ss, |old(list.nodes)|, old(temps)).code
      ensures temps == GenBlock(ss, |old(list.nodes)|, old(temps)).temps
      decreases ss, 0
    {
      hide WellLinked, Sequential, GenStmt;
      ghost var was, t := list.nodes, temps;
      var i := 0;
      while i < |ss|
        invariant 0 <= i <= |ss| && Valid()
        invariant list.nodes + GenBlock(ss[i..], |list.nodes|, temps).code == was + GenBlock(ss, |was|, t).code
        invariant GenBlock(ss[i..], |list.nodes|, temps).temps == GenBlock(ss, |was|, t).temps
      {
        ghost var nodes, now := list.nodes, temps;
        assert ss[i..][1..] == ss[i + 1..];
        ParseStatement(ss[i]);
        ghost var a := GenStmt(ss[i], |nodes|, now);
        Assoc(nodes, a.code, GenBlock(ss[i + 1..], |nodes| + |a.code|, a.temps).code);
        i := i + 1;
      }
    }
  }

  /** parse_func, for a function of its own list. Temporaries are numbered on from those of the functions
      before; also returns the next free one. */
  method ParseFunc(params: seq<nat>, body: seq<Stmt>, t0: nat) returns (list: List, temps: nat)
    ensures fresh(list) && list.Valid() && list.nodes == GenFunc(params, body, t0)
    ensures temps == GenBlock(body, |params| + 2, t0).temps
  {
    hide WellLinked, GenBlock, GenStmt;
    list := new List();
    var _ := list.Emit(Label, Absent, Absent, Absent);
    var g := new Generator(list, t0);
    hide Sequential, Emitted;
    var _ := g.Emit(Begin, Absent, Absent, Absent);
    assert list.nodes == Prologue([]);
    hide Prologue;
    g.ReceiveParams(params);
    g.ParseBlock(body);
    var _ := g.Emit(End, Absent, Absent, Absent);
    temps := g.temps;
  }
}
