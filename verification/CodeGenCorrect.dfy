/** Running generated code: it computes what the structured program computes, and ends when it ends. */
module CodeGenCorrect {
  import opened Wrappers
  import opened Liveness
  import opened Mir
  import opened Source
  import opened CodeGen

  // ----- Runs of several instructions -----

  ghost predicate Runs(ctx: Context, nodes: seq<Node>, s: State, k: nat, s': State) {
    Run(ctx, nodes, s, k) == Running(s')
  }

  /** `code` stands in the list at position `at`. */
  ghost predicate Located(nodes: seq<Node>, code: seq<Node>, at: nat) {
    at + |code| <= |nodes| && nodes[at..at + |code|] == code
  }

  lemma LocatedParts(nodes: seq<Node>, a: seq<Node>, b: seq<Node>, at: nat)
    requires Located(nodes, a + b, at)
    ensures Located(nodes, a, at) && Located(nodes, b, at + |a|)
  {
    var whole := nodes[at..at + |a + b|];
    assert whole[..|a|] == a && whole[|a|..] == b;
  }

  lemma LocatedNode(nodes: seq<Node>, code: seq<Node>, at: nat, i: nat)
    requires Located(nodes, code, at) && i < |code|
    ensures nodes[at + i] == code[i]
  {
    assert nodes[at..at + |code|][i] == nodes[at + i];
  }

  /** Identities that are positions are found there. */
  lemma FindPosition(nodes: seq<Node>, id: nat)
    requires Sequential(nodes, 0) && id <= |nodes|
    ensures Find(nodes, id) == id
  {
    FindIs(nodes, id, id);
  }

  // ----- What code leaves alone -----

  /** Only registers from `t` on may have changed between `s` and `s'`. */
  ghost predicate Kept(s: State, s': State, t: nat) {
    && s'.mem == s.mem && s'.received == s.received && s'.calls == s.calls
    && forall n: Name :: n.Var? || n.num < t ==> Get(s'.env, n) == Get(s.env, n)
  }

  /** The variables hold what the store says. */
  ghost predicate Matches(st: Store, s: State) {
    forall x: nat :: Lookup(st, x) == Get(s.env, Var(x))
  }

  /** An operand whose value code using registers from `t` on does not change. */
  predicate Steady(op: Operand, t: nat) {
    op.Const? || (op.Loc? && !op.indirect && (op.name.Var? || op.name.num < t))
  }

  lemma KeptValue(s: State, s': State, t: nat, op: Operand)
    requires Kept(s, s', t) && Steady(op, t)
    ensures Value(s', op) == Value(s, op)
  {
  }

  // ----- The nodes behind a compound expression's operands -----

  /** The registers after those nodes: a relation, OR and AND first put one outcome in `r` and then,
      unless a test skips it, the other one in `d`. */
  function TailEnv(e: Expr, env: Env, va: int, vb: int, r: nat, d: Name): Env
    requires Compound(e)
  {
    match e
    case Bin(op, _, _) => env[d := Calculate(op, va, vb)]
    case Rel(op, _, _) => if Holds(op, va, vb) then env[Reg(r) := 0][d := 1] else env[Reg(r) := 0]
    case Or(_, _) => if va != 0 || vb != 0 then env[Reg(r) := 1] else env[Reg(r) := 1][d := 0]
    case And(_, _) => if va != 0 then env[Reg(r) := 0][d := 1] else env[Reg(r) := 0]
  }

  lemma StepRuns(ctx: Context, nodes: seq<Node>, s: State, s': State)
    requires Step(ctx, nodes, s) == Running(s')
    ensures Runs(ctx, nodes, s, 1, s')
  {
  }

  /** A MOVE of a constant to a register. */
  lemma MoveStep(ctx: Context, nodes: seq<Node>, s: State, v: int, d: Name) returns (s': State)
    requires s.pos < |nodes| && nodes[s.pos].instr == Plain(Move, Const(v), Absent, Loc(d, false))
    ensures Step(ctx, nodes, s) == Running(s')
    ensures s' == s.(pos := s.pos + 1, env := s.env[d := v])
  {
    s' := s.(pos := s.pos + 1, env := s.env[d := v]);
  }

  /** An IF, jumping to `dest`. */
  lemma IfStep(ctx: Context, nodes: seq<Node>, s: State, a: Operand, b: Operand, code: int, dest: nat)
    returns (s': State)
    requires s.pos < |nodes| && nodes[s.pos] == Node(s.pos, Plain(If, a, b, Const(code)), Some(dest))
    requires Sequential(nodes, 0) && dest <= |nodes|
    ensures Step(ctx, nodes, s) == Running(s')
    ensures s' == s.(pos := if Compare(code, Value(s, a), Value(s, b)) then dest else s.pos + 1)
  {
    FindPosition(nodes, dest);
    s' := s.(pos := if Compare(code, Value(s, a), Value(s, b)) then dest else s.pos + 1);
  }

  lemma ArithStep(ctx: Context, nodes: seq<Node>, op: ArithOp, a: Operand, b: Operand, d: Name, s: State)
    returns (s': State)
    requires s.pos < |nodes| && nodes[s.pos].instr == Plain(ArithOpcode(op), a, b, Loc(d, false))
    ensures Runs(ctx, nodes, s, 1, s')
    ensures s' == s.(pos := s.pos + 1, env := s.env[d := Calculate(op, Value(s, a), Value(s, b))])
  {
    hide Value;
    s' := s.(pos := s.pos + 1, env := s.env[d := Calculate(op, Value(s, a), Value(s, b))]);
    StepRuns(ctx, nodes, s, s');
  }

  /** The three nodes of a relation. */
  lemma RelRuns(ctx: Context, nodes: seq<Node>, op: RelOp, tail: seq<Node>,
                a: Operand, b: Operand, r: nat, d: Name, s: State) returns (k: nat, s': State)
    requires Sequential(nodes, 0) && s.pos + 3 <= |nodes| && Steady(a, r) && Steady(b, r)
    requires tail == [
      Node(s.pos, Plain(Move, Const(0), Absent, Temp(r)), None),
      Node(s.pos + 1, Plain(If, a, b, Const(NegatedCode(op))), Some(s.pos + 3)),
      Node(s.pos + 2, Plain(Move, Const(1), Absent, Loc(d, false)), None)]
    requires nodes[s.pos] == tail[0] && nodes[s.pos + 1] == tail[1] && nodes[s.pos + 2] == tail[2]
    ensures Runs(ctx, nodes, s, k, s')
    ensures s' == s.(pos := s.pos + 3, env :=
      if Holds(op, Value(s, a), Value(s, b)) then s.env[Reg(r) := 0][d := 1] else s.env[Reg(r) := 0])
  {
    hide Sequential;
    var s1 := MoveStep(ctx, nodes, s, 0, Reg(r));
    assert Value(s1, a) == Value(s, a) && Value(s1, b) == Value(s, b);
    hide Value;
    var s2 := IfStep(ctx, nodes, s1, a, b, NegatedCode(op), s.pos + 3);
    StepRuns(ctx, nodes, s, s1);
    StepRuns(ctx, nodes, s1, s2);
    RunThen(ctx, nodes, s, 1, 1);
    k, s' := 2, s2;
    if Holds(op, Value(s, a), Value(s, b)) {
      s' := MoveStep(ctx, nodes, s2, 1, d);
      StepRuns(ctx, nodes, s2, s');
      RunThen(ctx, nodes, s, 2, 1);
      k := 3;
    }
  }

  lemma TailRuns(ctx: Context, nodes: seq<Node>, e: Expr, at: nat, a: Operand, b: Operand,
                 r: nat, d: Name, s: State) returns (k: nat, s': State)
    requires Compound(e) && Sequential(nodes, 0) && s.pos == at
    requires Located(nodes, Tail(e, at, a, b, r, Loc(d, false)), at)
    requires Steady(a, r) && Steady(b, r)
    ensures Runs(ctx, nodes, s, k, s')
    ensures s' == s.(pos := at + |Tail(e, at, a, b, r, Loc(d, false))|,
                     env := TailEnv(e, s.env, Value(s, a), Value(s, b), r, d))
  {
    var tail := Tail(e, at, a, b, r, Loc(d, false));
    forall i: nat | i < |tail|
      ensures nodes[at + i] == tail[i]
    {
      LocatedNode(nodes, tail, at, i);
    }
    hide Sequential, Located, Value, Runs, Steady;
    match e {
      case Bin(op, _, _) =>
        k := 1;
        s' := ArithStep(ctx, nodes, op, a, b, d, s);
      case Rel(op, _, _) =>
        k, s' := RelRuns(ctx, nodes, op, tail, a, b, r, d, s);
      case Or(_, _) =>
        k, s' := LogicalRuns(ctx, nodes, tail, 1, 0, NEQ, a, b, r, d, s);
      case And(_, _) =>
        k, s' := LogicalRuns(ctx, nodes, tail, 0, 1, EQL, a, a, r, d, s);
    }
  }

  /** The four nodes of OR and AND. */
  lemma LogicalRuns(ctx: Context, nodes: seq<Node>, tail: seq<Node>, kept: int, other: int, code: int,
                    a: Operand, b: Operand, r: nat, d: Name, s: State) returns (k: nat, s': State)
    requires Sequential(nodes, 0) && s.pos + 4 <= |nodes| && Steady(a, r) && Steady(b, r)
    requires tail == [
      Node(s.pos, Plain(Move, Const(kept), Absent, Temp(r)), None),
      Node(s.pos + 1, Plain(If, a, Const(0), Const(code)), Some(s.pos + 4)),
      Node(s.pos + 2, Plain(If, b, Const(0), Const(code)), Some(s.pos + 4)),
      Node(s.pos + 3, Plain(Move, Const(other), Absent, Loc(d, false)), None)]
    requires nodes[s.pos] == tail[0] && nodes[s.pos + 1] == tail[1]
    requires nodes[s.pos + 2] == tail[2] && nodes[s.pos + 3] == tail[3]
    ensures Runs(ctx, nodes, s, k, s')
    ensures s' == s.(pos := s.pos + 4, env :=
      if Compare(code, Value(s, a), 0) || Compare(code, Value(s, b), 0) then s.env[Reg(r) := kept]
      else s.env[Reg(r) := kept][d := other])
  {
    hide Sequential;
    var s1 := MoveStep(ctx, nodes, s, kept, Reg(r));
    assert Value(s1, a) == Value(s, a) && Value(s1, b) == Value(s, b);
    hide Compare, Value;
    var s2 := IfStep(ctx, nodes, s1, a, Const(0), code, s.pos + 4);
    StepRuns(ctx, nodes, s, s1);
    StepRuns(ctx, nodes, s1, s2);
    RunThen(ctx, nodes, s, 1, 1);
    k, s' := 2, s2;
    if s2.pos == s.pos + 2 {
      var s3 := IfStep(ctx, nodes, s2, b, Const(0), code, s.pos + 4);
      StepRuns(ctx, nodes, s2, s3);
      RunThen(ctx, nodes, s, 2, 1);
      k, s' := 3, s3;
      if s3.pos == s.pos + 3 {
        s' := MoveStep(ctx, nodes, s3, other, d);
        StepRuns(ctx, nodes, s3, s');
        RunThen(ctx, nodes, s, 3, 1);
        k := 4;
      }
    }
  }

  // ----- Expressions -----

  lemma ResultIsSteady(e: Expr, at: nat, t: nat)
    ensures Steady(GenExpr(e, at, t).res, GenExpr(e, at, t).temps)
  {
  }

  /** The operands' code leaves both values in place. */
  lemma {:induction false} OperandsRun(ctx: Context, nodes: seq<Node>, e: Expr, at: nat, t: nat, s: State, st: Store)
    returns (k: nat, s': State)
    requires Compound(e) && Sequential(nodes, 0) && s.pos == at && Matches(st, s)
    requires Located(nodes, GenOperands(e, at, t).code, at)
    ensures Runs(ctx, nodes, s, k, s') && Kept(s, s', t)
    ensures var o := GenOperands(e, at, t);
      && s'.pos == at + |o.code| && Steady(o.a, o.temps) && Steady(o.b, o.temps)
      && Value(s', o.a) == Eval(true, e.l, st) && Value(s', o.b) == Eval(true, e.r, st)
    decreases e, 0
  {
    hide Sequential, Runs, Located, GenExpr, Eval;
    var a := GenExpr(e.l, at, t);
    var b := GenExpr(e.r, at + |a.code|, a.temps);
    LocatedParts(nodes, a.code, b.code, at);
    var i, m := ExprRuns(ctx, nodes, e.l, at, t, s, st);
    assert Matches(st, m);
    var j;
    j, s' := ExprRuns(ctx, nodes, e.r, at + |a.code|, a.temps, m, st);
    ThenRuns(ctx, nodes, s, i, m, j, s');
    ResultIsSteady(e.l, at, t);
    ResultIsSteady(e.r, at + |a.code|, a.temps);
    KeptValue(m, s', a.temps, a.res);
    k := i + j;
  }

  lemma ThenRuns(ctx: Context, nodes: seq<Node>, s: State, i: nat, m: State, j: nat, s': State)
    requires Runs(ctx, nodes, s, i, m) && Runs(ctx, nodes, m, j, s')
    ensures Runs(ctx, nodes, s, i + j, s')
  {
    RunThen(ctx, nodes, s, i, j);
  }

  /** A compound expression's code with its result going to `d`: from the state `m` behind the operands
      only the tail's registers change. */
  lemma {:induction false} CompoundRuns(ctx: Context, nodes: seq<Node>, e: Expr, at: nat, t: nat, d: Name, s: State,
                                        st: Store)
    returns (k: nat, m: State, s': State)
    requires Compound(e) && Sequential(nodes, 0) && s.pos == at && Matches(st, s)
    requires Located(nodes, CompoundNodes(e, at, t, d), at)
    ensures Runs(ctx, nodes, s, k, s') && Kept(s, m, t)
    ensures s' == m.(pos := at + |CompoundNodes(e, at, t, d)|,
      env := TailEnv(e, m.env, Eval(true, e.l, st), Eval(true, e.r, st), GenOperands(e, at, t).temps, d))
    decreases e, 1
  {
    hide Sequential, Runs, Located, GenOperands, Tail, TailEnv, Matches, Kept, Eval, Value;
    var o := GenOperands(e, at, t);
    LocatedParts(nodes, o.code, Tail(e, at + |o.code|, o.a, o.b, o.temps, Loc(d, false)), at);
    var i;
    i, m := OperandsRun(ctx, nodes, e, at, t, s, st);
    var j;
    j, s' := TailRuns(ctx, nodes, e, at + |o.code|, o.a, o.b, o.temps, d, m);
    ThenRuns(ctx, nodes, s, i, m, j, s');
    k := i + j;
  }

  function CompoundNodes(e: Expr, at: nat, t: nat, d: Name): (code: seq<Node>)
    requires Compound(e)
  {
    var o := GenOperands(e, at, t);
    o.code + Tail(e, at + |o.code|, o.a, o.b, o.temps, Loc(d, false))
  }

  /** What the tail leaves in a register, its own result register. */
  lemma TailToRegister(e: Expr, env: Env, st: Store, r: nat)
    requires Compound(e)
    ensures var after := TailEnv(e, env, Eval(true, e.l, st), Eval(true, e.r, st), r, Reg(r));
      && Get(after, Reg(r)) == Eval(true, e, st)
      && forall n: Name :: n != Reg(r) ==> Get(after, n) == Get(env, n)
  {
  }

  /** What the tail does to the variables when its last instruction assigns to one of them. */
  lemma TailToVariable(e: Expr, env: Env, st: Store, r: nat, x: nat)
    requires Compound(e) && forall y: nat :: Lookup(st, y) == Get(env, Var(y))
    ensures var after := TailEnv(e, env, Eval(true, e.l, st), Eval(true, e.r, st), r, Var(x));
      forall y: nat :: Lookup(AfterAssign(true, x, e, st), y) == Get(after, Var(y))
  {
  }

  /** Running an expression's code puts its value in the result operand and changes nothing but
      registers the code allocated itself. */
  lemma {:induction false} ExprRuns(ctx: Context, nodes: seq<Node>, e: Expr, at: nat, t: nat, s: State, st: Store)
    returns (k: nat, s': State)
    requires Sequential(nodes, 0) && s.pos == at && Matches(st, s)
    requires Located(nodes, GenExpr(e, at, t).code, at)
    ensures Runs(ctx, nodes, s, k, s') && Kept(s, s', t)
    ensures s'.pos == at + |GenExpr(e, at, t).code|
    ensures Value(s', GenExpr(e, at, t).res) == Eval(true, e, st)
    decreases e, 2
  {
    if !Compound(e) {
      k, s' := 0, s;
    } else {
      var r := GenOperands(e, at, t).temps;
      assert GenExpr(e, at, t).code == CompoundNodes(e, at, t, Reg(r)) && GenExpr(e, at, t).res == Temp(r);
      hide Sequential, Runs, Located, GenExpr, GenOperands, CompoundNodes, TailEnv, Eval;
      var m;
      k, m, s' := CompoundRuns(ctx, nodes, e, at, t, Reg(r), s, st);
      TailToRegister(e, m.env, st, r);
    }
  }

  // ----- Statements -----

  /** Execution has come to `pos` with the store `st`, and nothing but registers and variables changed. */
  ghost predicate Arrived(s: State, s': State, pos: nat, st: Store) {
    s'.pos == pos && Matches(st, s') && s'.mem == s.mem && s'.received == s.received && s'.calls == s.calls
  }

  lemma AssignRuns(ctx: Context, nodes: seq<Node>, x: nat, e: Expr, at: nat, t: nat, s: State, st: Store)
    returns (k: nat, s': State)
    requires Sequential(nodes, 0) && s.pos == at && Matches(st, s)
    requires Located(nodes, GenAssign(x, e, at, t).code, at)
    ensures Runs(ctx, nodes, s, k, s')
    ensures Arrived(s, s', at + |GenAssign(x, e, at, t).code|, AfterAssign(true, x, e, st))
  {
    if !Compound(e) {
      LocatedNode(nodes, GenAssign(x, e, at, t).code, at, 0);
      s' := s.(pos := at + 1, env := s.env[Var(x) := Eval(true, e, st)]);
      StepRuns(ctx, nodes, s, s');
      k := 1;
    } else {
      assert GenAssign(x, e, at, t).code == CompoundNodes(e, at, t, Var(x));
      hide Sequential, Runs, Located, GenOperands, CompoundNodes, TailEnv, AfterAssign, Eval;
      var m;
      k, m, s' := CompoundRuns(ctx, nodes, e, at, t, Var(x), s, st);
      TailToVariable(e, m.env, st, GenOperands(e, at, t).temps, x);
    }
  }

  /** A condition and its test: execution goes on behind the test, or at `exit` when the value is zero. */
  lemma TestRuns(ctx: Context, nodes: seq<Node>, e: Expr, at: nat, t: nat, exit: nat, s: State, st: Store)
    returns (k: nat, s': State)
    requires Sequential(nodes, 0) && s.pos == at && Matches(st, s) && exit <= |nodes|
    requires Located(nodes, GenExpr(e, at, t).code, at)
    requires var test := at + |GenExpr(e, at, t).code|;
      test < |nodes| && nodes[test] == TestNode(test, GenExpr(e, at, t).res, Some(exit))
    ensures k > 0 && Runs(ctx, nodes, s, k, s')
    ensures Arrived(s, s', if Eval(true, e, st) == 0 then exit else at + |GenExpr(e, at, t).code| + 1, st)
  {
    hide Sequential, Runs, Located, GenExpr, Eval;
    var i, m := ExprRuns(ctx, nodes, e, at, t, s, st);
    s' := IfStep(ctx, nodes, m, GenExpr(e, at, t).res, Const(0), EQL, exit);
    StepRuns(ctx, nodes, m, s');
    ThenRuns(ctx, nodes, s, i, m, 1, s');
    k := i + 1;
  }

  lemma JumpRuns(ctx: Context, nodes: seq<Node>, s: State, dest: nat) returns (s': State)
    requires Sequential(nodes, 0) && dest <= |nodes|
    requires s.pos < |nodes| && nodes[s.pos] == JumpNode(s.pos, Some(dest))
    ensures Runs(ctx, nodes, s, 1, s') && s' == s.(pos := dest)
  {
    FindPosition(nodes, dest);
    s' := s.(pos := dest);
    StepRuns(ctx, nodes, s, s');
  }

  /** How many loops a statement has, one inside the other or side by side. */
  function Loops(c: Stmt): nat
    decreases c
  {
    match c
    case Assign(_, _) => 0
    case IfThen(_, body) => BlockLoops(body)
    case While(_, body) => 1 + BlockLoops(body)
    case Do(body, _) => 1 + BlockLoops(body)
    case For(init, _, step, body) => 1 + Loops(init) + BlockLoops(body) + Loops(step)
    case Return(_) => 0
  }

  function BlockLoops(ss: seq<Stmt>): nat {
    if ss == [] then 0 else Loops(ss[0]) + BlockLoops(ss[1..])
  }

  /** Execution has come to a RETURN of `v`, and nothing but registers and variables changed. */
  ghost predicate Leaves(ctx: Context, nodes: seq<Node>, s: State, s': State, v: int) {
    Step(ctx, nodes, s') == Returned(v, s.mem, s.calls)
  }

  /** What running a construct's code shows: it arrives with the store the construct ends with, comes to
      the RETURN of the value it leaves with or, when `fuel` rounds were not enough, has been running for
      about as many steps. */
  ghost predicate Shows(ctx: Context, nodes: seq<Node>, r: Option<Flow>, k: nat, s: State, s': State, pos: nat,
                        loops: nat, fuel: nat) {
    match r
    case None => k + loops >= fuel
    case Some(Next(st)) => Arrived(s, s', pos, st)
    case Some(Leave(v)) => Leaves(ctx, nodes, s, s', v)
  }

  lemma {:induction false} SnocLoops(ss: seq<Stmt>, c: Stmt)
    ensures BlockLoops(ss + [c]) == BlockLoops(ss) + Loops(c)
  {
    if ss == [] {
      assert ss + [c] == [c];
      assert [c][1..] == [];
    } else {
      SnocLoops(ss[1..], c);
      assert (ss + [c])[1..] == ss[1..] + [c];
    }
  }

  lemma {:induction false} SnocCode(ss: seq<Stmt>, c: Stmt, at: nat, t: nat)
    ensures var b := GenBlock(ss, at, t);
      var n := GenStmt(c, at + |b.code|, b.temps);
      GenBlock(ss + [c], at, t) == Chunk(b.code + n.code, n.temps)
  {
    hide Sequential, GenStmt;
    if ss == [] {
      assert ss + [c] == [c];
      assert GenBlock([c][1..], at + |GenStmt(c, at, t).code|, GenStmt(c, at, t).temps).code == [];
    } else {
      var a := GenStmt(ss[0], at, t);
      SnocCode(ss[1..], c, at + |a.code|, a.temps);
      assert (ss + [c])[1..] == ss[1..] + [c];
      var b := GenBlock(ss[1..], at + |a.code|, a.temps);
      Assoc(a.code, b.code, GenStmt(c, at + |a.code| + |b.code|, b.temps).code);
    }
  }

  /** A FOR is its first statement and a loop over the body with the step behind it. */
  lemma ForIsLoop(init: Stmt, e: Expr, step: Stmt, body: seq<Stmt>, at: nat, t: nat)
    ensures var i := GenStmt(init, at, t);
      GenStmt(For(init, e, step, body), at, t).code == i.code + GenLoop(e, body + [step], at + |i.code|, i.temps).code
  {
    hide Sequential, GenExpr, GenBlock, GenStmt;
    var i, c, b, n := ForParts(init, e, step, body, at, t);
    SnocCode(body, step, at + |i.code| + |c.code| + 1, c.temps);
    var back := at + |i.code| + |c.code| + 1 + |b.code| + |n.code|;
    var test := [TestNode(at + |i.code| + |c.code|, c.res, Some(back + 1))];
    LoopShape(i.code, c.code, test, b.code, n.code, [JumpNode(back, Some(at + |i.code|))]);
  }

  lemma LoopShape(i: seq<Node>, c: seq<Node>, t: seq<Node>, b: seq<Node>, n: seq<Node>, j: seq<Node>)
    ensures i + c + t + b + n + j == i + (c + t + (b + n) + j)
  {
    Assoc(i + c + t, b, n);
    Assoc(i, c, t);
    Assoc(i, c + t, b + n);
    Assoc(i, c + t + (b + n), j);
  }

  lemma OutOfFuel(ctx: Context, nodes: seq<Node>, c: Stmt, s: State, st: Store, pos: nat)
    requires c.While? || c.Do? || c.For?
    ensures Runs(ctx, nodes, s, 0, s) && Shows(ctx, nodes, Exec(true, c, st, 0), 0, s, s, pos, Loops(c), 0)
  {
  }

  lemma {:induction false} StmtRuns(ctx: Context, nodes: seq<Node>, c: Stmt, at: nat, t: nat, s: State, st: Store,
                                    fuel: nat) returns (k: nat, s': State)
    requires Sequential(nodes, 0) && s.pos == at && Matches(st, s)
    requires Located(nodes, GenStmt(c, at, t).code, at)
    ensures Runs(ctx, nodes, s, k, s')
    ensures Shows(ctx, nodes, Exec(true, c, st, fuel), k, s, s', at + |GenStmt(c, at, t).code|, Loops(c), fuel)
    decreases fuel, c, 0
  {
    hide Sequential, Runs, Located, Exec, GenStmt, Loops, Matches, Shows;
    if fuel == 0 && (c.While? || c.Do? || c.For?) {
      OutOfFuel(ctx, nodes, c, s, st, at + |GenStmt(c, at, t).code|);
      return 0, s;
    }
    match c
    case Assign(x, e) =>
      k, s' := AssignStmtRuns(ctx, nodes, x, e, at, t, s, st, fuel);
    case IfThen(e, body) =>
      k, s' := IfRuns(ctx, nodes, e, body, at, t, s, st, fuel);
    case While(e, body) =>
      k, s' := WhileRuns(ctx, nodes, e, body, at, t, s, st, fuel);
    case Do(body, e) =>
      k, s' := DoRuns(ctx, nodes, body, e, at, t, s, st, fuel);
    case For(init, e, step, body) =>
      k, s' := ForRuns(ctx, nodes, init, e, step, body, at, t, s, st, fuel);
    case Return(e) =>
      k, s' := ReturnRuns(ctx, nodes, e, at, t, s, st, fuel);
  }

  /** A RETURN's code comes to the RETURN with the value in its operand. */
  lemma ReturnRuns(ctx: Context, nodes: seq<Node>, e: Expr, at: nat, t: nat, s: State, st: Store, fuel: nat)
    returns (k: nat, s': State)
    requires Sequential(nodes, 0) && s.pos == at && Matches(st, s)
    requires Located(nodes, GenStmt(Stmt.Return(e), at, t).code, at)
    ensures Runs(ctx, nodes, s, k, s')
    ensures Shows(ctx, nodes, Exec(true, Stmt.Return(e), st, fuel), k, s, s',
              at + |GenStmt(Stmt.Return(e), at, t).code|, Loops(Stmt.Return(e)), fuel)
  {
    hide Sequential, Runs, Located, GenExpr, Eval;
    var c := GenExpr(e, at, t);
    LocatedParts(nodes, c.code, [ReturnNode(at + |c.code|, c.res)], at);
    LocatedNode(nodes, [ReturnNode(at + |c.code|, c.res)], at + |c.code|, 0);
    k, s' := ExprRuns(ctx, nodes, e, at, t, s, st);
  }

  lemma AssignStmtRuns(ctx: Context, nodes: seq<Node>, x: nat, e: Expr, at: nat, t: nat, s: State, st: Store, fuel: nat)
    returns (k: nat, s': State)
    requires Sequential(nodes, 0) && s.pos == at && Matches(st, s)
    requires Located(nodes, GenStmt(Assign(x, e), at, t).code, at)
    ensures Runs(ctx, nodes, s, k, s')
    ensures Shows(ctx, nodes, Exec(true, Assign(x, e), st, fuel), k, s, s', at + |GenStmt(Assign(x, e), at, t).code|,
              Loops(Assign(x, e)), fuel)
  {
    hide Sequential, Runs, Located, GenAssign, AfterAssign;
    k, s' := AssignRuns(ctx, nodes, x, e, at, t, s, st);
  }

  lemma {:induction false} WhileRuns(ctx: Context, nodes: seq<Node>, e: Expr, body: seq<Stmt>, at: nat, t: nat,
                                     s: State, st: Store, fuel: nat) returns (k: nat, s': State)
    requires Sequential(nodes, 0) && s.pos == at && Matches(st, s) && fuel > 0
    requires Located(nodes, GenStmt(While(e, body), at, t).code, at)
    ensures Runs(ctx, nodes, s, k, s')
    ensures Shows(ctx, nodes, Exec(true, While(e, body), st, fuel), k, s, s',
              at + |GenStmt(While(e, body), at, t).code|, Loops(While(e, body)), fuel)
    decreases fuel, body, 1
  {
    hide Sequential, Runs, Located, GenLoop, ExecLoop;
    k, s' := LoopRuns(ctx, nodes, e, body, at, t, s, st, fuel - 1);
  }

  lemma {:induction false} IfRuns(ctx: Context, nodes: seq<Node>, e: Expr, body: seq<Stmt>, at: nat, t: nat, s: State,
                                  st: Store, fuel: nat) returns (k: nat, s': State)
    requires Sequential(nodes, 0) && s.pos == at && Matches(st, s)
    requires Located(nodes, GenStmt(IfThen(e, body), at, t).code, at)
    ensures Runs(ctx, nodes, s, k, s')
    ensures Shows(ctx, nodes, Exec(true, IfThen(e, body), st, fuel), k, s, s',
              at + |GenStmt(IfThen(e, body), at, t).code|, Loops(IfThen(e, body)), fuel)
    decreases fuel, body, 1
  {
    hide Sequential, Runs, Located, GenExpr, GenBlock, Eval, Step;
    var c := GenExpr(e, at, t);
    var test := at + |c.code|;
    var b := GenBlock(body, test + 1, c.temps);
    var exit := test + 1 + |b.code|;
    LocatedParts(nodes, c.code + [TestNode(test, c.res, Some(exit))], b.code, at);
    LocatedParts(nodes, c.code, [TestNode(test, c.res, Some(exit))], at);
    LocatedNode(nodes, [TestNode(test, c.res, Some(exit))], test, 0);
    WithinList(nodes, b.code, test + 1);
    k, s' := TestRuns(ctx, nodes, e, at, t, exit, s, st);
    if Eval(true, e, st) != 0 {
      var j, m := BlockRuns(ctx, nodes, body, test + 1, c.temps, s', st, fuel);
      ThenRuns(ctx, nodes, s, k, s', j, m);
      k, s' := k + j, m;
    }
  }

  lemma WithinList(nodes: seq<Node>, code: seq<Node>, at: nat)
    requires Located(nodes, code, at)
    ensures at + |code| <= |nodes|
  {
  }

  lemma {:induction false} LoopRuns(ctx: Context, nodes: seq<Node>, e: Expr, body: seq<Stmt>, at: nat, t: nat, s: State,
                                    st: Store, fuel: nat) returns (k: nat, s': State)
    requires Sequential(nodes, 0) && s.pos == at && Matches(st, s)
    requires Located(nodes, GenLoop(e, body, at, t).code, at)
    ensures Runs(ctx, nodes, s, k, s')
    ensures Shows(ctx, nodes, ExecLoop(true, e, body, st, fuel), k, s, s', at + |GenLoop(e, body, at, t).code|,
              BlockLoops(body), fuel)
    decreases fuel, body, 1
  {
    hide Sequential, Runs, Located, GenExpr, GenBlock, Eval, Step;
    var c := GenExpr(e, at, t);
    var test := at + |c.code|;
    var b := GenBlock(body, test + 1, c.temps);
    var back := test + 1 + |b.code|;
    LoopParts(nodes, c.code, TestNode(test, c.res, Some(back + 1)), b.code, JumpNode(back, Some(at)), at);
    k, s' := TestRuns(ctx, nodes, e, at, t, back + 1, s, st);
    if Eval(true, e, st) != 0 && fuel > 0 {
      var j, m := BlockRuns(ctx, nodes, body, test + 1, c.temps, s', st, fuel - 1);
      ThenRuns(ctx, nodes, s, k, s', j, m);
      k, s' := k + j, m;
      var once := ExecBlock(true, body, st, fuel - 1);
      if GoesOn(once) {
        m := JumpRuns(ctx, nodes, s', at);
        ThenRuns(ctx, nodes, s, k, s', 1, m);
        k, s' := k + 1, m;
        j, m := LoopRuns(ctx, nodes, e, body, at, t, s', once.value.st, fuel - 1);
        ThenRuns(ctx, nodes, s, k, s', j, m);
        k, s' := k + j, m;
      }
    }
  }

  lemma LoopParts(nodes: seq<Node>, c: seq<Node>, test: Node, b: seq<Node>, back: Node, at: nat)
    requires Located(nodes, c + [test] + b + [back], at)
    ensures Located(nodes, c, at) && Located(nodes, b, at + |c| + 1)
    ensures at + |c| + 1 + |b| < |nodes|
    ensures nodes[at + |c|] == test && nodes[at + |c| + 1 + |b|] == back
  {
    LocatedParts(nodes, c + [test] + b, [back], at);
    LocatedParts(nodes, c + [test], b, at);
    LocatedParts(nodes, c, [test], at);
    LocatedNode(nodes, [test], at + |c|, 0);
    LocatedNode(nodes, [back], at + |c| + 1 + |b|, 0);
  }

  /** A DO from its condition on. */
  lemma {:induction false} DoTailRuns(ctx: Context, nodes: seq<Node>, body: seq<Stmt>, e: Expr, at: nat, t: nat,
                                      s: State, st: Store, fuel: nat) returns (k: nat, s': State)
    requires Sequential(nodes, 0) && Matches(st, s) && s.pos == at + |GenBlock(body, at, t).code|
    requires Located(nodes, GenStmt(Do(body, e), at, t).code, at)
    ensures Runs(ctx, nodes, s, k, s')
    ensures Shows(ctx, nodes, ExecLoop(true, e, body, st, fuel), k, s, s', at + |GenStmt(Do(body, e), at, t).code|,
              BlockLoops(body), fuel)
    decreases fuel, body, 2
  {
    hide Sequential, Runs, Located, GenExpr, GenBlock, Eval, Step;
    var b := GenBlock(body, at, t);
    var c := GenExpr(e, s.pos, b.temps);
    var test := s.pos + |c.code|;
    DoParts(nodes, b.code, c.code, TestNode(test, c.res, Some(test + 2)), JumpNode(test + 1, Some(at)), at);
    k, s' := TestRuns(ctx, nodes, e, s.pos, b.temps, test + 2, s, st);
    if Eval(true, e, st) != 0 {
      var m := JumpRuns(ctx, nodes, s', at);
      ThenRuns(ctx, nodes, s, k, s', 1, m);
      k, s' := k + 1, m;
      if fuel > 0 {
        var j;
        j, m := BlockRuns(ctx, nodes, body, at, t, s', st, fuel - 1);
        ThenRuns(ctx, nodes, s, k, s', j, m);
        k, s' := k + j, m;
        var once := ExecBlock(true, body, st, fuel - 1);
        if GoesOn(once) {
          j, m := DoTailRuns(ctx, nodes, body, e, at, t, s', once.value.st, fuel - 1);
          ThenRuns(ctx, nodes, s, k, s', j, m);
          k, s' := k + j, m;
        }
      }
    }
  }

  lemma DoParts(nodes: seq<Node>, b: seq<Node>, c: seq<Node>, test: Node, back: Node, at: nat)
    requires Located(nodes, b + c + [test] + [back], at)
    ensures Located(nodes, b, at) && Located(nodes, c, at + |b|)
    ensures at + |b| + |c| + 1 < |nodes|
    ensures nodes[at + |b| + |c|] == test && nodes[at + |b| + |c| + 1] == back
  {
    LocatedParts(nodes, b + c + [test], [back], at);
    LocatedParts(nodes, b + c, [test], at);
    LocatedParts(nodes, b, c, at);
    LocatedNode(nodes, [test], at + |b| + |c|, 0);
    LocatedNode(nodes, [back], at + |b| + |c| + 1, 0);
  }

  lemma {:induction false} DoRuns(ctx: Context, nodes: seq<Node>, body: seq<Stmt>, e: Expr, at: nat, t: nat, s: State,
                                  st: Store, fuel: nat) returns (k: nat, s': State)
    requires Sequential(nodes, 0) && s.pos == at && Matches(st, s) && fuel > 0
    requires Located(nodes, GenStmt(Do(body, e), at, t).code, at)
    ensures Runs(ctx, nodes, s, k, s')
    ensures Shows(ctx, nodes, Exec(true, Do(body, e), st, fuel), k, s, s', at + |GenStmt(Do(body, e), at, t).code|,
              Loops(Do(body, e)), fuel)
    decreases fuel, body, 1
  {
    hide Sequential, Runs, Located, GenExpr, GenBlock, Eval, Step;
    var b := GenBlock(body, at, t);
    var c := GenExpr(e, at + |b.code|, b.temps);
    var test := at + |b.code| + |c.code|;
    DoParts(nodes, b.code, c.code, TestNode(test, c.res, Some(test + 2)), JumpNode(test + 1, Some(at)), at);
    k, s' := BlockRuns(ctx, nodes, body, at, t, s, st, fuel - 1);
    var first := ExecBlock(true, body, st, fuel - 1);
    if GoesOn(first) {
      var j, m := DoTailRuns(ctx, nodes, body, e, at, t, s', first.value.st, fuel - 1);
      ThenRuns(ctx, nodes, s, k, s', j, m);
      k, s' := k + j, m;
    }
  }

  lemma {:induction false} ForRuns(ctx: Context, nodes: seq<Node>, init: Stmt, e: Expr, step: Stmt, body: seq<Stmt>,
                                   at: nat, t: nat, s: State, st: Store, fuel: nat) returns (k: nat, s': State)
    requires Sequential(nodes, 0) && s.pos == at && Matches(st, s) && fuel > 0
    requires Located(nodes, GenStmt(For(init, e, step, body), at, t).code, at)
    ensures Runs(ctx, nodes, s, k, s')
    ensures Shows(ctx, nodes, Exec(true, For(init, e, step, body), st, fuel), k, s, s',
              at + |GenStmt(For(init, e, step, body), at, t).code|, Loops(For(init, e, step, body)), fuel)
    decreases fuel, body, 1
  {
    ForIsLoop(init, e, step, body, at, t);
    SnocLoops(body, step);
    hide Sequential, Runs, Located, GenStmt, GenLoop, GenExpr, GenBlock, Eval, Step;
    var i := GenStmt(init, at, t);
    LocatedParts(nodes, i.code, GenLoop(e, body + [step], at + |i.code|, i.temps).code, at);
    k, s' := StmtRuns(ctx, nodes, init, at, t, s, st, fuel - 1);
    var first := Exec(true, init, st, fuel - 1);
    if GoesOn(first) {
      var j, m := LoopRuns(ctx, nodes, e, body + [step], at + |i.code|, i.temps, s', first.value.st, fuel - 1);
      ThenRuns(ctx, nodes, s, k, s', j, m);
      k, s' := k + j, m;
    }
  }

  lemma {:induction false} BlockRuns(ctx: Context, nodes: seq<Node>, ss: seq<Stmt>, at: nat, t: nat, s: State,
                                     st: Store, fuel: nat) returns (k: nat, s': State)
    requires Sequential(nodes, 0) && s.pos == at && Matches(st, s)
    requires Located(nodes, GenBlock(ss, at, t).code, at)
    ensures Runs(ctx, nodes, s, k, s')
    ensures Shows(ctx, nodes, ExecBlock(true, ss, st, fuel), k, s, s', at + |GenBlock(ss, at, t).code|,
              BlockLoops(ss), fuel)
    decreases fuel, ss, 0
  {
    hide Sequential, Located, GenStmt, Step;
    k, s' := 0, s;
    if ss != [] {
      var a := GenStmt(ss[0], at, t);
      LocatedParts(nodes, a.code, GenBlock(ss[1..], at + |a.code|, a.temps).code, at);
      hide Runs, Matches;
      k, s' := StmtRuns(ctx, nodes, ss[0], at, t, s, st, fuel);
      var first := Exec(true, ss[0], st, fuel);
      if GoesOn(first) {
        var j, m := BlockRuns(ctx, nodes, ss[1..], at + |a.code|, a.temps, s', first.value.st, fuel);
        ThenRuns(ctx, nodes, s, k, s', j, m);
        k, s' := k + j, m;
      }
    }
  }

  // ----- A whole function -----

  /** The store a function starts with: the arguments bound on top of what the variables held before. */
  function Bound(ctx: Context, params: seq<nat>, st: Store): Store {
    if params == [] then st
    else
      var n := |params| - 1;
      Bound(ctx, params[..n], st)[params[n] := ctx.params(n)]
  }

  /** LABEL and BEGIN do nothing. */
  lemma PrologueStart(ctx: Context, nodes: seq<Node>, params: seq<nat>, s: State) returns (s': State)
    requires s.pos == 0 && Located(nodes, Prologue(params), 0)
    ensures Runs(ctx, nodes, s, 2, s') && s' == s.(pos := 2)
  {
    LocatedNode(nodes, Prologue(params), 0, 0);
    LocatedNode(nodes, Prologue(params), 0, 1);
    hide Located, Prologue;
    s' := s.(pos := 2);
    assert Step(ctx, nodes, s) == Running(s.(pos := 1));
    assert Step(ctx, nodes, s.(pos := 1)) == Running(s');
    hide Step;
    RunThen(ctx, nodes, s, 1, 1);
  }

  /** A RECEIVE binds its parameter. */
  lemma ReceiveRuns(ctx: Context, nodes: seq<Node>, params: seq<nat>, n: nat, m: State, st: Store) returns (s': State)
    requires 0 < n <= |params| && Located(nodes, Prologue(params), 0)
    requires m.pos == n + 1 && m.received == n - 1 && Matches(Bound(ctx, params[..n - 1], st), m)
    ensures Runs(ctx, nodes, m, 1, s') && Matches(Bound(ctx, params[..n], st), s')
    ensures s'.pos == n + 2 && s'.received == n && s'.mem == m.mem && s'.calls == m.calls
  {
    LocatedNode(nodes, Prologue(params), 0, n + 1);
    assert Prologue(params)[(n - 1) + 2].instr == Plain(Receive, Absent, Absent, VarOperand(params[n - 1]));
    hide Located, Prologue, Step, Run;
    s' := ReceiveStep(ctx, nodes, m, params[n - 1]);
    StepRuns(ctx, nodes, m, s');
    assert params[..n][..n - 1] == params[..n - 1];
  }

  lemma ReceiveStep(ctx: Context, nodes: seq<Node>, m: State, x: nat) returns (s': State)
    requires m.pos < |nodes| && nodes[m.pos].instr == Plain(Receive, Absent, Absent, VarOperand(x))
    ensures Step(ctx, nodes, m) == Running(s')
    ensures s' == m.(pos := m.pos + 1, env := m.env[Var(x) := ctx.params(m.received)], received := m.received + 1)
  {
    s' := m.(pos := m.pos + 1, env := m.env[Var(x) := ctx.params(m.received)], received := m.received + 1);
  }

  lemma {:induction false} PrologueRuns(ctx: Context, nodes: seq<Node>, params: seq<nat>, n: nat, s: State, st: Store)
    returns (s': State)
    requires s.pos == 0 && s.received == 0 && Matches(st, s) && n <= |params|
    requires Located(nodes, Prologue(params), 0)
    ensures Runs(ctx, nodes, s, n + 2, s') && Matches(Bound(ctx, params[..n], st), s')
    ensures s'.pos == n + 2 && s'.received == n && s'.mem == s.mem && s'.calls == s.calls
  {
    hide Located, Prologue, Runs;
    if n == 0 {
      s' := PrologueStart(ctx, nodes, params, s);
    } else {
      hide Matches, Bound;
      var m := PrologueRuns(ctx, nodes, params, n - 1, s, st);
      s' := ReceiveRuns(ctx, nodes, params, n, m, st);
      ThenRuns(ctx, nodes, s, n + 1, m, 1, s');
    }
  }

  lemma FuncParts(params: seq<nat>, body: seq<Stmt>, t0: nat)
    ensures var nodes := GenFunc(params, body, t0);
      var b := GenBlock(body, |params| + 2, t0).code;
      && Located(nodes, Prologue(params), 0) && Located(nodes, b, |params| + 2)
      && |nodes| == |params| + 3 + |b|
      && nodes[|params| + 2 + |b|].instr == Plain(End, Absent, Absent, Absent)
  {
    hide Sequential, GenBlock, Prologue;
    var nodes := GenFunc(params, body, t0);
    var b := GenBlock(body, |params| + 2, t0).code;
    var end := [Node(|params| + 2 + |b|, Plain(End, Absent, Absent, Absent), None)];
    assert Located(nodes, Prologue(params) + b + end, 0);
    LocatedParts(nodes, Prologue(params) + b, end, 0);
    LocatedParts(nodes, Prologue(params), b, 0);
    LocatedNode(nodes, end, |params| + 2 + |b|, 0);
  }

  lemma EndStep(ctx: Context, nodes: seq<Node>, s: State, k: nat, s': State)
    requires Runs(ctx, nodes, s, k, s') && s'.pos < |nodes| && nodes[s'.pos].instr.opcode.End?
    ensures Run(ctx, nodes, s, k + 1) == Ended(s'.mem, s'.calls)
  {
    RunThen(ctx, nodes, s, k, 1);
  }

  lemma ReturnStep(ctx: Context, nodes: seq<Node>, s: State, k: nat, s': State, v: int)
    requires Runs(ctx, nodes, s, k, s') && Leaves(ctx, nodes, s, s', v)
    ensures Run(ctx, nodes, s, k + 1) == Returned(v, s.mem, s.calls)
  {
    RunThen(ctx, nodes, s, k, 1);
  }

  /** How a run that started at `s` is over when the program ends like `f`. */
  function Final(f: Flow, s: State): (o: Outcome)
    ensures !o.Running?
  {
    match f
    case Next(_) => Ended(s.mem, s.calls)
    case Leave(v) => Returned(v, s.mem, s.calls)
  }

  /** Running a generated function for a given number of loop rounds of its body. */
  lemma FuncRuns(ctx: Context, params: seq<nat>, body: seq<Stmt>, t0: nat, s: State, st: Store, fuel: nat)
    returns (k: nat, s': State)
    requires s.pos == 0 && s.received == 0 && Matches(st, s)
    ensures var nodes := GenFunc(params, body, t0);
      var r := ExecBlock(true, body, Bound(ctx, params, st), fuel);
      && Runs(ctx, nodes, s, k, s')
      && if r.None? then k + BlockLoops(body) >= fuel
         else Run(ctx, nodes, s, k + 1) == Final(r.value, s) && (r.value.Next? ==> Matches(r.value.st, s'))
  {
    hide Sequential, Located, Run, Runs, Matches, Bound, GenFunc, GenBlock, Prologue, ExecBlock, BlockLoops, Step;
    var nodes := GenFunc(params, body, t0);
    FuncParts(params, body, t0);
    var m := PrologueRuns(ctx, nodes, params, |params|, s, st);
    assert params[..|params|] == params;
    var j;
    j, s' := BlockRuns(ctx, nodes, body, |params| + 2, t0, m, Bound(ctx, params, st), fuel);
    ThenRuns(ctx, nodes, s, |params| + 2, m, j, s');
    k := |params| + 2 + j;
    var r := ExecBlock(true, body, Bound(ctx, params, st), fuel);
    if GoesOn(r) {
      EndStep(ctx, nodes, s, k, s');
    } else if r.Some? {
      ReturnStep(ctx, nodes, s, k, s', r.value.value);
    }
  }

  /** Whether, and how, a program ends. */
  ghost predicate EndsWith(body: seq<Stmt>, st: Store, end: Flow) {
    exists fuel: nat :: ExecBlock(false, body, st, fuel) == Some(end)
  }

  /** The program ends from the store `start` in a way that leaves a run from `s` with the outcome `o`. */
  ghost predicate Means(body: seq<Stmt>, start: Store, s: State, o: Outcome) {
    exists end :: EndsWith(body, start, end) && Final(end, s) == o
  }

  /** Code generation is correct: whenever the source program ends, the emitted function does, and the same
      way. When execution reaches the end of the body, the variables hold what they hold in the program; a
      RETURN leaves with the program's value. Memory and calls are left alone. */
  lemma CompiledEndsTheSame(ctx: Context, params: seq<nat>, body: seq<Stmt>, t0: nat, s: State, st: Store, end: Flow)
    returns (k: nat, s': State)
    requires BlockInFragment(body) && s.pos == 0 && s.received == 0 && Matches(st, s)
    requires EndsWith(body, Bound(ctx, params, st), end)
    ensures Run(ctx, GenFunc(params, body, t0), s, k) == Running(s') && (end.Next? ==> Matches(end.st, s'))
    ensures Run(ctx, GenFunc(params, body, t0), s, k + 1) == Final(end, s)
  {
    var fuel: nat :| ExecBlock(false, body, Bound(ctx, params, st), fuel) == Some(end);
    BlockIsSource(body, Bound(ctx, params, st), fuel);
    k, s' := FuncRuns(ctx, params, body, t0, s, st, fuel);
  }

  /** It ends with an outcome only when the source program ends that way. */
  lemma CompiledEndsWhenSourceEnds(ctx: Context, params: seq<nat>, body: seq<Stmt>, t0: nat, s: State, st: Store,
                                   o: Outcome)
    requires BlockInFragment(body) && s.pos == 0 && s.received == 0 && Matches(st, s) && !o.Running?
    ensures Reaches(ctx, GenFunc(params, body, t0), s, o) <==> Means(body, Bound(ctx, params, st), s, o)
  {
    hide GenFunc, BlockInFragment, Matches, Bound, ExecBlock, Run, Final;
    if end :| EndsWith(body, Bound(ctx, params, st), end) && Final(end, s) == o {
      var k, _ := CompiledEndsTheSame(ctx, params, body, t0, s, st, end);
      assert Run(ctx, GenFunc(params, body, t0), s, k + 1) == o;
    }
    if k: nat :| Run(ctx, GenFunc(params, body, t0), s, k) == o {
      var end := SourceEndsToo(ctx, params, body, t0, s, st, k);
      assert Final(end, s) == o;
    }
  }

  lemma SourceEndsToo(ctx: Context, params: seq<nat>, body: seq<Stmt>, t0: nat, s: State, st: Store, k: nat)
    returns (end: Flow)
    requires BlockInFragment(body) && s.pos == 0 && s.received == 0 && Matches(st, s)
    requires !Run(ctx, GenFunc(params, body, t0), s, k).Running?
    ensures EndsWith(body, Bound(ctx, params, st), end) && Final(end, s) == Run(ctx, GenFunc(params, body, t0), s, k)
  {
    var fuel := k + BlockLoops(body);
    BlockIsSource(body, Bound(ctx, params, st), fuel);
    var j, s' := FuncRuns(ctx, params, body, t0, s, st, fuel);
    var r := ExecBlock(true, body, Bound(ctx, params, st), fuel);
    hide GenFunc, BlockInFragment, Matches, Bound, ExecBlock, Run, Final;
    OutcomesMeet(ctx, GenFunc(params, body, t0), s, k, if r.Some? then j + 1 else j);
    if r.Some? {
      OutcomesMeet(ctx, GenFunc(params, body, t0), s, j + 1, k);
    }
    end := r.value;
  }
}
