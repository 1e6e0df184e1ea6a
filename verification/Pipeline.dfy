/** From a structured function to lowered MIR: the generator followed by the list passes, and what the
    two theorems about them say together. */
module Pipeline {
  import opened Wrappers
  import opened Liveness
  import opened Mir
  import opened MirList
  import opened Source
  import opened CodeGen
  import opened CodeGenCorrect
  import opened Simulation
  import opened Lowering
  import opened Passes

  /** Generated code: registers below `bound`, jumps no further than `end`, in the form the passes expect. */
  ghost predicate Clean(code: seq<Node>, bound: nat, end: nat) {
    forall q :: 0 <= q < |code| ==> CleanNode(code[q], bound, end)
  }

  predicate CleanNode(n: Node, bound: nat, end: nat) {
    && Below(n.instr, bound) && Formed(n.instr) && Settled(n.instr)
    && (Jumps(n.instr.opcode) ==> n.jump.Some? && n.jump.value <= end)
  }

  lemma CleanConcat(a: seq<Node>, b: seq<Node>, m: nat, n: nat, e: nat, f: nat)
    requires Clean(a, m, e) && Clean(b, n, f) && m <= n && e <= f
    ensures Clean(a + b, n, f)
  {
  }

  lemma TailClean(e: Expr, at: nat, a: Operand, b: Operand, r: nat, d: Name, bound: nat)
    requires Compound(e) && Steady(a, r) && Steady(b, r) && r < bound && OperandBelow(Loc(d, false), bound)
    ensures var tail := Tail(e, at, a, b, r, Loc(d, false)); Clean(tail, bound, at + |tail|)
  {
  }

  lemma {:induction false} OperandsClean(e: Expr, at: nat, t: nat)
    requires Compound(e)
    ensures var o := GenOperands(e, at, t);
      Clean(o.code, o.temps, at + |o.code|) && Steady(o.a, o.temps) && Steady(o.b, o.temps)
    decreases e, 0
  {
    hide Sequential, Clean, GenExpr;
    var a := GenExpr(e.l, at, t);
    var b := GenExpr(e.r, at + |a.code|, a.temps);
    ExprClean(e.l, at, t);
    ExprClean(e.r, at + |a.code|, a.temps);
    CleanConcat(a.code, b.code, a.temps, b.temps, at + |a.code|, at + |a.code| + |b.code|);
    ResultIsSteady(e.l, at, t);
    ResultIsSteady(e.r, at + |a.code|, a.temps);
  }

  lemma OwnTempsAreBelow(e: Expr, d: Name, r: nat)
    requires d.Reg? ==> d.num == r
    ensures r < r + OwnTemps(e) && OperandBelow(Loc(d, false), r + OwnTemps(e))
  {
  }

  lemma {:induction false} CompoundClean(e: Expr, at: nat, t: nat, d: Name)
    requires Compound(e) && (d.Reg? ==> d.num == GenOperands(e, at, t).temps)
    ensures var code := CompoundNodes(e, at, t, d);
      Clean(code, GenOperands(e, at, t).temps + OwnTemps(e), at + |code|)
    decreases e, 1
  {
    hide Sequential, Clean, GenOperands, Tail, Steady;
    var o := GenOperands(e, at, t);
    OperandsClean(e, at, t);
    OwnTempsAreBelow(e, d, o.temps);
    hide OwnTemps, OperandBelow;
    var tail := Tail(e, at + |o.code|, o.a, o.b, o.temps, Loc(d, false));
    TailClean(e, at + |o.code|, o.a, o.b, o.temps, d, o.temps + OwnTemps(e));
    CleanConcat(o.code, tail, o.temps, o.temps + OwnTemps(e), at + |o.code|, at + |o.code| + |tail|);
  }

  lemma {:induction false} ExprClean(e: Expr, at: nat, t: nat)
    ensures var g := GenExpr(e, at, t); Clean(g.code, g.temps, at + |g.code|)
    decreases e, 2
  {
    if Compound(e) {
      var r := GenOperands(e, at, t).temps;
      assert GenExpr(e, at, t).code == CompoundNodes(e, at, t, Reg(r)) && GenExpr(e, at, t).temps == r + OwnTemps(e);
      hide Sequential, Clean, GenOperands, GenExpr, CompoundNodes;
      CompoundClean(e, at, t, Reg(r));
    }
  }

  lemma AssignClean(x: nat, e: Expr, at: nat, t: nat)
    ensures var g := GenAssign(x, e, at, t); Clean(g.code, g.temps, at + |g.code|)
  {
    if Compound(e) {
      assert GenAssign(x, e, at, t).code == CompoundNodes(e, at, t, Var(x));
      hide Sequential, Clean, GenOperands, CompoundNodes;
      CompoundClean(e, at, t, Var(x));
    }
  }

  lemma TestClean(at: nat, e: Expr, p: nat, t: nat, exit: nat)
    ensures Clean([TestNode(at, GenExpr(e, p, t).res, Some(exit))], GenExpr(e, p, t).temps, exit)
  {
    hide Sequential, GenExpr;
    ResultIsSteady(e, p, t);
  }

  /** A condition and its test. */
  lemma CondClean(e: Expr, at: nat, t: nat, exit: nat)
    requires at + |GenExpr(e, at, t).code| <= exit
    ensures var c := GenExpr(e, at, t);
      Clean(c.code + [TestNode(at + |c.code|, c.res, Some(exit))], c.temps, exit)
  {
    hide Sequential, GenExpr, Clean;
    var c := GenExpr(e, at, t);
    ExprClean(e, at, t);
    TestClean(at + |c.code|, e, at, t, exit);
    CleanConcat(c.code, [TestNode(at + |c.code|, c.res, Some(exit))], c.temps, c.temps, at + |c.code|, exit);
  }

  lemma JumpClean(at: nat, dest: nat, bound: nat, end: nat)
    requires dest <= end
    ensures Clean([JumpNode(at, Some(dest))], bound, end)
  {
  }

  lemma {:induction false} LoopClean(e: Expr, body: seq<Stmt>, at: nat, t: nat)
    ensures var g := GenLoop(e, body, at, t); Clean(g.code, g.temps, at + |g.code|)
    decreases body, 1
  {
    hide Sequential, GenExpr, GenBlock, Clean;
    var c := GenExpr(e, at, t);
    var test := at + |c.code|;
    var b := GenBlock(body, test + 1, c.temps);
    var back := test + 1 + |b.code|;
    CondClean(e, at, t, back + 1);
    BlockClean(body, test + 1, c.temps);
    var cond := c.code + [TestNode(test, c.res, Some(back + 1))];
    WiderClean(b.code, b.temps, back, back + 1);
    CleanConcat(cond, b.code, c.temps, b.temps, back + 1, back + 1);
    JumpClean(back, at, b.temps, back + 1);
    CleanConcat(cond + b.code, [JumpNode(back, Some(at))], b.temps, b.temps, back + 1, back + 1);
  }

  lemma WiderClean(code: seq<Node>, bound: nat, e: nat, f: nat)
    requires Clean(code, bound, e) && e <= f
    ensures Clean(code, bound, f)
  {
  }

  lemma {:induction false} IfClean(e: Expr, body: seq<Stmt>, at: nat, t: nat)
    ensures var g := GenStmt(IfThen(e, body), at, t); Clean(g.code, g.temps, at + |g.code|)
    decreases body, 1
  {
    hide Sequential, GenExpr, GenBlock, Clean;
    var c := GenExpr(e, at, t);
    var test := at + |c.code|;
    var b := GenBlock(body, test + 1, c.temps);
    var end := test + 1 + |b.code|;
    CondClean(e, at, t, end);
    BlockClean(body, test + 1, c.temps);
    CleanConcat(c.code + [TestNode(test, c.res, Some(end))], b.code, c.temps, b.temps, end, end);
  }

  lemma {:induction false} DoClean(body: seq<Stmt>, e: Expr, at: nat, t: nat)
    ensures var g := GenStmt(Do(body, e), at, t); Clean(g.code, g.temps, at + |g.code|)
    decreases body, 1
  {
    hide Sequential, GenExpr, GenBlock, Clean;
    var b := GenBlock(body, at, t);
    var c := GenExpr(e, at + |b.code|, b.temps);
    var test := at + |b.code| + |c.code|;
    BlockClean(body, at, t);
    ExprClean(e, at + |b.code|, b.temps);
    CleanConcat(b.code, c.code, b.temps, c.temps, at + |b.code|, test);
    TestClean(test, e, at + |b.code|, b.temps, test + 2);
    CleanConcat(b.code + c.code, [TestNode(test, c.res, Some(test + 2))], c.temps, c.temps, test, test + 2);
    JumpClean(test + 1, at, c.temps, test + 2);
    CleanConcat(b.code + c.code + [TestNode(test, c.res, Some(test + 2))], [JumpNode(test + 1, Some(at))],
      c.temps, c.temps, test + 2, test + 2);
  }

  lemma {:induction false} ForClean(init: Stmt, e: Expr, step: Stmt, body: seq<Stmt>, at: nat, t: nat)
    ensures var g := GenStmt(For(init, e, step, body), at, t); Clean(g.code, g.temps, at + |g.code|)
    decreases For(init, e, step, body), 0
  {
    hide Sequential, GenStmt, GenExpr, GenBlock, Clean;
    var i, c, b, n := ForParts(init, e, step, body, at, t);
    var test := at + |i.code| + |c.code|;
    var back := test + 1 + |b.code| + |n.code|;
    var end := back + 1;
    StmtClean(init, at, t);
    ExprClean(e, at + |i.code|, i.temps);
    CleanConcat(i.code, c.code, i.temps, c.temps, at + |i.code|, test);
    TestClean(test, e, at + |i.code|, i.temps, end);
    var cond := i.code + c.code + [TestNode(test, c.res, Some(end))];
    CleanConcat(i.code + c.code, [TestNode(test, c.res, Some(end))], c.temps, c.temps, test, end);
    BlockClean(body, test + 1, c.temps);
    WiderClean(b.code, b.temps, test + 1 + |b.code|, end);
    CleanConcat(cond, b.code, c.temps, b.temps, end, end);
    StmtClean(step, test + 1 + |b.code|, b.temps);
    WiderClean(n.code, n.temps, back, end);
    CleanConcat(cond + b.code, n.code, b.temps, n.temps, end, end);
    JumpClean(back, at + |i.code|, n.temps, end);
    CleanConcat(cond + b.code + n.code, [JumpNode(back, Some(at + |i.code|))], n.temps, n.temps, end, end);
  }

  lemma ReturnClean(e: Expr, at: nat, t: nat)
    ensures var g := GenStmt(Stmt.Return(e), at, t); Clean(g.code, g.temps, at + |g.code|)
  {
    hide Sequential, GenExpr;
    var c := GenExpr(e, at, t);
    ExprClean(e, at, t);
    ResultIsSteady(e, at, t);
    var last := [ReturnNode(at + |c.code|, c.res)];
    assert Clean(last, c.temps, at + |c.code| + 1);
    hide Clean;
    CleanConcat(c.code, last, c.temps, c.temps, at + |c.code|, at + |c.code| + 1);
  }

  lemma {:induction false} StmtClean(c: Stmt, at: nat, t: nat)
    ensures var g := GenStmt(c, at, t); Clean(g.code, g.temps, at + |g.code|)
    decreases c, 1
  {
    assert c.Assign? ==> GenStmt(c, at, t) == GenAssign(c.x, c.e, at, t);
    assert c.While? ==> GenStmt(c, at, t) == GenLoop(c.cond, c.body, at, t);
    hide Clean, GenStmt, GenAssign, GenLoop, Sequential;
    match c
    case Assign(x, e) =>
      AssignClean(x, e, at, t);
    case IfThen(e, body) =>
      IfClean(e, body, at, t);
    case While(e, body) =>
      LoopClean(e, body, at, t);
    case Do(body, e) =>
      DoClean(body, e, at, t);
    case For(init, e, step, body) =>
      ForClean(init, e, step, body, at, t);
    case Return(e) =>
      ReturnClean(e, at, t);
  }

  lemma {:induction false} BlockClean(ss: seq<Stmt>, at: nat, t: nat)
    ensures var g := GenBlock(ss, at, t); Clean(g.code, g.temps, at + |g.code|)
    decreases ss, 0
  {
    hide Sequential, GenStmt, CleanNode;
    if ss != [] {
      hide Clean;
      var a := GenStmt(ss[0], at, t);
      var b := GenBlock(ss[1..], at + |a.code|, a.temps);
      StmtClean(ss[0], at, t);
      BlockClean(ss[1..], at + |a.code|, a.temps);
      CleanConcat(a.code, b.code, a.temps, b.temps, at + |a.code|, at + |a.code| + |b.code|);
    }
  }

  /** The registers a function's code uses. */
  function FuncTemps(params: seq<nat>, body: seq<Stmt>, t0: nat): nat {
    GenBlock(body, |params| + 2, t0).temps
  }

  /** No jump of a function leaves it: the last node, END, is the furthest target. */
  lemma FuncClean(params: seq<nat>, body: seq<Stmt>, t0: nat)
    ensures var nodes := GenFunc(params, body, t0);
      Framed(nodes) && Clean(nodes, FuncTemps(params, body, t0), |nodes| - 1)
  {
    hide Sequential, GenBlock, Clean;
    var b := GenBlock(body, |params| + 2, t0);
    var last := |params| + 2 + |b.code|;
    var end := [Node(last, Plain(End, Absent, Absent, Absent), None)];
    BlockClean(body, |params| + 2, t0);
    PrologueClean(params, b.temps, last);
    CleanConcat(Prologue(params), b.code, b.temps, b.temps, last, last);
    EndClean(last, b.temps);
    CleanConcat(Prologue(params) + b.code, end, b.temps, b.temps, last, last);
  }

  lemma EndClean(at: nat, bound: nat)
    ensures Clean([Node(at, Plain(End, Absent, Absent, Absent), None)], bound, at)
  {
  }

  lemma PrologueClean(params: seq<nat>, bound: nat, end: nat)
    ensures Clean(Prologue(params), bound, end)
  {
    var code := Prologue(params);
    forall q | 0 <= q < |code|
      ensures CleanNode(code[q], bound, end)
    {
      if q >= 2 {
        assert code[(q - 2) + 2] == Node((q - 2) + 2, Plain(Receive, Absent, Absent, VarOperand(params[q - 2])), None);
      }
    }
  }

  // ----- All functions of a program -----

  /** What became of a function's list: its first temporary, the temporaries in use when it was lowered, and
      where its nodes went. */
  datatype Trace = Trace(t0: nat, bound: nat, l: Layout)

  /** `nodes` is the code of `f` after the passes. */
  ghost predicate Compiled(f: Func, c: Trace, nodes: seq<Node>) {
    && Refines(GenFunc(f.params, f.body, c.t0), nodes, c.l, c.bound)
    && Framed(nodes) && Every(nodes, Settled)
    && (Every(GenFunc(f.params, f.body, c.t0), Finished) ==> nodes == GenFunc(f.params, f.body, c.t0))
  }

  /** The first temporary of function `i`: temporaries are numbered on from function to function. */
  ghost function FirstTemp(funcs: seq<Func>, i: nat): nat
    requires i <= |funcs|
  {
    if i == 0 then 0 else FuncTemps(funcs[i - 1].params, funcs[i - 1].body, FirstTemp(funcs, i - 1))
  }

  lemma TempsGrow(params: seq<nat>, body: seq<Stmt>, t0: nat)
    ensures t0 <= FuncTemps(params, body, t0)
  {
  }

  /** `list` holds the generated code of function `i`, whose temporaries are below `temps`. */
  ghost predicate Generated(funcs: seq<Func>, i: nat, temps: nat, list: List)
    requires i < |funcs|
    reads list
  {
    && list.Valid() && list.nodes == GenFunc(funcs[i].params, funcs[i].body, FirstTemp(funcs, i))
    && FirstTemp(funcs, i + 1) <= temps
  }

  ghost predicate AllDifferent(lists: seq<List>) {
    forall i, j :: 0 <= i < j < |lists| ==> lists[i] != lists[j]
  }

  /** parse_func for every function of the program, one after the other. */
  method GenerateAll(funcs: seq<Func>) returns (lists: seq<List>, temps: nat)
    ensures |lists| == |funcs| && AllDifferent(lists)
    ensures forall i: nat :: i < |funcs| ==> fresh(lists[i]) && Generated(funcs, i, temps, lists[i])
  {
    hide Generated, FirstTemp;
    lists, temps := [], 0;
    NoTemps(funcs);
    var i := 0;
    while i < |funcs|
      invariant 0 <= i <= |funcs| && |lists| == i && AllDifferent(lists) && temps == FirstTemp(funcs, i)
      invariant forall k: nat :: k < i ==> fresh(lists[k]) && Generated(funcs, k, temps, lists[k])
    {
      var list, next := GenerateNext(funcs, i, temps);
      forall k: nat | k < i
        ensures Generated(funcs, k, next, lists[k])
      {
        StillGenerated(funcs, k, temps, next, lists[k]);
      }
      lists, temps := lists + [list], next;
      i := i + 1;
    }
  }

  lemma NoTemps(funcs: seq<Func>)
    ensures FirstTemp(funcs, 0) == 0
  {
  }

  lemma StillGenerated(funcs: seq<Func>, i: nat, temps: nat, more: nat, list: List)
    requires i < |funcs| && Generated(funcs, i, temps, list) && temps <= more
    ensures Generated(funcs, i, more, list)
  {
  }

  method GenerateNext(funcs: seq<Func>, i: nat, temps: nat) returns (list: List, next: nat)
    requires i < |funcs| && temps == FirstTemp(funcs, i)
    ensures fresh(list) && temps <= next == FirstTemp(funcs, i + 1) && Generated(funcs, i, next, list)
  {
    hide GenFunc, GenBlock;
    TempsGrow(funcs[i].params, funcs[i].body, temps);
    list, next := ParseFunc(funcs[i].params, funcs[i].body, temps);
  }

  /** The passes over one function's list. */
  method LowerFunc(ghost funcs: seq<Func>, ghost i: nat, list: List, temps: nat)
    returns (next: nat, ghost c: Trace)
    requires i < |funcs| && Generated(funcs, i, temps, list)
    modifies list
    ensures temps <= next && Compiled(funcs[i], c, list.nodes)
    ensures c.t0 == FirstTemp(funcs, i) && c.bound == temps
    ensures Every(list.nodes, Direct) && Every(list.nodes, Folded) && Every(list.nodes, RightHanded)
  {
    ghost var t0 := FirstTemp(funcs, i);
    FuncIsReady(funcs[i].params, funcs[i].body, t0, temps);
    hide GenFunc, WellLinked, Below, Formed, Settled, Refines, FuncTemps;
    var lowerer := new Lowerer(list, temps);
    ghost var l := lowerer.Lower();
    next, c := lowerer.temps, Trace(t0, temps, l);
  }

  lemma FuncIsReady(params: seq<nat>, body: seq<Stmt>, t0: nat, temps: nat)
    requires FuncTemps(params, body, t0) <= temps
    ensures var nodes := GenFunc(params, body, t0);
      Framed(nodes) && AllBelow(nodes, temps) && Every(nodes, Formed) && Every(nodes, Settled)
  {
    FuncClean(params, body, t0);
    var nodes := GenFunc(params, body, t0);
    hide GenFunc, FuncTemps;
    forall q | 0 <= q < |nodes|
      ensures Below(nodes[q].instr, temps) && Formed(nodes[q].instr) && Settled(nodes[q].instr)
    {
      assert CleanNode(nodes[q], FuncTemps(params, body, t0), |nodes| - 1);
    }
  }

  /** Generates all functions and then lowers their lists. */
  method CompileAll(funcs: seq<Func>) returns (code: seq<seq<Node>>, ghost traces: seq<Trace>)
    ensures |code| == |traces| == |funcs|
    ensures forall i: nat :: i < |funcs| ==>
      Compiled(funcs[i], traces[i], code[i]) && traces[i].t0 == FirstTemp(funcs, i)
    ensures forall i: nat :: i < |funcs| ==>
      Every(code[i], Direct) && Every(code[i], Folded) && Every(code[i], RightHanded)
  {
    hide Compiled, GenFunc, FirstTemp;
    var lists, temps := GenerateAll(funcs);
    ghost var all := temps;
    code, traces := [], [];
    var i := 0;
    while i < |funcs|
      invariant 0 <= i <= |funcs| && |code| == |traces| == i && all <= temps
      invariant forall k: nat :: i <= k < |funcs| ==> Generated(funcs, k, all, lists[k])
      invariant forall k: nat :: k < i ==>
        Compiled(funcs[k], traces[k], code[k]) && traces[k].t0 == FirstTemp(funcs, k)
      invariant forall k: nat :: k < i ==>
        Every(code[k], Direct) && Every(code[k], Folded) && Every(code[k], RightHanded)
      invariant forall k: nat :: k < |funcs| ==> fresh(lists[k])
    {
      ghost var c;
      temps, c := LowerFunc(funcs, i, lists[i], temps);
      code, traces := code + [lists[i].nodes], traces + [c];
      i := i + 1;
    }
  }

  lemma EndKeeps(ctx: Context, nodes: seq<Node>, s: State, k: nat, m: State)
    requires Run(ctx, nodes, s, k) == Running(m) && Run(ctx, nodes, s, k + 1) == Ended(s.mem, s.calls)
    ensures m.mem == s.mem && m.calls == s.calls
  {
    RunThen(ctx, nodes, s, k, 1);
  }

  /** The whole way keeps the meaning: when the source program ends, its lowered code does, and the same
      way. At the end of the body the variables hold what they hold in the program; a RETURN leaves with
      the program's value. */
  lemma CompiledAndLoweredEndsTheSame(ctx: Context, f: Func, c: Trace, nodes: seq<Node>, s: State, st: Store,
                                      end: Flow) returns (k: nat, s': State)
    requires Compiled(f, c, nodes)
    requires BlockInFragment(f.body) && s.pos == 0 && s.received == 0 && Matches(st, s)
    requires EndsWith(f.body, Bound(ctx, f.params, st), end)
    ensures Run(ctx, nodes, s, k) == Running(s')
    ensures end.Next? ==> Matches(end.st, s') && s'.mem == s.mem && s'.calls == s.calls
    ensures Reaches(ctx, nodes, s, Final(end, s))
  {
    hide GenFunc, Step, BlockInFragment, EndsWith, Bound;
    var code := GenFunc(f.params, f.body, c.t0);
    assert Corresponds(c.l.entry, c.bound, s, s);
    var i, m := CompiledEndsTheSame(ctx, f.params, f.body, c.t0, s, st, end);
    k := RunMatched(ctx, code, nodes, c.l.entry, c.bound, s, s, i);
    s' := Run(ctx, nodes, s, k).s;
    var j := RunMatched(ctx, code, nodes, c.l.entry, c.bound, s, s, i + 1);
    assert Run(ctx, nodes, s, j) == Final(end, s);
    if end.Next? {
      EndKeeps(ctx, code, s, i, m);
      assert Corresponds(c.l.entry, c.bound, m, s');
    }
  }

  /** It ends with an outcome exactly when the source program ends that way. */
  lemma LoweredEndsWhenSourceEnds(ctx: Context, f: Func, c: Trace, nodes: seq<Node>, s: State, st: Store, o: Outcome)
    requires Compiled(f, c, nodes)
    requires BlockInFragment(f.body) && s.pos == 0 && s.received == 0 && Matches(st, s) && !o.Running?
    ensures Reaches(ctx, nodes, s, o) <==> Means(f.body, Bound(ctx, f.params, st), s, o)
  {
    var code := GenFunc(f.params, f.body, c.t0);
    assert Corresponds(c.l.entry, c.bound, s, s);
    hide GenFunc, Run, BlockInFragment, EndsWith, Bound, Final, Reaches, Means;
    CompiledEndsWhenSourceEnds(ctx, f.params, f.body, c.t0, s, st, o);
    EndsTheSame(ctx, code, nodes, c.l.entry, c.bound, s, s, o);
  }
}
