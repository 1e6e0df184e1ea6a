/** The structured fragment the generator is proved for, and what its programs mean. */
module Source {
  import opened Wrappers
  import opened Mir

  datatype ArithOp = Plus | Minus | Times

  datatype RelOp = Equal | NotEqual | Less | LessEqual | Greater | GreaterEqual

  datatype Expr =
    | Num(n: int)
    | Id(x: nat)
    | Bin(op: ArithOp, l: Expr, r: Expr)
    | Rel(rel: RelOp, l: Expr, r: Expr)
    | Or(l: Expr, r: Expr)
    | And(l: Expr, r: Expr)

  datatype Stmt =
    | Assign(x: nat, e: Expr)
    | IfThen(cond: Expr, body: seq<Stmt>)
    | While(cond: Expr, body: seq<Stmt>)
    | Do(body: seq<Stmt>, cond: Expr)
    | For(init: Stmt, cond: Expr, step: Stmt, body: seq<Stmt>)
    | Return(e: Expr)

  /** A function: the variables its arguments go to, and its body. */
  datatype Func = Func(params: seq<nat>, body: seq<Stmt>)

  type Store = map<nat, int>

  /** How a statement ends: execution goes on behind it, or leaves the function with a value. */
  datatype Flow = Next(st: Store) | Leave(value: int)

  /** The statement ended and execution goes on. */
  predicate GoesOn(r: Option<Flow>) {
    r.Some? && r.value.Next?
  }

  function Lookup(st: Store, x: nat): int {
    if x in st then st[x] else 0
  }

  function Calculate(op: ArithOp, a: int, b: int): int {
    match op
    case Plus => Wrap(a + b)
    case Minus => Wrap(a - b)
    case Times => Wrap(a * b)
  }

  predicate Holds(op: RelOp, a: int, b: int) {
    match op
    case Equal => a == b
    case NotEqual => a != b
    case Less => a < b
    case LessEqual => a <= b
    case Greater => a > b
    case GreaterEqual => a >= b
  }

  function Truth(b: bool): int {
    if b then 1 else 0
  }

  /** The value of an expression. `asCompiled` asks for what the emitted code computes, which for AND
      looks at the left operand only. */
  function Eval(asCompiled: bool, e: Expr, st: Store): int {
    match e
    case Num(n) => n
    case Id(x) => Lookup(st, x)
    case Bin(op, l, r) => Calculate(op, Eval(asCompiled, l, st), Eval(asCompiled, r, st))
    case Rel(op, l, r) => Truth(Holds(op, Eval(asCompiled, l, st), Eval(asCompiled, r, st)))
    case Or(l, r) => Truth(Eval(asCompiled, l, st) != 0 || Eval(asCompiled, r, st) != 0)
    case And(l, r) => Truth(Eval(asCompiled, l, st) != 0 && (asCompiled || Eval(asCompiled, r, st) != 0))
  }

  /** An assignment. The emitted code for a relational or logical right-hand side stores only the value
      its last MOVE carries, and otherwise leaves the variable alone. */
  function AfterAssign(asCompiled: bool, x: nat, e: Expr, st: Store): Store {
    var v := Eval(asCompiled, e, st);
    if !asCompiled || e.Num? || e.Id? || e.Bin? then st[x := v]
    else if e.Or? then (if v == 0 then st[x := 0] else st)
    else (if v == 1 then st[x := 1] else st)
  }

  /** Arithmetic is that of the integers as long as the result fits a word, and what is left of it modulo
      4294967296 otherwise. */
  lemma CalculateMeans(op: ArithOp, a: int, b: int)
    ensures var exact := if op.Plus? then a + b else if op.Minus? then a - b else a * b;
      && FitsWord(Calculate(op, a, b)) && (exact - Calculate(op, a, b)) % 4294967296 == 0
      && (FitsWord(exact) ==> Calculate(op, a, b) == exact)
  {
  }

  /** Exactly one of the three relations holds of two numbers, adding one makes a number greater, and the
      other three relations are their opposites. */
  lemma RelationsMean(a: int, b: int)
    ensures Holds(Equal, a, b) <==> !Holds(Less, a, b) && !Holds(Greater, a, b)
    ensures !(Holds(Less, a, b) && Holds(Greater, a, b)) && Holds(Less, a, a + 1)
    ensures Holds(Less, a, b) <==> Holds(LessEqual, a + 1, b)
    ensures Holds(NotEqual, a, b) <==> !Holds(Equal, a, b)
    ensures Holds(GreaterEqual, a, b) <==> !Holds(Less, a, b)
    ensures Holds(LessEqual, a, b) <==> !Holds(Greater, a, b)
  {
  }

  /** Runs a statement; `None` when `fuel` loop rounds were not enough. */
  function Exec(asCompiled: bool, s: Stmt, st: Store, fuel: nat): Option<Flow>
    decreases fuel, s, 0
  {
    match s
    case Assign(x, e) => Some(Next(AfterAssign(asCompiled, x, e, st)))
    case IfThen(e, body) =>
      if Eval(asCompiled, e, st) == 0 then Some(Next(st)) else ExecBlock(asCompiled, body, st, fuel)
    case While(e, body) => if fuel == 0 then None else ExecLoop(asCompiled, e, body, st, fuel - 1)
    case Do(body, e) =>
      if fuel == 0 then None
      else
        var first := ExecBlock(asCompiled, body, st, fuel - 1);
        if GoesOn(first) then ExecLoop(asCompiled, e, body, first.value.st, fuel - 1) else first
    case For(init, e, step, body) =>
      if fuel == 0 then None
      else
        var first := Exec(asCompiled, init, st, fuel - 1);
        if GoesOn(first) then ExecLoop(asCompiled, e, body + [step], first.value.st, fuel - 1) else first
    case Return(e) => Some(Leave(Eval(asCompiled, e, st)))
  }

  function ExecBlock(asCompiled: bool, ss: seq<Stmt>, st: Store, fuel: nat): Option<Flow>
    decreases fuel, ss, 0
  {
    if ss == [] then Some(Next(st))
    else
      var first := Exec(asCompiled, ss[0], st, fuel);
      if GoesOn(first) then ExecBlock(asCompiled, ss[1..], first.value.st, fuel) else first
  }

  function ExecLoop(asCompiled: bool, e: Expr, body: seq<Stmt>, st: Store, fuel: nat): Option<Flow>
    decreases fuel, body, 1
  {
    if Eval(asCompiled, e, st) == 0 then Some(Next(st))
    else if fuel == 0 then None
    else
      var once := ExecBlock(asCompiled, body, st, fuel - 1);
      if GoesOn(once) then ExecLoop(asCompiled, e, body, once.value.st, fuel - 1) else once
  }

  // ----- A program, run by the meaning above -----

  /** 1 + 2 + ... + n. */
  function Triangle(n: nat): nat {
    if n == 0 then 0 else Triangle(n - 1) + n
  }

  /** s := s + n; n := n - 1 */
  function AddAndStep(n: nat, s: nat): seq<Stmt> {
    [Assign(s, Bin(Plus, Id(s), Id(n))), Assign(n, Bin(Minus, Id(n), Num(1)))]
  }

  lemma AddedAndStepped(n: nat, s: nat, st: Store, fuel: nat)
    requires n != s && FitsWord(Lookup(st, s) + Lookup(st, n)) && FitsWord(Lookup(st, n) - 1)
    ensures var r := ExecBlock(false, AddAndStep(n, s), st, fuel);
      && GoesOn(r) && Lookup(r.value.st, s) == Lookup(st, s) + Lookup(st, n)
      && Lookup(r.value.st, n) == Lookup(st, n) - 1
  {
    var body := AddAndStep(n, s);
    assert body[1..][1..] == [];
    var sum, less := body[0].e, body[1].e;
    assert Eval(false, sum.l, st) == Lookup(st, s) && Eval(false, sum.r, st) == Lookup(st, n);
    var mid := AfterAssign(false, s, sum, st);
    assert Eval(false, less.l, mid) == Lookup(mid, n) == Lookup(st, n) && Eval(false, less.r, mid) == 1;
    var next := AfterAssign(false, n, less, mid);
    assert ExecBlock(false, body[1..][1..], next, fuel) == Some(Next(next));
    assert ExecBlock(false, body[1..], mid, fuel) == Some(Next(next));
  }

  /** WHILE n > 0 adds n, n - 1, ..., 1 to s, in n rounds, when the sum fits a word. */
  lemma {:induction false} WhileAddsUp(n: nat, s: nat, st: Store, fuel: nat)
    requires n != s && 0 <= Lookup(st, n) <= fuel && FitsWord(Lookup(st, n))
    requires FitsWord(Lookup(st, s)) && FitsWord(Lookup(st, s) + Triangle(Lookup(st, n)))
    ensures var r := ExecLoop(false, Rel(Greater, Id(n), Num(0)), AddAndStep(n, s), st, fuel);
      && GoesOn(r) && Lookup(r.value.st, n) == 0 && Lookup(r.value.st, s) == Lookup(st, s) + Triangle(Lookup(st, n))
    decreases fuel
  {
    var test := Rel(Greater, Id(n), Num(0));
    assert Eval(false, test.l, st) == Lookup(st, n) && Eval(false, test.r, st) == 0;
    if Lookup(st, n) > 0 {
      assert Triangle(Lookup(st, n)) == Triangle(Lookup(st, n) - 1) + Lookup(st, n);
      AddedAndStepped(n, s, st, fuel - 1);
      WhileAddsUp(n, s, ExecBlock(false, AddAndStep(n, s), st, fuel - 1).value.st, fuel - 1);
    }
  }

  // ----- Programs that cannot avoid reading something -----

  /** The code of an expression reads a variable or an intermediate value, however its tests go. */
  predicate CodeReads(e: Expr) {
    match e
    case Num(_) => false
    case Id(_) => false
    case Bin(_, l, r) => !l.Num? || !r.Num?
    case Rel(_, l, r) => !l.Num? || !r.Num?
    case Or(l, r) => !l.Num? || CodeReads(r)
    case And(l, r) => !l.Num? || CodeReads(r)
  }

  /** No way through the statement's code avoids reading something. The bodies of IF, WHILE and FOR can be
      avoided; their conditions and everything one after the other cannot. */
  predicate SurelyReads(s: Stmt) {
    match s
    case Assign(_, e) => e.Id? || CodeReads(e)
    case IfThen(e, _) => !e.Num?
    case While(e, _) => !e.Num?
    case Do(body, e) => BlockSurelyReads(body) || !e.Num?
    case For(init, e, _, _) => SurelyReads(init) || !e.Num?
    case Return(e) => !e.Num?
  }

  predicate BlockSurelyReads(ss: seq<Stmt>) {
    ss != [] && (SurelyReads(ss[0]) || BlockSurelyReads(ss[1..]))
  }

  /** A body that ends with a RETURN of anything but a constant, whatever comes before. */
  lemma {:induction false} LastReturnReads(ss: seq<Stmt>, e: Expr)
    requires !e.Num?
    ensures BlockSurelyReads(ss + [Stmt.Return(e)])
  {
    if ss != [] {
      assert (ss + [Stmt.Return(e)])[1..] == ss[1..] + [Stmt.Return(e)];
      LastReturnReads(ss[1..], e);
    }
  }

  // ----- Where the emitted code means what the source says -----

  predicate NoAnd(e: Expr) {
    match e
    case Num(_) => true
    case Id(_) => true
    case Bin(_, l, r) => NoAnd(l) && NoAnd(r)
    case Rel(_, l, r) => NoAnd(l) && NoAnd(r)
    case Or(l, r) => NoAnd(l) && NoAnd(r)
    case And(_, _) => false
  }

  /** No AND, and only variables, constants and arithmetic on the right of an assignment. */
  predicate InFragment(s: Stmt) {
    match s
    case Assign(_, e) => NoAnd(e) && (e.Num? || e.Id? || e.Bin?)
    case IfThen(e, body) => NoAnd(e) && BlockInFragment(body)
    case While(e, body) => NoAnd(e) && BlockInFragment(body)
    case Do(body, e) => NoAnd(e) && BlockInFragment(body)
    case For(init, e, step, body) => NoAnd(e) && InFragment(init) && InFragment(step) && BlockInFragment(body)
    case Return(e) => NoAnd(e)
  }

  predicate BlockInFragment(ss: seq<Stmt>) {
    ss == [] || (InFragment(ss[0]) && BlockInFragment(ss[1..]))
  }

  lemma {:induction false} EvalIsSource(e: Expr, st: Store)
    requires NoAnd(e)
    ensures Eval(true, e, st) == Eval(false, e, st)
  {
    if e.Bin? || e.Rel? || e.Or? {
      EvalIsSource(e.l, st);
      EvalIsSource(e.r, st);
    }
  }

  /** AND means what it should exactly when its left operand is zero or its right one is not. */
  lemma AndIsExact(l: Expr, r: Expr, st: Store)
    requires NoAnd(l) && NoAnd(r)
    ensures Eval(true, And(l, r), st) == Eval(false, And(l, r), st) <==>
      Eval(false, l, st) == 0 || Eval(false, r, st) != 0
  {
    EvalIsSource(l, st);
    EvalIsSource(r, st);
  }

  /** Assigning a relation works exactly when it holds or the variable is zero already; assigning an OR
      exactly when it is false or the variable is one already; assigning an AND exactly when its left
      operand is not zero and its right one is not either, or the left one is zero and so is the variable. */
  lemma LogicalAssignIsExact(x: nat, e: Expr, st: Store)
    requires if e.And? then NoAnd(e.l) && NoAnd(e.r) else NoAnd(e) && (e.Rel? || e.Or?)
    ensures (forall y: nat :: Lookup(AfterAssign(true, x, e, st), y) == Lookup(AfterAssign(false, x, e, st), y)) <==>
      (if e.Rel? then Eval(false, e, st) == 1 || Lookup(st, x) == 0
       else if e.Or? then Eval(false, e, st) == 0 || Lookup(st, x) == 1
       else if Eval(false, e.l, st) == 0 then Lookup(st, x) == 0
       else Eval(false, e.r, st) != 0)
  {
    if e.And? {
      EvalIsSource(e.l, st);
      EvalIsSource(e.r, st);
    } else {
      EvalIsSource(e, st);
    }
    assert Lookup(AfterAssign(false, x, e, st), x) == Eval(false, e, st);
    var v := Eval(true, e, st);
    assert Lookup(AfterAssign(true, x, e, st), x) == if e.Or? == (v == 0) then v else Lookup(st, x);
  }

  lemma AppendInFragment(ss: seq<Stmt>, s: Stmt)
    requires BlockInFragment(ss) && InFragment(s)
    ensures BlockInFragment(ss + [s])
  {
    if ss == [] {
      assert ss + [s] == [s];
    } else {
      AppendInFragment(ss[1..], s);
      assert (ss + [s])[1..] == ss[1..] + [s];
    }
  }

  /** In the fragment the two readings of a program agree. */
  lemma {:induction false} ExecIsSource(s: Stmt, st: Store, fuel: nat)
    requires InFragment(s)
    ensures Exec(true, s, st, fuel) == Exec(false, s, st, fuel)
    decreases fuel, s, 0
  {
    match s
    case Assign(x, e) =>
      EvalIsSource(e, st);
    case IfThen(e, body) =>
      EvalIsSource(e, st);
      BlockIsSource(body, st, fuel);
    case While(e, body) =>
      if fuel > 0 {
        LoopIsSource(e, body, st, fuel - 1);
      }
    case Do(body, e) =>
      if fuel > 0 {
        BlockIsSource(body, st, fuel - 1);
        var first := ExecBlock(true, body, st, fuel - 1);
        if GoesOn(first) {
          LoopIsSource(e, body, first.value.st, fuel - 1);
        }
      }
    case For(init, e, step, body) =>
      if fuel > 0 {
        ExecIsSource(init, st, fuel - 1);
        AppendInFragment(body, step);
        var first := Exec(true, init, st, fuel - 1);
        if GoesOn(first) {
          LoopIsSource(e, body + [step], first.value.st, fuel - 1);
        }
      }
    case Return(e) =>
      EvalIsSource(e, st);
  }

  lemma {:induction false} BlockIsSource(ss: seq<Stmt>, st: Store, fuel: nat)
    requires BlockInFragment(ss)
    ensures ExecBlock(true, ss, st, fuel) == ExecBlock(false, ss, st, fuel)
    decreases fuel, ss, 0
  {
    if ss != [] {
      ExecIsSource(ss[0], st, fuel);
      var first := Exec(true, ss[0], st, fuel);
      if GoesOn(first) {
        BlockIsSource(ss[1..], first.value.st, fuel);
      }
    }
  }

  lemma {:induction false} LoopIsSource(e: Expr, body: seq<Stmt>, st: Store, fuel: nat)
    requires NoAnd(e) && BlockInFragment(body)
    ensures ExecLoop(true, e, body, st, fuel) == ExecLoop(false, e, body, st, fuel)
    decreases fuel, body, 1
  {
    EvalIsSource(e, st);
    if fuel > 0 {
      BlockIsSource(body, st, fuel - 1);
      var once := ExecBlock(true, body, st, fuel - 1);
      if GoesOn(once) {
        LoopIsSource(e, body, once.value.st, fuel - 1);
      }
    }
  }
}
