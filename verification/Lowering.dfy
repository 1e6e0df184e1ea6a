/** The passes of mir.c that edit the list: what one edit does to every run. */
module Lowering {
  import opened Wrappers
  import opened Liveness
  import opened Mir
  import opened MirList
  import opened Simulation

  // ----- Instructions over registers below a bound -----

  predicate OperandBelow(op: Operand, bound: nat) {
    op.Loc? && op.name.Reg? ==> op.name.num < bound
  }

  predicate Below(i: Instr, bound: nat) {
    && OperandBelow(i.op0, bound) && OperandBelow(i.op1, bound) && OperandBelow(i.op2, bound)
    && forall k :: 0 <= k < |i.args| ==> OperandBelow(i.args[k], bound)
  }

  ghost predicate AllBelow(nodes: seq<Node>, bound: nat) {
    forall q :: 0 <= q < |nodes| ==> Below(nodes[q].instr, bound)
  }

  lemma ValueBelow(op: Operand, s: State, t: State, bound: nat)
    requires Agree(s, t, bound) && OperandBelow(op, bound)
    ensures Value(s, op) == Value(t, op)
  {
  }

  lemma PutBelow(op: Operand, v: int, s: State, t: State, bound: nat)
    requires Agree(s, t, bound) && OperandBelow(op, bound)
    ensures Agree(Put(s, op, v), Put(t, op, v), bound)
  {
  }

  lemma ValuesBelow(ops: seq<Operand>, s: State, t: State, bound: nat)
    requires Agree(s, t, bound) && forall k :: 0 <= k < |ops| ==> OperandBelow(ops[k], bound)
    ensures Values(s, ops) == Values(t, ops)
  {
    forall k | 0 <= k < |ops|
      ensures Value(s, ops[k]) == Value(t, ops[k])
    {
      ValueBelow(ops[k], s, t, bound);
    }
  }

  lemma OperandsBelow(i: Instr, s: State, t: State, bound: nat)
    requires Agree(s, t, bound) && Below(i, bound)
    ensures Value(s, i.op0) == Value(t, i.op0) && Value(s, i.op1) == Value(t, i.op1)
    ensures Value(s, i.op2) == Value(t, i.op2)
  {
    ValueBelow(i.op0, s, t, bound);
    ValueBelow(i.op1, s, t, bound);
    ValueBelow(i.op2, s, t, bound);
  }

  lemma EffectBelow(ctx: Context, i: Instr, s: State, t: State, bound: nat)
    requires Agree(s, t, bound) && Below(i, bound)
    ensures Agree(Effect(ctx, i, s), Effect(ctx, i, t), bound)
  {
    OperandsBelow(i, s, t, bound);
    match i.opcode
    case Nop | Label | Begin | PushArg | StackStore | RegStore =>
    case Receive =>
      PutBelow(Undereferenced(i.op2), ctx.params(s.received), s, t, bound);
    case Call =>
      ValuesBelow(i.args, s, t, bound);
      var calls := s.calls + [CallEvent(Undereferenced(i.op0), Values(s, i.args))];
      var r := ctx.callee(calls, s.mem);
      PutBelow(i.op2, r.0, s.(mem := r.1, calls := calls), t.(mem := r.1, calls := calls), bound);
    case HeapStore =>
      var a := ctx.globalAddr(i.op2);
      PutBelow(i.op1, a, s, t, bound);
      ValueBelow(i.op0, Put(s, i.op1, a), Put(t, i.op1, a), bound);
    case _ =>
      PutBelow(i.op2, Result(ctx, i, s), s, t, bound);
  }

  /** What an instruction that only computes a value puts in its destination. */
  function Result(ctx: Context, i: Instr, s: State): int {
    match i.opcode
    case Move => Value(s, i.op0)
    case StackAddr => ctx.frame + Constant(i.op0)
    case HeapAddr => ctx.globalAddr(i.op0)
    case LoadString => ctx.stringAddr(Constant(i.op0))
    case StackLoad => Fetch(s.mem, ctx.frame + Constant(i.op0))
    case HeapLoad => Fetch(s.mem, ctx.globalAddr(i.op0))
    case RegLoad => Fetch(s.mem, Value(s, i.op0))
    case _ => Arith(ctx, i.opcode, Value(s, i.op0), Value(s, i.op1))
  }

  // ----- A list with one node edited -----

  /** The same instruction at `q` in one list and at `p` in the other takes both runs to matching places. */
  lemma SameStep(ctx: Context, was: seq<Node>, now: seq<Node>, entry: seq<nat>, bound: nat, p: nat, s: State, t: State)
    requires |entry| == |was| + 1 && s.pos < |was| && t.pos == p < |now| && Agree(s, t, bound)
    requires Below(was[s.pos].instr, bound) && now[p].instr == was[s.pos].instr && entry[s.pos + 1] == p + 1
    requires Target(was, was[s.pos]) <= |was| && Target(now, now[p]) == entry[Target(was, was[s.pos])]
    ensures Matching(entry, bound, Step(ctx, was, s), Step(ctx, now, t))
  {
    hide Effect, Below, Compare, Target;
    var i := was[s.pos].instr;
    OperandsBelow(i, s, t, bound);
    EffectBelow(ctx, i, s, t, bound);
    assert Taken(i, s) == Taken(i, t);
    hide Value, Taken, Agree;
  }

  /** One node edited, the others as they were: the edited list simulates the old one when it does so
      from the edited node. */
  lemma EditSimulates(was: seq<Node>, now: seq<Node>, l: Layout, bound: nat, p: nat)
    requires LaidOut(was, now, l) && AllBelow(was, bound) && p < |was|
    requires forall q :: 0 <= q < |was| && q != p ==>
      l.place[q] == l.entry[q] < |now| && l.entry[q + 1] == l.entry[q] + 1 && now[l.entry[q]].instr == was[q].instr
    requires forall ctx: Context, s: State, t: State :: s.pos == p && Corresponds(l.entry, bound, s, t) ==>
      StepMatched(ctx, was, now, l.entry, bound, s, t)
    ensures Simulates(was, now, l.entry, bound)
  {
    forall ctx: Context, s: State, t: State | Corresponds(l.entry, bound, s, t)
      ensures StepMatched(ctx, was, now, l.entry, bound, s, t)
    {
      if s.pos == |was| {
        assert Step(ctx, was, s) == Run(ctx, now, t, 1);
      } else if s.pos != p {
        assert NodeLaidOut(was, now, l, s.pos);
        SameStep(ctx, was, now, l.entry, bound, t.pos, s, t);
        assert Run(ctx, now, t, 1) == Step(ctx, now, t);
      }
    }
  }

  // ----- The three edits -----

  /** The layout of a list whose nodes all stayed where they were. */
  function Same(n: nat): (l: Layout)
    ensures |l.entry| == n + 1 && forall q :: 0 <= q <= n ==> l.entry[q] == q
    ensures |l.place| == n && forall q :: 0 <= q < n ==> l.place[q] == q
  {
    Layout(seq(n + 1, q => q), seq(n, q => q))
  }

  /** The layout with one node more at `p`: before the old node there or, if not `before`, behind it. */
  function Grown(n: nat, p: nat, before: bool): (l: Layout)
    requires p < n
    ensures |l.entry| == n + 1 && forall q :: 0 <= q <= n ==> l.entry[q] == if q <= p then q else q + 1
    ensures |l.place| == n
    ensures forall q :: 0 <= q < n ==> l.place[q] == if q < p || (q == p && !before) then q else q + 1
  {
    Layout(seq(n + 1, q requires 0 <= q <= n => if q <= p then q else q + 1),
           seq(n, q requires 0 <= q < n => if q < p || (q == p && !before) then q else q + 1))
  }

  function Replaced(nodes: seq<Node>, p: nat, instr: Instr): seq<Node>
    requires p < |nodes|
  {
    nodes[p := nodes[p].(instr := instr)]
  }

  /** `n` put before the node at `p`, which becomes `instr` and hands its label to `n`. */
  function Prefixed(nodes: seq<Node>, p: nat, n: Node, instr: Instr): seq<Node>
    requires p < |nodes|
  {
    Replaced(Redirected(Inserted(nodes, p, n), nodes[p].id, n.id), p + 1, instr)
  }

  /** `n` put behind the node at `p`, which becomes `instr`. */
  function Suffixed(nodes: seq<Node>, p: nat, n: Node, instr: Instr): seq<Node>
    requires p < |nodes|
  {
    Replaced(Inserted(nodes, p + 1, n), p, instr)
  }

  ghost predicate Fresh(nodes: seq<Node>, id: nat) {
    forall q :: 0 <= q < |nodes| ==> nodes[q].id != id && nodes[q].jump != Some(id)
  }

  lemma FindSameIds(a: seq<Node>, b: seq<Node>, id: nat)
    requires |a| == |b| && forall k :: 0 <= k < |a| ==> a[k].id == b[k].id
    ensures Find(a, id) == Find(b, id)
  {
    FindFirst(b, id);
    FindIs(a, id, Find(b, id));
  }

  lemma FindInserted(nodes: seq<Node>, p: nat, n: Node, id: nat)
    requires p <= |nodes| && id != n.id
    ensures Find(Inserted(nodes, p, n), id) == if Find(nodes, id) < p then Find(nodes, id) else Find(nodes, id) + 1
  {
    hide Inserted, Find;
    FindFirst(nodes, id);
    var at := Find(nodes, id);
    var to := if at < p then at else at + 1;
    var after := Inserted(nodes, p, n);
    forall k | 0 <= k < to
      ensures after[k].id != id
    {
      assert k != p ==> after[k] == nodes[if k < p then k else k - 1];
    }
    FindIs(after, id, to);
  }

  lemma ReplacedLaidOut(nodes: seq<Node>, p: nat, instr: Instr)
    requires p < |nodes|
    ensures LaidOut(nodes, Replaced(nodes, p, instr), Same(|nodes|))
  {
    var after := Replaced(nodes, p, instr);
    forall q: nat | q < |nodes|
      ensures NodeLaidOut(nodes, after, Same(|nodes|), q)
    {
      if nodes[q].jump.Some? {
        FindSameIds(nodes, after, nodes[q].jump.value);
      }
    }
  }

  lemma PrefixedLaidOut(nodes: seq<Node>, p: nat, n: Node, instr: Instr)
    requires 0 < p < |nodes| && UniqueIds(nodes) && Fresh(nodes, n.id)
    ensures LaidOut(nodes, Prefixed(nodes, p, n, instr), Grown(|nodes|, p, true))
  {
    var after := Prefixed(nodes, p, n, instr);
    forall q: nat | q < |nodes|
      ensures NodeLaidOut(nodes, after, Grown(|nodes|, p, true), q)
    {
      PrefixedNode(nodes, p, n, instr, q);
    }
  }

  lemma PrefixedNode(nodes: seq<Node>, p: nat, n: Node, instr: Instr, q: nat)
    requires 0 < p < |nodes| && UniqueIds(nodes) && Fresh(nodes, n.id) && q < |nodes|
    ensures NodeLaidOut(nodes, Prefixed(nodes, p, n, instr), Grown(|nodes|, p, true), q)
  {
    hide *;
    PrefixedAt(nodes, p, n, instr, q);
    if nodes[q].jump.Some? {
      PrefixedTarget(nodes, p, n, instr, q);
    }
    AtGrown(nodes, Prefixed(nodes, p, n, instr), p, q);
  }

  lemma AtGrown(was: seq<Node>, now: seq<Node>, p: nat, q: nat)
    requires p < |was| && q < |was| && |now| == |was| + 1
    requires var at := if q < p then q else q + 1;
      var to := Target(was, was[q]);
      && now[at].id == was[q].id && now[at].jump.Some? == was[q].jump.Some?
      && (was[q].jump.Some? ==> Target(now, now[at]) == if to <= p then to else to + 1)
    ensures NodeLaidOut(was, now, Grown(|was|, p, true), q)
  {
    hide Target, Grown;
  }

  lemma PrefixedTarget(nodes: seq<Node>, p: nat, n: Node, instr: Instr, q: nat)
    requires p < |nodes| && UniqueIds(nodes) && Fresh(nodes, n.id) && q < |nodes| && nodes[q].jump.Some?
    ensures var at := Target(nodes, nodes[q]);
      var after := Prefixed(nodes, p, n, instr);
      && |after| == |nodes| + 1
      && Target(after, after[if q < p then q else q + 1]) == if at <= p then at else at + 1
  {
    assert nodes[q].jump.value != n.id;
    hide Prefixed, Find, UniqueIds, Fresh;
    PrefixedAt(nodes, p, n, instr, q);
    PrefixedFind(nodes, p, n, instr, nodes[q].jump.value);
  }

  lemma PrefixedAt(nodes: seq<Node>, p: nat, n: Node, instr: Instr, q: nat)
    requires p < |nodes| && q < |nodes|
    ensures var after := Prefixed(nodes, p, n, instr);
      var at := if q < p then q else q + 1;
      && |after| == |nodes| + 1 && after[at].id == nodes[q].id
      && after[at].jump == Redirect(nodes[q], nodes[p].id, n.id).jump
      && after[at].jump.Some? == nodes[q].jump.Some?
      && (q != p ==> after[at].instr == nodes[q].instr)
  {
    var at := if q < p then q else q + 1;
    assert Inserted(nodes, p, n)[at] == nodes[q];
  }

  /** Where the old identity `id` is found: the label of the node at `p` now belongs to `n`. */
  lemma PrefixedFind(nodes: seq<Node>, p: nat, n: Node, instr: Instr, id: nat)
    requires p < |nodes| && UniqueIds(nodes) && Fresh(nodes, n.id) && id != n.id
    ensures var at := Find(nodes, id);
      Find(Prefixed(nodes, p, n, instr), if id == nodes[p].id then n.id else id) == if at <= p then at else at + 1
  {
    var after := Prefixed(nodes, p, n, instr);
    PrefixedIds(nodes, p, n, instr);
    hide Prefixed, Inserted, Find;
    if id == nodes[p].id {
      FindIs(nodes, id, p);
      FindIs(after, n.id, p);
    } else {
      hide UniqueIds;
      FindInserted(nodes, p, n, id);
      FindSameIds(Inserted(nodes, p, n), after, id);
      assert Find(nodes, id) != p;
    }
  }

  lemma PrefixedIds(nodes: seq<Node>, p: nat, n: Node, instr: Instr)
    requires p < |nodes|
    ensures |Prefixed(nodes, p, n, instr)| == |Inserted(nodes, p, n)|
    ensures forall k :: 0 <= k < |nodes| + 1 ==> Prefixed(nodes, p, n, instr)[k].id == Inserted(nodes, p, n)[k].id
  {
  }

  lemma SuffixedLaidOut(nodes: seq<Node>, p: nat, n: Node, instr: Instr)
    requires p + 1 < |nodes| && Fresh(nodes, n.id)
    ensures LaidOut(nodes, Suffixed(nodes, p, n, instr), Grown(|nodes|, p, false))
  {
    hide Suffixed, Fresh;
    forall q: nat | q < |nodes|
      ensures NodeLaidOut(nodes, Suffixed(nodes, p, n, instr), Grown(|nodes|, p, false), q)
    {
      SuffixedNode(nodes, p, n, instr, q);
    }
    SuffixedAt(nodes, p, n, instr, p);
  }

  lemma SuffixedNode(nodes: seq<Node>, p: nat, n: Node, instr: Instr, q: nat)
    requires p + 1 < |nodes| && Fresh(nodes, n.id) && q < |nodes|
    ensures NodeLaidOut(nodes, Suffixed(nodes, p, n, instr), Grown(|nodes|, p, false), q)
  {
    assert nodes[q].jump != Some(n.id);
    hide Suffixed, Find, Fresh;
    SuffixedAt(nodes, p, n, instr, q);
    if nodes[q].jump.Some? {
      SuffixedFind(nodes, p, n, instr, nodes[q].jump.value);
    }
  }

  lemma SuffixedAt(nodes: seq<Node>, p: nat, n: Node, instr: Instr, q: nat)
    requires p < |nodes| && q < |nodes|
    ensures var after := Suffixed(nodes, p, n, instr);
      var at := if q <= p then q else q + 1;
      && |after| == |nodes| + 1 && after[at].id == nodes[q].id && after[at].jump == nodes[q].jump
      && (q != p ==> after[at].instr == nodes[q].instr)
  {
    assert Inserted(nodes, p + 1, n)[if q <= p then q else q + 1] == nodes[q];
  }

  lemma SuffixedFind(nodes: seq<Node>, p: nat, n: Node, instr: Instr, id: nat)
    requires p < |nodes| && id != n.id
    ensures var at := Find(nodes, id); Find(Suffixed(nodes, p, n, instr), id) == if at <= p then at else at + 1
  {
    FindInserted(nodes, p + 1, n, id);
    FindSameIds(Inserted(nodes, p + 1, n), Suffixed(nodes, p, n, instr), id);
    hide Find;
  }

  // ----- What each edit does to control flow -----

  lemma ReplacedKeepsFlow(nodes: seq<Node>, p: nat, instr: Instr)
    requires p < |nodes| && Straight(nodes[p].instr.opcode) && Straight(instr.opcode)
    requires HasSource(nodes[p].instr) ==> HasSource(instr)
    ensures KeepsFlow(nodes, Replaced(nodes, p, instr), Same(|nodes|))
  {
  }

  lemma PrefixedKeepsFlow(nodes: seq<Node>, p: nat, n: Node, instr: Instr)
    requires p < |nodes| && Straight(n.instr.opcode) && instr.opcode == nodes[p].instr.opcode
    requires HasSource(nodes[p].instr) ==> HasSource(instr)
    ensures KeepsFlow(nodes, Prefixed(nodes, p, n, instr), Grown(|nodes|, p, true))
  {
    var after := Prefixed(nodes, p, n, instr);
    assert after[p].instr == n.instr && after[p + 1].instr == instr;
    hide Prefixed;
    forall q: nat | q < |nodes|
      ensures FlowKept(nodes, after, Grown(|nodes|, p, true), q)
    {
      PrefixedAt(nodes, p, n, instr, q);
    }
    PrefixedAt(nodes, p, n, instr, p);
  }

  lemma SuffixedKeepsFlow(nodes: seq<Node>, p: nat, n: Node, instr: Instr)
    requires p < |nodes| && Straight(n.instr.opcode) && Straight(instr.opcode) && Straight(nodes[p].instr.opcode)
    requires HasSource(nodes[p].instr) ==> HasSource(instr)
    ensures KeepsFlow(nodes, Suffixed(nodes, p, n, instr), Grown(|nodes|, p, false))
  {
    var after := Suffixed(nodes, p, n, instr);
    assert after[p].instr == instr && after[p + 1].instr == n.instr;
    hide Suffixed;
    forall q: nat | q < |nodes|
      ensures FlowKept(nodes, after, Grown(|nodes|, p, false), q)
    {
      SuffixedAt(nodes, p, n, instr, q);
    }
    SuffixedAt(nodes, p, n, instr, p);
  }

  // ----- What each edit does to a step -----

  ghost predicate SameEffect(i: Instr, j: Instr) {
    && Straight(i.opcode) && Straight(j.opcode)
    && forall ctx: Context, s: State :: Effect(ctx, i, s) == Effect(ctx, j, s)
  }

  lemma ReplaceSimulates(nodes: seq<Node>, p: nat, instr: Instr, bound: nat)
    requires p < |nodes| && AllBelow(nodes, bound) && SameEffect(nodes[p].instr, instr)
    ensures Simulates(nodes, Replaced(nodes, p, instr), Same(|nodes|).entry, bound)
  {
    var after := Replaced(nodes, p, instr);
    var l := Same(|nodes|);
    ReplacedLaidOut(nodes, p, instr);
    hide LaidOut;
    forall ctx: Context, s: State, t: State | s.pos == p && Corresponds(l.entry, bound, s, t)
      ensures StepMatched(ctx, nodes, after, l.entry, bound, s, t)
    {
      EffectBelow(ctx, nodes[p].instr, s, t, bound);
      assert Effect(ctx, nodes[p].instr, t) == Effect(ctx, instr, t);
      hide Effect;
      assert Matching(l.entry, bound, Step(ctx, nodes, s), Run(ctx, after, t, 1));
    }
    EditSimulates(nodes, after, l, bound, p);
  }

  /** Which source of an instruction is meant. */
  datatype Slot = First | Second | Arg(k: nat)

  predicate IsMemoryOp(o: Opcode) {
    || o.StackLoad? || o.HeapLoad? || o.RegLoad? || o.StackStore? || o.HeapStore? || o.RegStore?
    || o.StackAddr? || o.HeapAddr?
  }

  /** Slots whose operand is read as a value. */
  predicate HasSlot(i: Instr, slot: Slot) {
    if slot.Arg? then i.opcode.Call? && slot.k < |i.args|
    else !IsMemoryOp(i.opcode) && !i.opcode.Call? && (i.opcode.LoadString? && slot.First? ==> i.op0.Loc?)
  }

  function At(i: Instr, slot: Slot): Operand
    requires HasSlot(i, slot)
  {
    match slot
    case First => i.op0
    case Second => i.op1
    case Arg(k) => i.args[k]
  }

  function Subst(i: Instr, slot: Slot, op: Operand): Instr
    requires HasSlot(i, slot)
  {
    match slot
    case First => i.(op0 := op)
    case Second => i.(op1 := op)
    case Arg(k) => i.(args := i.args[k := op])
  }

  /** An instruction that puts the value of `op` in register `r`: a MOVE, or a load when `op` is dereferenced. */
  predicate PutsIn(i: Instr, op: Operand, r: nat) {
    || i == Plain(Move, op, Absent, Temp(r))
    || (op.Loc? && op.indirect && i == Plain(RegLoad, Undereferenced(op), Absent, Temp(r)))
  }

  lemma PutsInEffect(ctx: Context, i: Instr, op: Operand, r: nat, s: State)
    requires PutsIn(i, op, r)
    ensures Effect(ctx, i, s) == s.(env := s.env[Reg(r) := Value(s, op)])
  {
  }

  /** Reading a source through a register that holds its value changes nothing. */
  lemma SubstEffect(ctx: Context, i: Instr, slot: Slot, s: State, t: State, bound: nat)
    requires HasSlot(i, slot) && Below(i, bound) && Agree(s, t, bound)
    requires Get(t.env, Reg(bound)) == Value(s, At(i, slot))
    ensures Agree(Effect(ctx, i, s), Effect(ctx, Subst(i, slot, Temp(bound)), t), bound)
    ensures !slot.Arg? ==> Value(s, i.op0) == Value(t, Subst(i, slot, Temp(bound)).op0)
    ensures !slot.Arg? ==> Value(s, i.op1) == Value(t, Subst(i, slot, Temp(bound)).op1)
  {
    var j := Subst(i, slot, Temp(bound));
    if slot.Arg? {
      forall k | 0 <= k < |i.args|
        ensures Value(s, i.args[k]) == Value(t, j.args[k])
      {
        ValueBelow(i.args[k], s, t, bound);
      }
      assert Values(s, i.args) == Values(t, j.args);
      var calls := s.calls + [CallEvent(Undereferenced(i.op0), Values(s, i.args))];
      var r := ctx.callee(calls, s.mem);
      PutBelow(i.op2, r.0, s.(mem := r.1, calls := calls), t.(mem := r.1, calls := calls), bound);
    } else {
      ValueBelow(i.op0, s, t, bound);
      ValueBelow(i.op1, s, t, bound);
      assert Value(t, Temp(bound)) == Value(s, At(i, slot));
      if i.opcode.Receive? {
        PutBelow(Undereferenced(i.op2), ctx.params(s.received), s, t, bound);
      } else if !(i.opcode.Nop? || i.opcode.Label? || i.opcode.Begin? || i.opcode.PushArg?) {
        assert Result(ctx, i, s) == Result(ctx, j, t);
        PutBelow(i.op2, Result(ctx, i, s), s, t, bound);
      }
    }
  }

  /** The step of an instruction that reads a source from the register its value was put in. */
  lemma SubstStep(ctx: Context, was: seq<Node>, now: seq<Node>, entry: seq<nat>, bound: nat, slot: Slot,
                  s: State, t: State)
    requires |entry| == |was| + 1 && s.pos < |was| && t.pos < |now| && Agree(s, t, bound)
    requires Below(was[s.pos].instr, bound) && HasSlot(was[s.pos].instr, slot)
    requires Get(t.env, Reg(bound)) == Value(s, At(was[s.pos].instr, slot))
    requires now[t.pos].instr == Subst(was[s.pos].instr, slot, Temp(bound)) && entry[s.pos + 1] == t.pos + 1
    requires Target(was, was[s.pos]) <= |was| && Target(now, now[t.pos]) == entry[Target(was, was[s.pos])]
    ensures Matching(entry, bound, Step(ctx, was, s), Step(ctx, now, t))
  {
    var i := was[s.pos].instr;
    var j := now[t.pos].instr;
    SubstEffect(ctx, i, slot, s, t, bound);
    if Straight(i.opcode) {
      hide Effect, Value, Target, Below, Agree;
      assert Step(ctx, was, s) == Running(Effect(ctx, i, s).(pos := s.pos + 1));
      assert Step(ctx, now, t) == Running(Effect(ctx, j, t).(pos := t.pos + 1));
      MovedAgree(Effect(ctx, i, s), Effect(ctx, j, t), s.pos + 1, t.pos + 1, bound);
    } else {
      hide Effect, Value, Target, Below, Agree;
      assert !slot.Arg? && j.op2 == i.op2;
      assert Taken(i, s) == Taken(j, t);
      AgreeOnMemory(s, t, bound);
      if Step(ctx, was, s).Running? {
        MovedAgree(s, t, Step(ctx, was, s).s.pos, Step(ctx, now, t).s.pos, bound);
      }
    }
  }

  lemma MovedAgree(s: State, t: State, p: nat, q: nat, bound: nat)
    requires Agree(s, t, bound)
    ensures Agree(s.(pos := p), t.(pos := q), bound)
  {
  }

  lemma AgreeOnMemory(s: State, t: State, bound: nat)
    requires Agree(s, t, bound)
    ensures s.mem == t.mem && s.calls == t.calls
  {
  }

  /** The step of a node behind the load of one of its sources. */
  lemma PrefixStep(ctx: Context, nodes: seq<Node>, p: nat, n: Node, slot: Slot, bound: nat, s: State, t: State)
    requires 0 < p < |nodes| && UniqueIds(nodes) && Fresh(nodes, n.id) && AllBelow(nodes, bound)
    requires HasSlot(nodes[p].instr, slot) && PutsIn(n.instr, At(nodes[p].instr, slot), bound)
    requires s.pos == p && Corresponds(Grown(|nodes|, p, true).entry, bound, s, t)
    ensures StepMatched(ctx, nodes, Prefixed(nodes, p, n, Subst(nodes[p].instr, slot, Temp(bound))),
              Grown(|nodes|, p, true).entry, bound, s, t)
  {
    var i := nodes[p].instr;
    var j := Subst(i, slot, Temp(bound));
    var after := Prefixed(nodes, p, n, j);
    var l := Grown(|nodes|, p, true);
    var mid := t.(pos := p + 1, env := t.env[Reg(bound) := Value(t, At(i, slot))]);
    assert after[p].instr == n.instr && after[p + 1].instr == j;
    PrefixedNode(nodes, p, n, j, p);
    hide Prefixed, Subst, UniqueIds, Fresh;
    PutsInEffect(ctx, n.instr, At(i, slot), bound, t);
    assert Step(ctx, after, t) == Running(mid) by {
      hide Effect, Value;
    }
    ValueBelow(At(i, slot), s, t, bound);
    hide Effect, Value, Step;
    SubstStep(ctx, nodes, after, l.entry, bound, slot, s, mid);
    TwoSteps(ctx, after, t, mid);
    assert Matching(l.entry, bound, Step(ctx, nodes, s), Run(ctx, after, t, 2));
  }

  lemma TwoSteps(ctx: Context, nodes: seq<Node>, t: State, mid: State)
    requires Step(ctx, nodes, t) == Running(mid)
    ensures Run(ctx, nodes, t, 2) == Step(ctx, nodes, mid)
  {
    hide Step;
    RunThen(ctx, nodes, t, 1, 1);
  }

  lemma PrefixSimulates(nodes: seq<Node>, p: nat, n: Node, slot: Slot, bound: nat)
    requires 0 < p < |nodes| && UniqueIds(nodes) && Fresh(nodes, n.id) && AllBelow(nodes, bound)
    requires HasSlot(nodes[p].instr, slot) && PutsIn(n.instr, At(nodes[p].instr, slot), bound)
    ensures Simulates(nodes, Prefixed(nodes, p, n, Subst(nodes[p].instr, slot, Temp(bound))),
              Grown(|nodes|, p, true).entry, bound)
  {
    var j := Subst(nodes[p].instr, slot, Temp(bound));
    var after := Prefixed(nodes, p, n, j);
    var l := Grown(|nodes|, p, true);
    PrefixedLaidOut(nodes, p, n, j);
    forall q | 0 <= q < |nodes| && q != p
      ensures after[l.entry[q]].instr == nodes[q].instr
    {
      PrefixedAt(nodes, p, n, j, q);
    }
    forall ctx: Context, s: State, t: State | s.pos == p && Corresponds(l.entry, bound, s, t)
      ensures StepMatched(ctx, nodes, after, l.entry, bound, s, t)
    {
      PrefixStep(ctx, nodes, p, n, slot, bound, s, t);
    }
    EditSimulates(nodes, after, l, bound, p);
  }

  /** Instructions that compute a value and put it in their destination. */
  predicate Computes(o: Opcode) {
    o.LoadString? || o.Add? || o.Sub? || o.Mul? || o.Div? || IsCompare(o)
  }

  /** The step of a node in front of the store of its result. */
  lemma SuffixStep(ctx: Context, nodes: seq<Node>, p: nat, n: Node, bound: nat, s: State, t: State)
    requires p + 1 < |nodes| && Fresh(nodes, n.id) && AllBelow(nodes, bound)
    requires Computes(nodes[p].instr.opcode) && nodes[p].instr.op2.Loc? && nodes[p].instr.op2.indirect
    requires n.instr == Plain(RegStore, Temp(bound), Absent, Undereferenced(nodes[p].instr.op2))
    requires s.pos == p && Corresponds(Grown(|nodes|, p, false).entry, bound, s, t)
    ensures StepMatched(ctx, nodes, Suffixed(nodes, p, n, nodes[p].instr.(op2 := Temp(bound))),
              Grown(|nodes|, p, false).entry, bound, s, t)
  {
    var i := nodes[p].instr;
    var j := i.(op2 := Temp(bound));
    var after := Suffixed(nodes, p, n, j);
    var l := Grown(|nodes|, p, false);
    assert after[p].instr == j && after[p + 1].instr == n.instr;
    hide Suffixed, Fresh;
    StoreSteps(ctx, nodes, after, i, bound, s, t);
    hide Step;
    assert Matching(l.entry, bound, Step(ctx, nodes, s), Run(ctx, after, t, 2));
  }

  /** An instruction and the store of its result are what the instruction with its own destination is. */
  lemma StoreSteps(ctx: Context, was: seq<Node>, now: seq<Node>, i: Instr, bound: nat, s: State, t: State)
    requires Computes(i.opcode) && i.op2.Loc? && i.op2.indirect && Below(i, bound) && Agree(s, t, bound)
    requires s.pos < |was| && was[s.pos].instr == i && t.pos + 1 < |now|
    requires now[t.pos].instr == i.(op2 := Temp(bound))
    requires now[t.pos + 1].instr == Plain(RegStore, Temp(bound), Absent, Undereferenced(i.op2))
    ensures Step(ctx, was, s).Running? && Step(ctx, was, s).s.pos == s.pos + 1
    ensures Run(ctx, now, t, 2).Running? && Run(ctx, now, t, 2).s.pos == t.pos + 2
    ensures Agree(Step(ctx, was, s).s, Run(ctx, now, t, 2).s, bound)
  {
    var j := i.(op2 := Temp(bound));
    var x := Result(ctx, i, s);
    ValueBelow(i.op0, s, t, bound);
    ValueBelow(i.op1, s, t, bound);
    assert Effect(ctx, i, s) == Put(s, i.op2, x) && Effect(ctx, j, t) == Put(t, Temp(bound), x);
    var mid := t.(pos := t.pos + 1, env := t.env[Reg(bound) := x]);
    assert Step(ctx, now, t) == Running(mid) by {
      hide Result;
    }
    StoreStep(ctx, now, mid, i.op2.name, bound);
    assert Step(ctx, was, s) == Running(Put(s, i.op2, x).(pos := s.pos + 1));
    hide Effect, Result, Step;
    TwoSteps(ctx, now, t, mid);
  }

  lemma StoreStep(ctx: Context, nodes: seq<Node>, s: State, a: Name, r: nat)
    requires s.pos < |nodes| && nodes[s.pos].instr == Plain(RegStore, Temp(r), Absent, Loc(a, false))
    ensures Step(ctx, nodes, s) == Running(s.(pos := s.pos + 1, mem := s.mem[Get(s.env, a) := Get(s.env, Reg(r))]))
  {
  }

  lemma SuffixSimulates(nodes: seq<Node>, p: nat, n: Node, bound: nat)
    requires p + 1 < |nodes| && Fresh(nodes, n.id) && AllBelow(nodes, bound)
    requires Computes(nodes[p].instr.opcode) && nodes[p].instr.op2.Loc? && nodes[p].instr.op2.indirect
    requires n.instr == Plain(RegStore, Temp(bound), Absent, Undereferenced(nodes[p].instr.op2))
    ensures Simulates(nodes, Suffixed(nodes, p, n, nodes[p].instr.(op2 := Temp(bound))),
              Grown(|nodes|, p, false).entry, bound)
  {
    var j := nodes[p].instr.(op2 := Temp(bound));
    var after := Suffixed(nodes, p, n, j);
    var l := Grown(|nodes|, p, false);
    SuffixedLaidOut(nodes, p, n, j);
    forall q | 0 <= q < |nodes| && q != p
      ensures after[l.entry[q]].instr == nodes[q].instr
    {
      assert Inserted(nodes, p + 1, n)[l.entry[q]] == nodes[q];
    }
    forall ctx: Context, s: State, t: State | s.pos == p && Corresponds(l.entry, bound, s, t)
      ensures StepMatched(ctx, nodes, after, l.entry, bound, s, t)
    {
      SuffixStep(ctx, nodes, p, n, bound, s, t);
    }
    EditSimulates(nodes, after, l, bound, p);
  }
}
