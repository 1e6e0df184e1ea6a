/** Replacing names by hard registers: mir_to_sym_lir (mir.c) and modify_code (regalloc.c), and the
    proof that the rewritten function runs in lockstep with the original. */
module Rewrite {
  import opened Wrappers
  import opened Sequences
  import opened Liveness
  import opened Mir
  import opened MirCfg

  // ----- The rewriting -----

  /** The number of a symbolic register; past the end when there is none. */
  function SymReg(names: seq<Name>, v: Name): (i: nat)
    ensures i <= |names|
    ensures i < |names| ==> names[i] == v
    ensures v in names ==> i < |names|
  {
    if names == [] then 0
    else if names[0] == v then 0
    else 1 + SymReg(names[1..], v)
  }

  function SymOperand(names: seq<Name>, op: Operand): Operand {
    if op.Loc? then Loc(Reg(SymReg(names, op.name)), op.indirect) else op
  }

  function SymOperands(names: seq<Name>, ops: seq<Operand>): (r: seq<Operand>)
    ensures |r| == |ops| && forall i :: 0 <= i < |ops| ==> r[i] == SymOperand(names, ops[i])
  {
    seq(|ops|, i requires 0 <= i < |ops| => SymOperand(names, ops[i]))
  }

  /** Operands that name a global or a callee stay as they are. */
  function SymInstr(names: seq<Name>, i: Instr): Instr {
    match i.opcode
    case Call => i.(args := SymOperands(names, i.args), op2 := SymOperand(names, i.op2))
    case HeapAddr =>
      i.(op0 := if i.op0.Loc? && i.op0.name.Reg? then SymOperand(names, i.op0) else i.op0,
         op2 := SymOperand(names, i.op2))
    case StackAddr => i.(op2 := SymOperand(names, i.op2))
    case HeapLoad => i.(op1 := SymOperand(names, i.op1), op2 := SymOperand(names, i.op2))
    case HeapStore => i.(op0 := SymOperand(names, i.op0), op1 := SymOperand(names, i.op1))
    case _ =>
      i.(op0 := SymOperand(names, i.op0), op1 := SymOperand(names, i.op1), op2 := SymOperand(names, i.op2))
  }

  /** A symbolic register with a colour becomes that hard register, numbered from 0. */
  function HardOperand(colour: seq<nat>, op: Operand): Operand {
    if op.Loc? && op.name.Reg? && op.name.num < |colour| && colour[op.name.num] != 0 then
      Loc(Reg(colour[op.name.num] - 1), op.indirect)
    else op
  }

  function HardOperands(colour: seq<nat>, ops: seq<Operand>): (r: seq<Operand>)
    ensures |r| == |ops| && forall i :: 0 <= i < |ops| ==> r[i] == HardOperand(colour, ops[i])
  {
    seq(|ops|, i requires 0 <= i < |ops| => HardOperand(colour, ops[i]))
  }

  function HardInstr(colour: seq<nat>, i: Instr): Instr {
    Instr(i.opcode, HardOperand(colour, i.op0), HardOperand(colour, i.op1), HardOperand(colour, i.op2),
      if i.opcode.Call? then HardOperands(colour, i.args) else i.args)
  }

  function RewriteNode(names: seq<Name>, colour: seq<nat>, n: Node): Node {
    n.(instr := HardInstr(colour, SymInstr(names, n.instr)))
  }

  function Rewritten(names: seq<Name>, colour: seq<nat>, nodes: seq<Node>): (r: seq<Node>)
    ensures |r| == |nodes|
    ensures forall i :: 0 <= i < |nodes| ==> r[i] == RewriteNode(names, colour, nodes[i])
  {
    seq(|nodes|, i requires 0 <= i < |nodes| => RewriteNode(names, colour, nodes[i]))
  }

  // ----- What the rewriting relies on -----

  ghost predicate Direct(op: Operand) {
    op.Loc? ==> !op.indirect
  }

  ghost predicate Global(op: Operand) {
    op.Loc? && op.name.Var? && !op.indirect
  }

  /** The form of the instructions that reach the allocator. */
  ghost predicate Lowered(i: Instr) {
    && Direct(i.op0) && Direct(i.op1) && Direct(i.op2)
    && (forall k :: 0 <= k < |i.args| ==> Direct(i.args[k]))
    && match i.opcode
       case HeapLoad | HeapAddr => Global(i.op0) && i.op1.Absent?
       case HeapStore => Global(i.op2)
       case Call => Global(i.op0) && i.op1.Absent?
       case If | StackStore | PushArg => !i.op2.Loc?
       case Nop | Label | Begin | End | Jump | Return => i.op2.Absent?
       case _ => true
  }

  /** The hard register of `v`. */
  function Home(names: seq<Name>, colour: seq<nat>, v: Name): Name {
    var i := SymReg(names, v);
    if i < |colour| && colour[i] != 0 then Reg(colour[i] - 1) else Reg(i)
  }

  ghost predicate Named(names: seq<Name>, i: Instr) {
    && (forall v :: Reads(i, v) ==> v in names)
    && (DefOf(i).Some? ==> DefOf(i).value in names)
  }

  // ----- The registers the rewritten code names -----

  /** Everything an instruction reads or defines is one of the first `nregs` hard registers. */
  ghost predicate OnlyRegisters(i: Instr, nregs: nat) {
    && (forall v :: Reads(i, v) ==> v.Reg? && v.num < nregs)
    && (DefOf(i).Some? ==> DefOf(i).value.Reg? && DefOf(i).value.num < nregs)
  }

  /** The name with colour `c` is read and defined in register `c - 1`, so a smaller colour is a smaller
      register. */
  ghost predicate RegistersByColour(names: seq<Name>, colour: seq<nat>, was: Instr, now: Instr)
    requires Coloured(names, colour)
  {
    forall k :: 0 <= k < |names| ==>
      && (Reads(was, names[k]) ==> Reads(now, Reg(colour[k] - 1)))
      && (DefOf(was) == Some(names[k]) ==> DefOf(now) == Some(Reg(colour[k] - 1)))
  }

  /** STACK_ADDR carries the offset of what it takes the address of. */
  ghost predicate OffsetGiven(i: Instr) {
    i.opcode.StackAddr? ==> !i.op0.Loc? && !i.op1.Loc?
  }

  lemma SymRegOf(names: seq<Name>, k: nat)
    requires Distinct(names) && k < |names|
    ensures SymReg(names, names[k]) == k
  {
  }

  /** The colours say which hard registers an instruction is left with. */
  lemma RegistersOf(names: seq<Name>, colour: seq<nat>, nregs: nat, i: Instr)
    requires Coloured(names, colour) && Distinct(names) && forall k :: 0 <= k < |colour| ==> colour[k] <= nregs
    requires Lowered(i) && OffsetGiven(i) && Named(names, i)
    ensures OnlyRegisters(HardInstr(colour, SymInstr(names, i)), nregs)
    ensures RegistersByColour(names, colour, i, HardInstr(colour, SymInstr(names, i)))
  {
    var j := HardInstr(colour, SymInstr(names, i));
    forall v | Reads(j, v)
      ensures v.Reg? && v.num < nregs
    {
      ReadIsRegister(names, colour, nregs, i, v);
    }
    forall k | 0 <= k < |names|
      ensures Reads(i, names[k]) ==> Reads(j, Reg(colour[k] - 1))
      ensures DefOf(i) == Some(names[k]) ==> DefOf(j) == Some(Reg(colour[k] - 1))
    {
      SymRegOf(names, k);
      if Reads(i, names[k]) {
        ReadByColour(names, colour, i, k);
      }
    }
  }

  lemma ReadIsRegister(names: seq<Name>, colour: seq<nat>, nregs: nat, i: Instr, v: Name)
    requires Coloured(names, colour) && forall k :: 0 <= k < |colour| ==> colour[k] <= nregs
    requires Lowered(i) && OffsetGiven(i) && Named(names, i)
    requires Reads(HardInstr(colour, SymInstr(names, i)), v)
    ensures v.Reg? && v.num < nregs
  {
    var j := HardInstr(colour, SymInstr(names, i));
    if i.opcode.Call? {
      var k :| 0 <= k < |j.args| && Mentions(j.args[k], v);
      assert Mentions(i.args[k], i.args[k].name);
      assert Reads(i, i.args[k].name);
    } else {
      assert i.op0.Loc? && Reads(j, v) && Mentions(j.op0, v) && !i.opcode.StackAddr? ==> Reads(i, i.op0.name);
      assert i.op1.Loc? && Reads(j, v) && Mentions(j.op1, v) && !i.opcode.StackAddr? ==> Reads(i, i.op1.name);
    }
  }

  lemma ReadByColour(names: seq<Name>, colour: seq<nat>, i: Instr, k: nat)
    requires Coloured(names, colour) && k < |names| && SymReg(names, names[k]) == k
    requires Lowered(i) && OffsetGiven(i) && Reads(i, names[k])
    ensures Reads(HardInstr(colour, SymInstr(names, i)), Reg(colour[k] - 1))
  {
    var j := HardInstr(colour, SymInstr(names, i));
    var r := Reg(colour[k] - 1);
    assert forall op: Operand :: Mentions(op, names[k]) ==> Mentions(Mapped(names, colour, op), r);
    if i.opcode.Call? {
      var a :| 0 <= a < |i.args| && Mentions(i.args[a], names[k]);
      assert j.args[a] == Mapped(names, colour, i.args[a]);
    } else {
      SourcesMapped(names, colour, i);
      hide Mapped, HardInstr, SymInstr, Mentions;
      assert Reads(j, r);
    }
  }

  /** Every operand that is read and is not a global is mapped. */
  lemma SourcesMapped(names: seq<Name>, colour: seq<nat>, i: Instr)
    requires !i.opcode.Call? && !i.opcode.HeapAddr? && !i.opcode.HeapLoad? && !i.opcode.StackAddr?
    ensures var j := HardInstr(colour, SymInstr(names, i));
      && j.opcode == i.opcode && j.op0 == Mapped(names, colour, i.op0) && j.op1 == Mapped(names, colour, i.op1)
      && (i.opcode.RegStore? ==> j.op2 == Mapped(names, colour, i.op2))
  {
  }

  /** At one node, names live together have different homes, and a definition spares what stays live. */
  ghost predicate Apart(names: seq<Name>, colour: seq<nat>, def: Option<Name>, ins: seq<Name>, outs: seq<Name>) {
    && (forall v, w :: v in ins && w in ins && v != w ==> Home(names, colour, v) != Home(names, colour, w))
    && (forall v :: v in outs && def.Some? && v != def.value ==>
          Home(names, colour, v) != Home(names, colour, def.value))
  }

  /** The two runs agree on everything but registers, and on every live name's register. */
  ghost predicate Agree(names: seq<Name>, colour: seq<nat>, live: seq<Name>, s: State, t: State) {
    && s.pos == t.pos && s.mem == t.mem && s.received == t.received && s.calls == t.calls
    && forall v :: v in live ==> Get(s.env, v) == Get(t.env, Home(names, colour, v))
  }

  ghost predicate Coloured(names: seq<Name>, colour: seq<nat>) {
    |names| == |colour| && forall i :: 0 <= i < |colour| ==> colour[i] != 0
  }

  function Mapped(names: seq<Name>, colour: seq<nat>, op: Operand): Operand {
    HardOperand(colour, SymOperand(names, op))
  }

  lemma MappedValue(names: seq<Name>, colour: seq<nat>, live: seq<Name>, s: State, t: State, op: Operand)
    requires Coloured(names, colour) && Agree(names, colour, live, s, t)
    requires Direct(op) && (op.Loc? ==> op.name in live && op.name in names)
    ensures Value(s, op) == Value(t, Mapped(names, colour, op))
  {
  }

  lemma MappedPut(names: seq<Name>, colour: seq<nat>, live: seq<Name>, live': seq<Name>,
                  s: State, t: State, op: Operand, x: int)
    requires Coloured(names, colour) && Agree(names, colour, live, s, t)
    requires Direct(op) && (op.Loc? ==> op.name in names)
    requires forall v :: v in live' && !(op.Loc? && v == op.name) ==> v in live
    requires forall v :: v in live' && op.Loc? && v != op.name ==>
               Home(names, colour, v) != Home(names, colour, op.name)
    ensures Agree(names, colour, live', Put(s, op, x), Put(t, Mapped(names, colour, op), x))
  {
  }

  lemma MappedValues(names: seq<Name>, colour: seq<nat>, live: seq<Name>, s: State, t: State, ops: seq<Operand>)
    requires Coloured(names, colour) && Agree(names, colour, live, s, t)
    requires forall k :: 0 <= k < |ops| ==>
      Direct(ops[k]) && (ops[k].Loc? ==> ops[k].name in live && ops[k].name in names)
    ensures Values(s, ops) == Values(t, HardOperands(colour, SymOperands(names, ops)))
  {
    forall k | 0 <= k < |ops|
      ensures Value(s, ops[k]) == Value(t, HardOperands(colour, SymOperands(names, ops))[k])
    {
      MappedValue(names, colour, live, s, t, ops[k]);
    }
  }

  /** The operands an instruction reads are live before it. */
  ghost predicate ReadsLive(i: Instr, ins: seq<Name>) {
    forall v :: Reads(i, v) ==> v in ins
  }

  /** What both sides need to agree on before an instruction. */
  ghost predicate Ready(names: seq<Name>, colour: seq<nat>, i: Instr, ins: seq<Name>, outs: seq<Name>,
                        s: State, t: State) {
    && Coloured(names, colour) && Lowered(i) && Named(names, i) && ReadsLive(i, ins)
    && (forall v :: v in outs && DefOf(i) != Some(v) ==> v in ins)
    && (forall v :: v in ins ==> v in names)
    && Apart(names, colour, DefOf(i), ins, outs) && Agree(names, colour, ins, s, t)
  }

  /** One instruction's effect on both sides. */
  lemma EffectAgrees(ctx: Context, names: seq<Name>, colour: seq<nat>, i: Instr, ins: seq<Name>, outs: seq<Name>,
                     s: State, t: State)
    requires Ready(names, colour, i, ins, outs, s, t)
    requires !i.opcode.End? && !i.opcode.Return? && !Jumps(i.opcode)
    ensures Agree(names, colour, outs, Effect(ctx, i, s), Effect(ctx, HardInstr(colour, SymInstr(names, i)), t))
  {
    if i.opcode.Call? {
      CallAgrees(ctx, names, colour, i, ins, outs, s, t);
    } else if i.opcode.HeapStore? {
      HeapStoreAgrees(ctx, names, colour, i, ins, outs, s, t);
    } else if i.opcode.RegStore? || i.opcode.StackStore? {
      StoreAgrees(ctx, names, colour, i, ins, outs, s, t);
    } else if i.opcode.Nop? || i.opcode.Label? || i.opcode.Begin? || i.opcode.PushArg? {
    } else if i.opcode.Receive? {
      MappedPut(names, colour, ins, outs, s, t, i.op2, ctx.params(s.received));
    } else if Loads(i.opcode) {
      LoadAgrees(ctx, names, colour, i, ins, outs, s, t);
    } else {
      ComputeAgrees(ctx, names, colour, i, ins, outs, s, t);
    }
  }

  predicate Loads(o: Opcode) {
    o.StackAddr? || o.HeapAddr? || o.LoadString? || o.StackLoad? || o.HeapLoad?
  }

  lemma StoreAgrees(ctx: Context, names: seq<Name>, colour: seq<nat>, i: Instr, ins: seq<Name>, outs: seq<Name>,
                    s: State, t: State)
    requires Ready(names, colour, i, ins, outs, s, t)
    requires i.opcode.RegStore? || i.opcode.StackStore?
    ensures Agree(names, colour, outs, Effect(ctx, i, s), Effect(ctx, HardInstr(colour, SymInstr(names, i)), t))
  {
    ReadOperand(names, colour, ins, s, t, i, i.op0);
    if i.opcode.RegStore? {
      ReadOperand(names, colour, ins, s, t, i, i.op2);
    }
  }

  /** Instructions whose result does not depend on any register. */
  lemma LoadAgrees(ctx: Context, names: seq<Name>, colour: seq<nat>, i: Instr, ins: seq<Name>, outs: seq<Name>,
                   s: State, t: State)
    requires Ready(names, colour, i, ins, outs, s, t) && Loads(i.opcode)
    ensures Agree(names, colour, outs, Effect(ctx, i, s), Effect(ctx, HardInstr(colour, SymInstr(names, i)), t))
  {
    var j := HardInstr(colour, SymInstr(names, i));
    assert j.opcode == i.opcode && j.op2 == Mapped(names, colour, i.op2);
    assert Constant(j.op0) == Constant(i.op0);
    assert i.opcode.HeapAddr? || i.opcode.HeapLoad? ==> j.op0 == i.op0;
    var x :=
      if i.opcode.StackAddr? then ctx.frame + Constant(i.op0)
      else if i.opcode.HeapAddr? then ctx.globalAddr(i.op0)
      else if i.opcode.LoadString? then ctx.stringAddr(Constant(i.op0))
      else if i.opcode.StackLoad? then Fetch(s.mem, ctx.frame + Constant(i.op0))
      else Fetch(s.mem, ctx.globalAddr(i.op0));
    assert Effect(ctx, i, s) == Put(s, i.op2, x) && Effect(ctx, j, t) == Put(t, j.op2, x);
    hide Effect, HardInstr, SymInstr, Lowered, Ready;
    PutAgrees(names, colour, i, ins, outs, s, t, x);
  }

  predicate Computes(o: Opcode) {
    o.Move? || o.RegLoad? || o.Add? || o.Sub? || o.Mul? || o.Div? || IsCompare(o)
  }

  /** What a computing instruction makes of the values it reads. */
  function Computed(ctx: Context, o: Opcode, a: int, b: int, mem: Memory): int {
    if o.Move? then a else if o.RegLoad? then Fetch(mem, a) else Arith(ctx, o, a, b)
  }

  lemma ComputePuts(ctx: Context, i: Instr, s: State)
    requires Computes(i.opcode)
    ensures Effect(ctx, i, s) == Put(s, i.op2, Computed(ctx, i.opcode, Value(s, i.op0), Value(s, i.op1), s.mem))
  {
  }

  /** Moves, loads through a register and arithmetic. */
  lemma ComputeAgrees(ctx: Context, names: seq<Name>, colour: seq<nat>, i: Instr, ins: seq<Name>, outs: seq<Name>,
                      s: State, t: State)
    requires Ready(names, colour, i, ins, outs, s, t) && Computes(i.opcode)
    ensures Agree(names, colour, outs, Effect(ctx, i, s), Effect(ctx, HardInstr(colour, SymInstr(names, i)), t))
  {
    hide *;
    var j := HardInstr(colour, SymInstr(names, i));
    ComputeMapped(names, colour, i);
    ComputePuts(ctx, i, s);
    ComputePuts(ctx, j, t);
    ComputeReads(names, colour, i, ins, outs, s, t);
    PutAgrees(names, colour, i, ins, outs, s, t, Computed(ctx, i.opcode, Value(s, i.op0), Value(s, i.op1), s.mem));
  }

  lemma ComputeMapped(names: seq<Name>, colour: seq<nat>, i: Instr)
    requires Computes(i.opcode)
    ensures var j := HardInstr(colour, SymInstr(names, i));
      && j.opcode == i.opcode && j.op0 == Mapped(names, colour, i.op0)
      && j.op1 == Mapped(names, colour, i.op1) && j.op2 == Mapped(names, colour, i.op2)
  {
  }

  lemma ComputeReads(names: seq<Name>, colour: seq<nat>, i: Instr, ins: seq<Name>, outs: seq<Name>, s: State, t: State)
    requires Ready(names, colour, i, ins, outs, s, t) && Computes(i.opcode)
    ensures Value(s, i.op0) == Value(t, Mapped(names, colour, i.op0)) && s.mem == t.mem
    ensures Value(s, i.op1) == Value(t, Mapped(names, colour, i.op1))
  {
    ReadOperand(names, colour, ins, s, t, i, i.op0);
    ReadOperand(names, colour, ins, s, t, i, i.op1);
  }

  /** An instruction that does nothing but put the same value in its destination on both sides. */
  lemma PutAgrees(names: seq<Name>, colour: seq<nat>, i: Instr, ins: seq<Name>, outs: seq<Name>,
                  s: State, t: State, x: int)
    requires Ready(names, colour, i, ins, outs, s, t) && (Computes(i.opcode) || Loads(i.opcode))
    ensures Agree(names, colour, outs, Put(s, i.op2, x), Put(t, Mapped(names, colour, i.op2), x))
  {
    hide Mapped, Agree, Home;
    MappedPut(names, colour, ins, outs, s, t, i.op2, x);
  }

  lemma ReadOperand(names: seq<Name>, colour: seq<nat>, ins: seq<Name>, s: State, t: State, i: Instr, op: Operand)
    requires Coloured(names, colour) && Agree(names, colour, ins, s, t) && Direct(op)
    requires ReadsLive(i, ins) && (forall v :: v in ins ==> v in names)
    requires op.Loc? ==> Reads(i, op.name)
    ensures Value(s, op) == Value(t, Mapped(names, colour, op))
  {
    MappedValue(names, colour, ins, s, t, op);
  }

  lemma CallAgrees(ctx: Context, names: seq<Name>, colour: seq<nat>, i: Instr, ins: seq<Name>, outs: seq<Name>,
                   s: State, t: State)
    requires i.opcode.Call?
    requires Ready(names, colour, i, ins, outs, s, t)
    ensures Agree(names, colour, outs, Effect(ctx, i, s), Effect(ctx, HardInstr(colour, SymInstr(names, i)), t))
  {
    forall k | 0 <= k < |i.args| && i.args[k].Loc?
      ensures i.args[k].name in ins
    {
      assert Mentions(i.args[k], i.args[k].name);
      assert Reads(i, i.args[k].name);
    }
    MappedValues(names, colour, ins, s, t, i.args);
    var calls := s.calls + [CallEvent(Undereferenced(i.op0), Values(s, i.args))];
    var r := ctx.callee(calls, s.mem);
    MappedPut(names, colour, ins, outs, s.(mem := r.1, calls := calls), t.(mem := r.1, calls := calls), i.op2, r.0);
  }

  /** The address register is written before the stored register is read; both are live, so apart. */
  lemma HeapStoreAgrees(ctx: Context, names: seq<Name>, colour: seq<nat>, i: Instr, ins: seq<Name>, outs: seq<Name>,
                        s: State, t: State)
    requires i.opcode.HeapStore?
    requires Ready(names, colour, i, ins, outs, s, t)
    ensures Agree(names, colour, outs, Effect(ctx, i, s), Effect(ctx, HardInstr(colour, SymInstr(names, i)), t))
  {
    var a := ctx.globalAddr(i.op2);
    assert i.op1.Loc? ==> Reads(i, i.op1.name);
    assert i.op0.Loc? ==> Reads(i, i.op0.name);
    MappedPut(names, colour, ins, ins, s, t, i.op1, a);
    MappedValue(names, colour, ins, Put(s, i.op1, a), Put(t, Mapped(names, colour, i.op1), a), i.op0);
  }

  // ----- Lockstep -----

  /** Node `n` satisfies everything the rewriting relies on. */
  ghost predicate NodeReady(names: seq<Name>, colour: seq<nat>, nodes: seq<Node>, g: FlowGraph,
                            ins: seq<seq<Name>>, outs: seq<seq<Name>>, n: nat)
    requires g.Valid() && |ins| == |g.succ| && |outs| == |g.succ| && |nodes| == |g.succ| && n < |nodes|
  {
    && Lowered(nodes[n].instr) && Named(names, nodes[n].instr)
    && NodeClosed(g, ins, outs, n)
    && (forall v :: v in ins[n] ==> v in names)
    && Apart(names, colour, g.def[n], ins[n], outs[n])
  }

  /** Both sides go on at the same node with agreeing live registers, or have ended the same way. */
  ghost predicate Lockstep(names: seq<Name>, colour: seq<nat>, ins: seq<seq<Name>>, a: Outcome, b: Outcome) {
    match a
    case Running(s) => b.Running? && s.pos < |ins| && Agree(names, colour, ins[s.pos], s, b.s)
    case _ => a == b
  }

  lemma RewrittenTarget(names: seq<Name>, colour: seq<nat>, nodes: seq<Node>, id: nat)
    ensures Find(Rewritten(names, colour, nodes), id) == Find(nodes, id)
  {
    if nodes != [] {
      assert Rewritten(names, colour, nodes)[1..] == Rewritten(names, colour, nodes[1..]);
      RewrittenTarget(names, colour, nodes[1..], id);
    }
  }

  /** The node both runs are at, with everything the rewriting relies on. */
  ghost predicate Together(names: seq<Name>, colour: seq<nat>, nodes: seq<Node>, g: FlowGraph,
                           ins: seq<seq<Name>>, outs: seq<seq<Name>>, s: State, t: State)
    requires g.Valid() && |ins| == |g.succ| && |outs| == |g.succ| && |nodes| == |g.succ|
  {
    && Coloured(names, colour) && IsGraphOf(g, nodes)
    && s.pos < |nodes| && NodeReady(names, colour, nodes, g, ins, outs, s.pos)
    && Agree(names, colour, ins[s.pos], s, t)
  }

  lemma ReadsAreLive(names: seq<Name>, colour: seq<nat>, nodes: seq<Node>, g: FlowGraph,
                     ins: seq<seq<Name>>, outs: seq<seq<Name>>, n: nat)
    requires IsGraphOf(g, nodes) && |ins| == |nodes| && |outs| == |nodes|
    requires n < |nodes| && NodeReady(names, colour, nodes, g, ins, outs, n)
    ensures ReadsLive(nodes[n].instr, ins[n]) && g.def[n] == DefOf(nodes[n].instr)
  {
    forall v | Reads(nodes[n].instr, v)
      ensures v in ins[n]
    {
      assert v in g.use[n];
    }
  }

  lemma SameTarget(names: seq<Name>, colour: seq<nat>, nodes: seq<Node>, n: nat)
    requires n < |nodes|
    ensures var after := Rewritten(names, colour, nodes);
      && Target(after, after[n]) == Target(nodes, nodes[n])
      && after[n].instr == HardInstr(colour, SymInstr(names, nodes[n].instr))
  {
    if nodes[n].jump.Some? {
      RewrittenTarget(names, colour, nodes, nodes[n].jump.value);
    }
  }

  lemma SameTest(names: seq<Name>, colour: seq<nat>, i: Instr, ins: seq<Name>, s: State, t: State)
    requires i.opcode.If? && Coloured(names, colour) && Lowered(i) && Agree(names, colour, ins, s, t)
    requires ReadsLive(i, ins) && forall v :: v in ins ==> v in names
    ensures Taken(i, s) == Taken(HardInstr(colour, SymInstr(names, i)), t)
  {
    ReadOperand(names, colour, ins, s, t, i, i.op0);
    ReadOperand(names, colour, ins, s, t, i, i.op1);
    hide Value;
  }

  /** A jump or test goes to the same node on both sides. */
  lemma SameJump(ctx: Context, names: seq<Name>, colour: seq<nat>, nodes: seq<Node>, ins: seq<Name>, s: State, t: State)
    returns (pos: nat)
    requires s.pos < |nodes| && t.pos == s.pos && Jumps(nodes[s.pos].instr.opcode)
    requires Coloured(names, colour) && Lowered(nodes[s.pos].instr) && Agree(names, colour, ins, s, t)
    requires ReadsLive(nodes[s.pos].instr, ins) && forall v :: v in ins ==> v in names
    ensures Step(ctx, nodes, s) == Running(s.(pos := pos))
    ensures Step(ctx, Rewritten(names, colour, nodes), t) == Running(t.(pos := pos))
    ensures pos in Successors(nodes, s.pos)
  {
    var i := nodes[s.pos].instr;
    var j := HardInstr(colour, SymInstr(names, i));
    assert j.opcode == i.opcode;
    SameTarget(names, colour, nodes, s.pos);
    if i.opcode.If? {
      SameTest(names, colour, i, ins, s, t);
    }
    hide Rewritten, HardInstr, SymInstr, Target, Taken, Agree, Coloured, Lowered, ReadsLive;
    pos := if i.opcode.If? && !Taken(i, s) then s.pos + 1 else Target(nodes, nodes[s.pos]);
  }

  lemma JumpAgrees(ctx: Context, names: seq<Name>, colour: seq<nat>, nodes: seq<Node>, g: FlowGraph,
                   ins: seq<seq<Name>>, outs: seq<seq<Name>>, s: State, t: State)
    requires g.Valid() && |g.succ| == |nodes| && |ins| == |nodes| && |outs| == |nodes|
    requires Together(names, colour, nodes, g, ins, outs, s, t) && Jumps(nodes[s.pos].instr.opcode)
    ensures Lockstep(names, colour, ins, Step(ctx, nodes, s), Step(ctx, Rewritten(names, colour, nodes), t))
    ensures Step(ctx, nodes, s).Running? && g.Edge(s.pos, Step(ctx, nodes, s).s.pos)
  {
    var n := s.pos;
    ReadsAreLive(names, colour, nodes, g, ins, outs, n);
    assert g.succ[n] == Successors(nodes, n) && g.def[n].None?;
    var pos := SameJump(ctx, names, colour, nodes, ins[n], s, t);
    assert g.Edge(n, pos);
    hide IsGraphOf, Rewritten, Step, Successors, Lowered, Named, Apart;
    LiveAtSuccessor(names, colour, g, ins, outs, n, pos, s, t);
  }

  lemma StraightAgrees(ctx: Context, names: seq<Name>, colour: seq<nat>, nodes: seq<Node>, g: FlowGraph,
                       ins: seq<seq<Name>>, outs: seq<seq<Name>>, s: State, t: State)
    requires g.Valid() && |g.succ| == |nodes| && |ins| == |nodes| && |outs| == |nodes|
    requires Together(names, colour, nodes, g, ins, outs, s, t)
    requires var o := nodes[s.pos].instr.opcode; !Jumps(o) && !o.End? && !o.Return?
    ensures Lockstep(names, colour, ins, Step(ctx, nodes, s), Step(ctx, Rewritten(names, colour, nodes), t))
    ensures Step(ctx, nodes, s).Running? && g.Edge(s.pos, Step(ctx, nodes, s).s.pos)
  {
    var n := s.pos;
    var i := nodes[n].instr;
    var j := HardInstr(colour, SymInstr(names, i));
    ReadsAreLive(names, colour, nodes, g, ins, outs, n);
    assert g.succ[n] == Successors(nodes, n);
    assert g.Edge(n, n + 1);
    assert forall v :: v in ins[n + 1] ==> v in outs[n];
    assert Rewritten(names, colour, nodes)[n].instr == j && j.opcode == i.opcode;
    hide Effect, HardInstr, SymInstr;
    EffectAgrees(ctx, names, colour, i, ins[n], outs[n], s, t);
    var a, b := Effect(ctx, i, s), Effect(ctx, j, t);
    hide IsGraphOf, NodeReady, Coloured, Rewritten, Step;
    StepsOn(ctx, nodes, s);
    StepsOn(ctx, Rewritten(names, colour, nodes), t);
    FewerAgree(names, colour, outs[n], ins[n + 1], a, b, n + 1);
  }

  lemma StepsOn(ctx: Context, nodes: seq<Node>, s: State)
    requires s.pos < |nodes| && Straight(nodes[s.pos].instr.opcode)
    ensures Step(ctx, nodes, s) == Running(Effect(ctx, nodes[s.pos].instr, s).(pos := s.pos + 1))
  {
  }

  lemma FewerAgree(names: seq<Name>, colour: seq<nat>, live: seq<Name>, fewer: seq<Name>, s: State, t: State, pos: nat)
    requires Agree(names, colour, live, s, t) && forall v :: v in fewer ==> v in live
    ensures Agree(names, colour, fewer, s.(pos := pos), t.(pos := pos))
  {
  }

  lemma StepAgrees(ctx: Context, names: seq<Name>, colour: seq<nat>, nodes: seq<Node>, g: FlowGraph,
                   ins: seq<seq<Name>>, outs: seq<seq<Name>>, s: State, t: State)
    requires g.Valid() && |g.succ| == |nodes| && |ins| == |nodes| && |outs| == |nodes|
    requires Together(names, colour, nodes, g, ins, outs, s, t)
    ensures Lockstep(names, colour, ins, Step(ctx, nodes, s), Step(ctx, Rewritten(names, colour, nodes), t))
    ensures Step(ctx, nodes, s).Running? ==> g.Edge(s.pos, Step(ctx, nodes, s).s.pos)
  {
    var i := nodes[s.pos].instr;
    if Jumps(i.opcode) {
      JumpAgrees(ctx, names, colour, nodes, g, ins, outs, s, t);
    } else if !i.opcode.End? && !i.opcode.Return? {
      StraightAgrees(ctx, names, colour, nodes, g, ins, outs, s, t);
    } else {
      ReadsAreLive(names, colour, nodes, g, ins, outs, s.pos);
      assert NodeReady(names, colour, nodes, g, ins, outs, s.pos);
      if i.opcode.Return? {
        ReadOperand(names, colour, ins[s.pos], s, t, i, i.op0);
      }
    }
  }

  /** A node that defines nothing hands its live registers on unchanged. */
  lemma LiveAtSuccessor(names: seq<Name>, colour: seq<nat>, g: FlowGraph, ins: seq<seq<Name>>, outs: seq<seq<Name>>,
                        n: nat, m: nat, s: State, t: State)
    requires g.Valid() && |ins| == |g.succ| && |outs| == |g.succ| && n < |g.succ|
    requires NodeClosed(g, ins, outs, n) && g.def[n].None? && g.Edge(n, m)
    requires Agree(names, colour, ins[n], s, t)
    ensures m < |ins| && Agree(names, colour, ins[m], s.(pos := m), t.(pos := m))
  {
    assert forall v :: v in ins[m] ==> v in outs[n];
  }

  ghost predicate AllReady(names: seq<Name>, colour: seq<nat>, nodes: seq<Node>, g: FlowGraph,
                           ins: seq<seq<Name>>, outs: seq<seq<Name>>, within: iset<nat>)
    requires g.Valid() && |ins| == |g.succ| && |outs| == |g.succ| && |nodes| == |g.succ|
  {
    forall n: nat :: n < |nodes| && n in within ==> NodeReady(names, colour, nodes, g, ins, outs, n)
  }

  /** No edge leaves `within`. */
  ghost predicate EdgesStay(g: FlowGraph, within: iset<nat>) {
    forall n: nat, m: nat :: n in within && g.Edge(n, m) ==> m in within
  }

  lemma ReadyTogether(names: seq<Name>, colour: seq<nat>, nodes: seq<Node>, g: FlowGraph,
                      ins: seq<seq<Name>>, outs: seq<seq<Name>>, within: iset<nat>, s: State, t: State)
    requires Coloured(names, colour) && IsGraphOf(g, nodes) && |ins| == |nodes| && |outs| == |nodes|
    requires AllReady(names, colour, nodes, g, ins, outs, within)
    requires s.pos < |nodes| && s.pos in within && Agree(names, colour, ins[s.pos], s, t)
    ensures g.Valid() && |g.succ| == |nodes| && Together(names, colour, nodes, g, ins, outs, s, t)
  {
  }

  /** Register assignment preserves meaning: for every number of steps the rewritten function is at the
      same node with the same memory and calls, or has ended with the same result, and the hard register
      of every live name holds that name's value. */
  lemma {:induction false} RunAgrees(ctx: Context, names: seq<Name>, colour: seq<nat>, nodes: seq<Node>, g: FlowGraph,
                                     ins: seq<seq<Name>>, outs: seq<seq<Name>>, within: iset<nat>,
                                     s: State, t: State, k: nat)
    requires Coloured(names, colour) && IsGraphOf(g, nodes) && |ins| == |nodes| && |outs| == |nodes|
    requires AllReady(names, colour, nodes, g, ins, outs, within) && EdgesStay(g, within)
    requires s.pos < |nodes| && s.pos in within && Agree(names, colour, ins[s.pos], s, t)
    ensures Lockstep(names, colour, ins, Run(ctx, nodes, s, k), Run(ctx, Rewritten(names, colour, nodes), t, k))
    decreases k
  {
    hide AllReady, EdgesStay, IsGraphOf, Agree, Step, Rewritten, Coloured;
    if k > 0 {
      StepStays(ctx, names, colour, nodes, g, ins, outs, within, s, t);
      var o, p := Step(ctx, nodes, s), Step(ctx, Rewritten(names, colour, nodes), t);
      if o.Running? {
        RunAgrees(ctx, names, colour, nodes, g, ins, outs, within, o.s, p.s, k - 1);
      }
    }
  }

  /** One step, after which everything the next one needs holds again. */
  lemma StepStays(ctx: Context, names: seq<Name>, colour: seq<nat>, nodes: seq<Node>, g: FlowGraph,
                  ins: seq<seq<Name>>, outs: seq<seq<Name>>, within: iset<nat>, s: State, t: State)
    requires Coloured(names, colour) && IsGraphOf(g, nodes) && |ins| == |nodes| && |outs| == |nodes|
    requires AllReady(names, colour, nodes, g, ins, outs, within) && EdgesStay(g, within)
    requires s.pos < |nodes| && s.pos in within && Agree(names, colour, ins[s.pos], s, t)
    ensures var o, p := Step(ctx, nodes, s), Step(ctx, Rewritten(names, colour, nodes), t);
      && Lockstep(names, colour, ins, o, p)
      && (o.Running? ==>
            && p.Running? && o.s.pos < |nodes| && o.s.pos in within
            && Agree(names, colour, ins[o.s.pos], o.s, p.s))
  {
    ReadyTogether(names, colour, nodes, g, ins, outs, within, s, t);
    hide AllReady, Together, IsGraphOf, Agree, Step, Rewritten, Coloured;
    StepAgrees(ctx, names, colour, nodes, g, ins, outs, s, t);
  }

  // ----- The loops over the list -----

  class Listing {
    var nodes: seq<Node>

    constructor (nodes: seq<Node>)
      ensures this.nodes == nodes
    {
      this.nodes := nodes;
    }

    /** Numbers every register operand by its symbolic register. */
    method ToSymLir(names: seq<Name>)
      modifies this
      ensures |nodes| == |old(nodes)|
      ensures forall i :: 0 <= i < |nodes| ==>
        nodes[i] == old(nodes)[i].(instr := SymInstr(names, old(nodes)[i].instr))
    {
      var i := 0;
      while i < |nodes|
        invariant 0 <= i <= |nodes| == |old(nodes)|
        invariant forall k :: 0 <= k < i ==> nodes[k] == old(nodes)[k].(instr := SymInstr(names, old(nodes)[k].instr))
        invariant forall k :: i <= k < |nodes| ==> nodes[k] == old(nodes)[k]
      {
        nodes := nodes[i := nodes[i].(instr := SymInstr(names, nodes[i].instr))];
        i := i + 1;
      }
    }

    /** Replaces every coloured symbolic register by its hard register. */
    method ModifyCode(colour: seq<nat>)
      modifies this
      ensures |nodes| == |old(nodes)|
      ensures forall i :: 0 <= i < |nodes| ==>
        nodes[i] == old(nodes)[i].(instr := HardInstr(colour, old(nodes)[i].instr))
    {
      var i := 0;
      while i < |nodes|
        invariant 0 <= i <= |nodes| == |old(nodes)|
        invariant forall k :: 0 <= k < i ==> nodes[k] == old(nodes)[k].(instr := HardInstr(colour, old(nodes)[k].instr))
        invariant forall k :: i <= k < |nodes| ==> nodes[k] == old(nodes)[k]
      {
        nodes := nodes[i := nodes[i].(instr := HardInstr(colour, nodes[i].instr))];
        i := i + 1;
      }
    }
  }
}
