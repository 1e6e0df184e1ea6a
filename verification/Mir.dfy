/** The medium-level intermediate representation: instructions, lists of them, and what running one does. */
module Mir {
  import opened Wrappers
  import opened Liveness

  // ----- Instructions (mir.h) -----

  datatype Opcode =
    | Nop | Label | Begin | End | Receive | Call | Return | If | Jump | Move
    | StackAddr | HeapAddr | StackLoad | HeapLoad | RegLoad | StackStore | HeapStore | RegStore
    | PushArg | LoadString
    | Add | Sub | Mul | Div
    | Eql | Neq | Lss | Leq | Gtr | Geq

  /** The number of a comparison in the opcode enumeration, which an IF carries as a constant. */
  const EQL := 31
  const NEQ := 32
  const LSS := 33
  const LEQ := 34
  const GTR := 35
  const GEQ := 36

  datatype Operand = Absent | Const(val: int) | Loc(name: Name, indirect: bool)

  function Temp(reg: nat): Operand {
    Loc(Reg(reg), false)
  }

  datatype Instr = Instr(opcode: Opcode, op0: Operand, op1: Operand, op2: Operand, args: seq<Operand>)

  function Plain(opcode: Opcode, op0: Operand, op1: Operand, op2: Operand): Instr {
    Instr(opcode, op0, op1, op2, [])
  }

  predicate IsCompare(o: Opcode) {
    o.Eql? || o.Neq? || o.Lss? || o.Leq? || o.Gtr? || o.Geq?
  }

  predicate Jumps(o: Opcode) {
    o.If? || o.Jump?
  }

  /** An instruction that goes on to the next node. */
  predicate Straight(o: Opcode) {
    !Jumps(o) && !o.Return? && !o.End?
  }

  function CompareCode(o: Opcode): int
    requires IsCompare(o)
  {
    match o
    case Eql => EQL
    case Neq => NEQ
    case Lss => LSS
    case Leq => LEQ
    case Gtr => GTR
    case Geq => GEQ
  }

  /** The instruction reads a register or variable. */
  predicate HasSource(i: Instr) {
    match i.opcode
    case RegStore => i.op0.Loc? || i.op1.Loc? || i.op2.Loc?
    case HeapAddr | HeapLoad => false
    case Call => exists k :: 0 <= k < |i.args| && i.args[k].Loc?
    case _ => i.op0.Loc? || i.op1.Loc?
  }

  /** A list node: its identity, its instruction and the identity of the node it jumps to. */
  datatype Node = Node(id: nat, instr: Instr, jump: Option<nat>)

  ghost predicate UniqueIds(nodes: seq<Node>) {
    forall i, j :: 0 <= i < j < |nodes| ==> nodes[i].id != nodes[j].id
  }

  /** The position of node `id`, or the length of the list when it is not there. */
  function Find(nodes: seq<Node>, id: nat): (p: nat)
    ensures p <= |nodes|
    ensures p < |nodes| ==> nodes[p].id == id
  {
    if nodes == [] then 0
    else if nodes[0].id == id then 0
    else 1 + Find(nodes[1..], id)
  }

  lemma {:induction false} FindFirst(nodes: seq<Node>, id: nat)
    ensures forall k :: 0 <= k < Find(nodes, id) ==> nodes[k].id != id
  {
    if nodes != [] && nodes[0].id != id {
      FindFirst(nodes[1..], id);
    }
  }

  lemma {:induction false} FindIs(nodes: seq<Node>, id: nat, p: nat)
    requires p <= |nodes| && (p < |nodes| ==> nodes[p].id == id)
    requires forall k :: 0 <= k < p ==> nodes[k].id != id
    ensures Find(nodes, id) == p
  {
    if p > 0 {
      assert nodes[0].id != id;
      FindIs(nodes[1..], id, p - 1);
    }
  }

  // ----- Running MIR -----

  predicate FitsWord(x: int) {
    -2147483648 <= x <= 2147483647
  }

  /** Two's complement wrap-around of a 32-bit register: the one number in its range that differs from `x`
      by a multiple of 4294967296. */
  function Wrap(x: int): (r: int)
    ensures FitsWord(r) && (x - r) % 4294967296 == 0
    ensures FitsWord(x) ==> r == x
  {
    (x + 0x8000_0000) % 0x1_0000_0000 - 0x8000_0000
  }

  function Compare(code: int, a: int, b: int): bool {
    if code == EQL then a == b
    else if code == NEQ then a != b
    else if code == LSS then a < b
    else if code == LEQ then a <= b
    else if code == GTR then a > b
    else if code == GEQ then a >= b
    else false
  }

  /** An IF and the instruction that leaves 0 or 1 make the comparison their opcode says. The opcodes are
      numbered on from 31, the place of EQL in the enumeration. */
  lemma CompareMeans(o: Opcode, a: int, b: int)
    requires IsCompare(o)
    ensures Compare(CompareCode(o), a, b) <==>
      (o.Eql? && a == b) || (o.Neq? && a != b) || (o.Lss? && a < b) || (o.Leq? && a <= b) || (o.Gtr? && a > b)
      || (o.Geq? && a >= b)
    ensures [Eql, Neq, Lss, Leq, Gtr, Geq][..CompareCode(o) - 31] + [o] <= [Eql, Neq, Lss, Leq, Gtr, Geq]
  {
  }

  type Env = map<Name, int>
  type Memory = map<int, int>

  function Get(env: Env, n: Name): int {
    if n in env then env[n] else 0
  }

  function Fetch(mem: Memory, a: int): int {
    if a in mem then mem[a] else 0
  }

  datatype CallEvent = CallEvent(callee: Operand, args: seq<int>)

  /** What a function's code is run against: where its frame, the globals and the strings are, its
      arguments, what the functions it calls do, and the value of a division (which is never emitted). */
  datatype Context = Context(
    frame: int,
    globalAddr: Operand -> int,
    stringAddr: int -> int,
    params: nat -> int,
    callee: (seq<CallEvent>, Memory) -> (int, Memory),
    divide: (int, int) -> int
  )

  datatype State = State(pos: nat, env: Env, mem: Memory, received: nat, calls: seq<CallEvent>)

  datatype Outcome =
    | Running(s: State)
    | Returned(value: int, mem: Memory, calls: seq<CallEvent>)
    | Ended(mem: Memory, calls: seq<CallEvent>)

  function Value(s: State, op: Operand): int {
    match op
    case Absent => 0
    case Const(v) => v
    case Loc(n, indirect) => if indirect then Fetch(s.mem, Get(s.env, n)) else Get(s.env, n)
  }

  function Values(s: State, ops: seq<Operand>): (r: seq<int>)
    ensures |r| == |ops| && forall i :: 0 <= i < |ops| ==> r[i] == Value(s, ops[i])
  {
    seq(|ops|, i requires 0 <= i < |ops| => Value(s, ops[i]))
  }

  /** Assigning to an operand: a register, or the word a register points at. */
  function Put(s: State, op: Operand, v: int): State {
    match op
    case Loc(n, false) => s.(env := s.env[n := v])
    case Loc(n, true) => s.(mem := s.mem[Get(s.env, n) := v])
    case _ => s
  }

  /** An operand whose dereference flag means nothing, as on a callee or a received parameter. */
  function Undereferenced(op: Operand): Operand {
    if op.Loc? then op.(indirect := false) else op
  }

  function Constant(op: Operand): int {
    if op.Const? then op.val else 0
  }

  function Arith(ctx: Context, o: Opcode, a: int, b: int): int {
    match o
    case Add => Wrap(a + b)
    case Sub => Wrap(a - b)
    case Mul => Wrap(a * b)
    case Div => ctx.divide(a, b)
    case _ => if IsCompare(o) && Compare(CompareCode(o), a, b) then 1 else 0
  }

  /** What an instruction that neither jumps nor leaves does to everything but the position. */
  function Effect(ctx: Context, i: Instr, s: State): State {
    match i.opcode
    case Nop | Label | Begin => s
    case Receive => Put(s, Undereferenced(i.op2), ctx.params(s.received)).(received := s.received + 1)
    case PushArg =>
      s.(mem := s.mem[ctx.frame + Constant(i.op2) := ctx.params(s.received)], received := s.received + 1)
    case Call =>
      var calls := s.calls + [CallEvent(Undereferenced(i.op0), Values(s, i.args))];
      var r := ctx.callee(calls, s.mem);
      Put(s.(mem := r.1, calls := calls), i.op2, r.0)
    case Move => Put(s, i.op2, Value(s, i.op0))
    case StackAddr => Put(s, i.op2, ctx.frame + Constant(i.op0))
    case HeapAddr => Put(s, i.op2, ctx.globalAddr(i.op0))
    case LoadString => Put(s, i.op2, ctx.stringAddr(Constant(i.op0)))
    case StackLoad => Put(s, i.op2, Fetch(s.mem, ctx.frame + Constant(i.op0)))
    case HeapLoad => Put(s, i.op2, Fetch(s.mem, ctx.globalAddr(i.op0)))
    case RegLoad => Put(s, i.op2, Fetch(s.mem, Value(s, i.op0)))
    case StackStore => s.(mem := s.mem[ctx.frame + Constant(i.op2) := Value(s, i.op0)])
    case HeapStore =>
      // the address is built in the second operand before the first is stored
      var t := Put(s, i.op1, ctx.globalAddr(i.op2));
      t.(mem := t.mem[ctx.globalAddr(i.op2) := Value(t, i.op0)])
    case RegStore => s.(mem := s.mem[Value(s, i.op2) := Value(s, i.op0)])
    case _ => Put(s, i.op2, Arith(ctx, i.opcode, Value(s, i.op0), Value(s, i.op1)))
  }

  // ----- Loads find what stores left -----

  /** What `r` holds after `i` and then `j`. */
  function LeftIn(ctx: Context, i: Instr, j: Instr, s: State, r: Name): int {
    Get(Effect(ctx, j, Effect(ctx, i, s)).env, r)
  }

  /** A load from the frame gets what a store put there, and from elsewhere what was there before. */
  lemma FrameKeepsWords(ctx: Context, s: State, v: Operand, k: int, l: int, r: Name)
    ensures LeftIn(ctx, Plain(StackStore, v, Absent, Const(k)), Plain(StackLoad, Const(l), Absent, Loc(r, false)), s, r)
      == if k == l then Value(s, v) else Fetch(s.mem, ctx.frame + l)
  {
  }

  /** A parameter pushed to the frame is loaded from there. */
  lemma FrameKeepsParameters(ctx: Context, s: State, k: int, r: Name)
    ensures LeftIn(ctx, Plain(PushArg, Absent, Absent, Const(k)), Plain(StackLoad, Const(k), Absent, Loc(r, false)),
      s, r) == ctx.params(s.received)
  {
  }

  /** So does a load through a register that a store went through. */
  lemma PointersKeepWords(ctx: Context, s: State, v: Operand, p: Name, r: Name)
    ensures LeftIn(ctx, Plain(RegStore, v, Absent, Loc(p, false)), Plain(RegLoad, Loc(p, false), Absent, Loc(r, false)),
      s, r) == Value(s, v)
  {
  }

  /** And a load of a global, whatever register its address is built in, other than that of the value. */
  lemma GlobalsKeepWords(ctx: Context, s: State, v: Operand, a: Name, g: Operand, h: Operand, r: Name)
    requires v.Loc? ==> v.name != a && !v.indirect
    ensures LeftIn(ctx, Plain(HeapStore, v, Loc(a, false), g), Plain(HeapLoad, h, Absent, Loc(r, false)), s, r)
      == if ctx.globalAddr(g) == ctx.globalAddr(h) then Value(s, v) else Fetch(s.mem, ctx.globalAddr(h))
  {
  }

  /** The address of a place in the frame, or of a global, leads to it. */
  lemma AddressesLead(ctx: Context, s: State, address: Instr, load: Instr, r: Name)
    requires address.op2 == load.op2 == Loc(r, false) && address.op0 == load.op0
    requires
      (address.opcode.StackAddr? && load.opcode.StackLoad?) || (address.opcode.HeapAddr? && load.opcode.HeapLoad?)
    ensures LeftIn(ctx, address, Plain(RegLoad, Loc(r, false), Absent, Loc(r, false)), s, r)
      == Get(Effect(ctx, load, s).env, r)
  {
  }

  /** Whether an IF jumps. Without a comparison operand it tests for zero. */
  function Taken(i: Instr, s: State): bool {
    if i.op2.Absent? then Value(s, i.op0) == 0
    else Compare(Constant(i.op2), Value(s, i.op0), Value(s, i.op1))
  }

  function Target(nodes: seq<Node>, n: Node): (p: nat)
    ensures p <= |nodes|
  {
    if n.jump.Some? then Find(nodes, n.jump.value) else |nodes|
  }

  /** One instruction. Running off the list ends like END. */
  function Step(ctx: Context, nodes: seq<Node>, s: State): Outcome {
    if s.pos >= |nodes| then Ended(s.mem, s.calls)
    else
      var n := nodes[s.pos];
      match n.instr.opcode
      case End => Ended(s.mem, s.calls)
      case Return => Returned(Value(s, n.instr.op0), s.mem, s.calls)
      case Jump => Running(s.(pos := Target(nodes, n)))
      case If => Running(s.(pos := if Taken(n.instr, s) then Target(nodes, n) else s.pos + 1))
      case _ => Running(Effect(ctx, n.instr, s).(pos := s.pos + 1))
  }

  function Run(ctx: Context, nodes: seq<Node>, s: State, k: nat): Outcome
    decreases k
  {
    if k == 0 then Running(s)
    else
      match Step(ctx, nodes, s)
      case Running(s') => Run(ctx, nodes, s', k - 1)
      case done => done
  }

  /** The run from `s` comes to the outcome `o`. */
  ghost predicate Reaches(ctx: Context, nodes: seq<Node>, s: State, o: Outcome) {
    exists k: nat :: Run(ctx, nodes, s, k) == o
  }

  /** A run goes on from where its first steps led. */
  lemma {:induction false} RunThen(ctx: Context, nodes: seq<Node>, s: State, i: nat, j: nat)
    ensures match Run(ctx, nodes, s, i)
      case Running(m) => Run(ctx, nodes, s, i + j) == Run(ctx, nodes, m, j)
      case done => Run(ctx, nodes, s, i + j) == done
    decreases i
  {
    hide Step;
    if i > 0 {
      var o := Step(ctx, nodes, s);
      if o.Running? {
        RunThen(ctx, nodes, o.s, i - 1, j);
      }
    }
  }

  /** A run that is over stays over, with the same outcome. */
  lemma OutcomesMeet(ctx: Context, nodes: seq<Node>, s: State, i: nat, j: nat)
    ensures !Run(ctx, nodes, s, i).Running? && i <= j ==> Run(ctx, nodes, s, j) == Run(ctx, nodes, s, i)
    ensures !Run(ctx, nodes, s, j).Running? && j <= i ==> Run(ctx, nodes, s, i) == Run(ctx, nodes, s, j)
  {
    if i <= j {
      RunThen(ctx, nodes, s, i, j - i);
    } else {
      RunThen(ctx, nodes, s, j, i - j);
    }
  }
}
