/** Control flow graphs of MIR functions: mir_cfg.c's mcfg_build_func, mcfg_add_edge and mcfg_build_defuse. */
module MirCfg {
  import opened Wrappers
  import opened Sequences
  import opened Liveness
  import opened Mir

  // ----- Edges -----

  /** Every jump lands in the function. */
  ghost predicate JumpsInside(nodes: seq<Node>) {
    forall i: nat :: i < |nodes| ==> TargetInside(nodes, i)
  }

  ghost predicate TargetInside(nodes: seq<Node>, i: nat)
    requires i < |nodes|
  {
    Jumps(nodes[i].instr.opcode) ==> Target(nodes, nodes[i]) < |nodes|
  }

  /** The successors the graph gives node `i`, in the order they are added. */
  function Successors(nodes: seq<Node>, i: nat): seq<nat>
    requires i < |nodes|
  {
    match nodes[i].instr.opcode
    case End => []
    case Jump => [Target(nodes, nodes[i])]
    case If => [i + 1, Target(nodes, nodes[i])]
    case _ => [i + 1]
  }

  /** `x`, `k` times. */
  function Times(k: nat, x: nat): (r: seq<nat>)
    ensures |r| == k && forall i :: 0 <= i < k ==> r[i] == x
  {
    seq(k, _ => x)
  }

  /** The predecessors of node `m` among the nodes before `i`. Edges are added node by node and each is
      appended, so the order is that of the nodes. */
  function Predecessors(nodes: seq<Node>, m: nat, i: nat): seq<nat>
    requires i <= |nodes|
  {
    if i == 0 then []
    else Predecessors(nodes, m, i - 1) + Times(Count(Successors(nodes, i - 1), m), i - 1)
  }

  datatype Edges = Edges(succ: seq<seq<nat>>, pred: seq<seq<nat>>)

  /** How often `x` occurs in `s`. */
  function Count(s: seq<nat>, x: nat): nat {
    if s == [] then 0 else Count(s[..|s| - 1], x) + (if s[|s| - 1] == x then 1 else 0)
  }

  lemma CountPush(s: seq<nat>, x: nat, y: nat)
    ensures Count(s + [y], x) == Count(s, x) + (if x == y then 1 else 0)
  {
    assert (s + [y])[..|s|] == s;
  }

  lemma CountIn(s: seq<nat>, x: nat)
    ensures Count(s, x) > 0 <==> x in s
  {
    if s != [] {
      CountIn(s[..|s| - 1], x);
      assert s == s[..|s| - 1] + [s[|s| - 1]];
    }
  }

  /** Each edge is recorded equally often at both of its ends. */
  ghost predicate Mirrored(e: Edges) {
    && |e.succ| == |e.pred|
    && forall n: nat, m: nat :: n < |e.succ| && m < |e.succ| ==> Count(e.succ[n], m) == Count(e.pred[m], n)
  }

  function AddEdge(e: Edges, src: nat, dest: nat): (r: Edges)
    requires src < |e.succ| && dest < |e.pred|
    ensures |r.succ| == |e.succ| && |r.pred| == |e.pred|
  {
    Edges(e.succ[src := e.succ[src] + [dest]], e.pred[dest := e.pred[dest] + [src]])
  }

  lemma AddEdgeMirrors(e: Edges, src: nat, dest: nat)
    requires Mirrored(e) && src < |e.succ| && dest < |e.pred|
    ensures Mirrored(AddEdge(e, src, dest))
  {
    forall n: nat, m: nat | n < |e.succ| && m < |e.succ|
      ensures Count(AddEdge(e, src, dest).succ[n], m) == Count(AddEdge(e, src, dest).pred[m], n)
    {
      CountPush(e.succ[src], m, dest);
      CountPush(e.pred[dest], n, src);
    }
  }

  ghost predicate PredsInside(nodes: seq<Node>, e: Edges) {
    |e.succ| == |e.pred| == |nodes| &&
    forall m, k :: 0 <= m < |nodes| && 0 <= k < |e.pred[m]| ==> e.pred[m][k] < |nodes|
  }

  /** The edges of the nodes before `i` are in, and no others. */
  ghost predicate Partial(nodes: seq<Node>, e: Edges, i: nat) {
    && PredsInside(nodes, e) && Mirrored(e) && i <= |nodes|
    && (forall k: nat :: k < i ==> e.succ[k] == Successors(nodes, k))
    && (forall k: nat :: i <= k < |nodes| ==> e.succ[k] == [])
    && (forall m: nat :: m < |nodes| ==> e.pred[m] == Predecessors(nodes, m, i))
  }

  /** Edges from `src` to each of `dests`, one after the other. */
  function AddEdges(e: Edges, src: nat, dests: seq<nat>): (r: Edges)
    requires src < |e.succ| == |e.pred| && forall k :: 0 <= k < |dests| ==> dests[k] < |e.pred|
    ensures |r.succ| == |r.pred| == |e.succ|
  {
    if dests == [] then e else AddEdge(AddEdges(e, src, dests[..|dests| - 1]), src, dests[|dests| - 1])
  }

  lemma {:induction false} AddEdgesAppend(e: Edges, src: nat, dests: seq<nat>, m: nat)
    requires src < |e.succ| == |e.pred| && (forall k :: 0 <= k < |dests| ==> dests[k] < |e.pred|) && m < |e.pred|
    ensures AddEdges(e, src, dests).pred[m] == e.pred[m] + Times(Count(dests, m), src)
  {
    if dests != [] {
      AddEdgesAppend(e, src, dests[..|dests| - 1], m);
    }
  }

  lemma {:induction false} AddEdgesSucc(e: Edges, src: nat, dests: seq<nat>)
    requires src < |e.succ| == |e.pred| && forall k :: 0 <= k < |dests| ==> dests[k] < |e.pred|
    ensures AddEdges(e, src, dests).succ == e.succ[src := e.succ[src] + dests]
  {
    if dests != [] {
      var p, d := dests[..|dests| - 1], dests[|dests| - 1];
      AddEdgesSucc(e, src, p);
      assert (e.succ[src] + p) + [d] == e.succ[src] + dests;
    } else {
      assert e.succ[src] + [] == e.succ[src];
      assert e.succ[src := e.succ[src]] == e.succ;
    }
  }

  lemma AddOneEdge(e: Edges, src: nat, dest: nat)
    requires src < |e.succ| == |e.pred| && dest < |e.pred|
    ensures AddEdges(e, src, [dest]) == AddEdge(e, src, dest)
  {
    assert [dest][..0] == [];
    assert AddEdges(e, src, []) == e;
  }

  lemma AddTwoEdges(e: Edges, src: nat, dest: nat, other: nat)
    requires src < |e.succ| == |e.pred| && dest < |e.pred| && other < |e.pred|
    ensures AddEdges(e, src, [dest, other]) == AddEdge(AddEdge(e, src, dest), src, other)
  {
    assert [dest, other][..1] == [dest];
    AddOneEdge(e, src, dest);
  }

  /** Adds an edge, or fails when its target is not a node. */
  method AddEdgeTo(nodes: seq<Node>, e: Edges, src: nat, dest: nat) returns (r: Option<Edges>)
    requires PredsInside(nodes, e) && Mirrored(e) && src < |nodes|
    ensures r.Some? <==> dest < |nodes|
    ensures r.Some? ==> PredsInside(nodes, r.value) && Mirrored(r.value)
    ensures r.Some? ==> r.value == AddEdge(e, src, dest)
  {
    if dest >= |nodes| {
      return None;
    }
    AddEdgeMirrors(e, src, dest);
    return Some(AddEdge(e, src, dest));
  }

  ghost predicate SuccessorsInside(nodes: seq<Node>, i: nat)
    requires i < |nodes|
  {
    forall k :: 0 <= k < |Successors(nodes, i)| ==> Successors(nodes, i)[k] < |nodes|
  }

  /** The edges out of node `i`, in order. */
  method AddNodeEdges(nodes: seq<Node>, e: Edges, i: nat) returns (r: Option<Edges>)
    requires PredsInside(nodes, e) && Mirrored(e) && i < |nodes|
    requires nodes[|nodes| - 1].instr.opcode.End?
    ensures r.Some? <==> TargetInside(nodes, i)
    ensures r.Some? ==> PredsInside(nodes, r.value) && Mirrored(r.value)
    ensures r.Some? ==> SuccessorsInside(nodes, i) && r.value == AddEdges(e, i, Successors(nodes, i))
  {
    EdgesSized(nodes, e);
    InsideOrNot(nodes, i);
    hide Mirrored, PredsInside, AddEdge, AddEdges, Target, Successors, SuccessorsInside, TargetInside;
    match nodes[i].instr.opcode {
      case End =>
        r := Some(e);
      case Jump =>
        r := AddEdgeTo(nodes, e, i, Target(nodes, nodes[i]));
      case If =>
        r := AddEdgeTo(nodes, e, i, i + 1);
        r := AddEdgeTo(nodes, r.value, i, Target(nodes, nodes[i]));
      case _ =>
        r := AddEdgeTo(nodes, e, i, i + 1);
    }
    if r.Some? {
      NodeEdges(nodes, e, i);
    }
  }

  lemma InsideOrNot(nodes: seq<Node>, i: nat)
    requires i < |nodes| && nodes[|nodes| - 1].instr.opcode.End?
    ensures !nodes[i].instr.opcode.End? ==> i + 1 < |nodes|
    ensures TargetInside(nodes, i) <==> Jumps(nodes[i].instr.opcode) ==> Target(nodes, nodes[i]) < |nodes|
  {
  }

  /** The edges of the switch are those to the successors. */
  lemma NodeEdges(nodes: seq<Node>, e: Edges, i: nat)
    requires i < |nodes| == |e.succ| == |e.pred| && nodes[|nodes| - 1].instr.opcode.End? && TargetInside(nodes, i)
    ensures SuccessorsInside(nodes, i)
    ensures AddEdges(e, i, Successors(nodes, i)) ==
      match nodes[i].instr.opcode
      case End => e
      case Jump => AddEdge(e, i, Target(nodes, nodes[i]))
      case If => AddEdge(AddEdge(e, i, i + 1), i, Target(nodes, nodes[i]))
      case _ => AddEdge(e, i, i + 1)
  {
    hide AddEdge, Find;
    match nodes[i].instr.opcode {
      case End =>
      case Jump =>
        AddOneEdge(e, i, Target(nodes, nodes[i]));
      case If =>
        AddTwoEdges(e, i, i + 1, Target(nodes, nodes[i]));
      case _ =>
        AddOneEdge(e, i, i + 1);
    }
  }

  lemma PartialNext(nodes: seq<Node>, e: Edges, i: nat, next: Edges)
    requires Partial(nodes, e, i) && i < |nodes| && PredsInside(nodes, next) && Mirrored(next)
    requires SuccessorsInside(nodes, i) && next == AddEdges(e, i, Successors(nodes, i))
    ensures Partial(nodes, next, i + 1)
  {
    EdgesSized(nodes, e);
    EdgesSized(nodes, next);
    hide Mirrored, PredsInside, Successors, AddEdges;
    var dests := Successors(nodes, i);
    AddEdgesSucc(e, i, dests);
    assert e.succ[i] + dests == dests;
    forall m: nat | m < |nodes|
      ensures next.pred[m] == Predecessors(nodes, m, i + 1)
    {
      AddEdgesAppend(e, i, dests, m);
    }
  }

  lemma PartialParts(nodes: seq<Node>, e: Edges, i: nat)
    requires Partial(nodes, e, i)
    ensures PredsInside(nodes, e) && Mirrored(e) && |e.succ| == |e.pred| == |nodes|
  {
  }

  /** A graph without edges, as mcfg_mk_node leaves the nodes. */
  function NoEdges(nodes: seq<Node>): (e: Edges)
    ensures Partial(nodes, e, 0)
  {
    Edges(seq(|nodes|, _ => []), seq(|nodes|, _ => []))
  }

  lemma EdgesSized(nodes: seq<Node>, e: Edges)
    requires PredsInside(nodes, e)
    ensures |e.succ| == |e.pred| == |nodes|
  {
  }

  /** Builds the edges of a function. `None` is the compiler error for a missing LABEL or jump target. */
  method BuildFunc(nodes: seq<Node>) returns (r: Option<Edges>)
    requires |nodes| > 0 && nodes[|nodes| - 1].instr.opcode.End?
    ensures r.Some? <==> nodes[0].instr.opcode.Label? && JumpsInside(nodes)
    ensures r.Some? ==> Partial(nodes, r.value, |nodes|)
  {
    if !nodes[0].instr.opcode.Label? {
      return None;
    }
    hide Partial, TargetInside;
    var e := NoEdges(nodes);
    var i := 0;
    while i < |nodes|
      invariant i <= |nodes| && Partial(nodes, e, i)
      invariant forall k: nat :: k < i ==> TargetInside(nodes, k)
    {
      var next := AddNode(nodes, e, i);
      if next.None? {
        return None;
      }
      e := next.value;
      i := i + 1;
    }
    return Some(e);
  }

  method AddNode(nodes: seq<Node>, e: Edges, i: nat) returns (r: Option<Edges>)
    requires i < |nodes| && nodes[|nodes| - 1].instr.opcode.End? && Partial(nodes, e, i)
    ensures r.Some? <==> TargetInside(nodes, i)
    ensures r.Some? ==> Partial(nodes, r.value, i + 1)
  {
    hide *;
    PartialParts(nodes, e, i);
    r := AddNodeEdges(nodes, e, i);
    if r.Some? {
      PartialNext(nodes, e, i, r.value);
    }
  }

  /** Every step of a run inside the function follows an edge of the graph. */
  lemma StepFollowsEdge(ctx: Context, nodes: seq<Node>, s: State)
    requires s.pos < |nodes|
    ensures Step(ctx, nodes, s).Running? ==> Step(ctx, nodes, s).s.pos in Successors(nodes, s.pos)
  {
  }

  // ----- Definitions and uses -----

  ghost predicate Mentions(op: Operand, v: Name) {
    op.Loc? && op.name == v
  }

  /** What an instruction defines: its third operand, unless that is a place stores go through. */
  function DefOf(i: Instr): Option<Name> {
    if i.op2.Loc? && !i.opcode.RegStore? && !i.opcode.HeapStore? then Some(i.op2.name) else None
  }

  /** What an instruction uses. Operands that name a global's memory are not uses. */
  ghost predicate Reads(i: Instr, v: Name) {
    match i.opcode
    case RegStore => Mentions(i.op2, v) || Mentions(i.op0, v) || Mentions(i.op1, v)
    case HeapAddr | HeapLoad => false
    case Call => exists k :: 0 <= k < |i.args| && Mentions(i.args[k], v)
    case _ => Mentions(i.op0, v) || Mentions(i.op1, v)
  }

  /** The use list with an operand's name, which is appended unless it is there. */
  function WithUse(uses: seq<Name>, op: Operand): (r: seq<Name>)
    ensures Distinct(uses) ==> Distinct(r)
    ensures forall v :: v in r <==> v in uses || Mentions(op, v)
  {
    if op.Loc? && op.name !in uses then uses + [op.name] else uses
  }

  function WithUses(ops: seq<Operand>): (r: seq<Name>)
    ensures Distinct(r)
    ensures forall v :: v in r <==> exists k :: 0 <= k < |ops| && Mentions(ops[k], v)
  {
    if ops == [] then [] else WithUse(WithUses(ops[..|ops| - 1]), ops[|ops| - 1])
  }

  /** The use list of an instruction, in the order it is filled. */
  function Uses(i: Instr): (r: seq<Name>)
    ensures Distinct(r)
    ensures forall v :: v in r <==> Reads(i, v)
  {
    match i.opcode
    case RegStore => WithUse(WithUse(WithUse([], i.op2), i.op0), i.op1)
    case HeapAddr | HeapLoad => []
    case Call => WithUses(i.args)
    case _ => WithUse(WithUse([], i.op0), i.op1)
  }

  /** Adds an operand's name to a use list unless it is a constant or already there. */
  method AddVarUse(uses: seq<Name>, op: Operand) returns (r: seq<Name>)
    requires Distinct(uses)
    ensures r == WithUse(uses, op)
  {
    if !op.Loc? {
      return uses;
    }
    var i := 0;
    while i < |uses|
      invariant 0 <= i <= |uses| && op.name !in uses[..i]
    {
      if uses[i] == op.name {
        return uses;
      }
      i := i + 1;
    }
    return uses + [op.name];
  }

  method UsesOf(i: Instr) returns (uses: seq<Name>)
    ensures uses == Uses(i)
  {
    uses := [];
    if i.opcode.RegStore? {
      uses := AddVarUse(uses, i.op2);
    }
    if i.opcode.HeapAddr? || i.opcode.HeapLoad? {
      return;
    }
    if i.opcode.Call? {
      var j := 0;
      while j < |i.args|
        invariant 0 <= j <= |i.args| && uses == WithUses(i.args[..j])
      {
        assert i.args[..j + 1][..j] == i.args[..j];
        uses := AddVarUse(uses, i.args[j]);
        j := j + 1;
      }
      assert i.args[..j] == i.args;
    } else {
      uses := AddVarUse(uses, i.op0);
      uses := AddVarUse(uses, i.op1);
    }
  }

  /** The use lists and definitions of all nodes. */
  method BuildDefUse(nodes: seq<Node>) returns (use: seq<seq<Name>>, def: seq<Option<Name>>)
    ensures |use| == |nodes| && |def| == |nodes|
    ensures forall i: nat :: i < |nodes| ==> use[i] == Uses(nodes[i].instr) && def[i] == DefOf(nodes[i].instr)
  {
    use, def := [], [];
    var i := 0;
    while i < |nodes|
      invariant 0 <= i <= |nodes| && |use| == i && |def| == i
      invariant forall k: nat :: k < i ==> use[k] == Uses(nodes[k].instr) && def[k] == DefOf(nodes[k].instr)
    {
      var u := UsesOf(nodes[i].instr);
      use := use + [u];
      def := def + [DefOf(nodes[i].instr)];
      i := i + 1;
    }
  }

  /** The control flow graph of a function, its lists in the order they are filled. */
  function GraphOf(nodes: seq<Node>): (g: FlowGraph)
    ensures |g.succ| == |g.pred| == |g.use| == |g.def| == |nodes|
  {
    var n := |nodes|;
    FlowGraph(
      seq(n, i requires 0 <= i < n => Successors(nodes, i)),
      seq(n, m requires 0 <= m < n => Predecessors(nodes, m, n)),
      seq(n, i requires 0 <= i < n => Uses(nodes[i].instr)),
      seq(n, i requires 0 <= i < n => DefOf(nodes[i].instr)))
  }

  /** `g` is the control flow graph of `nodes`. */
  ghost predicate IsGraphOf(g: FlowGraph, nodes: seq<Node>) {
    && g == GraphOf(nodes)
    && g.Valid() && |g.succ| == |nodes|
    && (forall i: nat :: i < |nodes| ==> g.succ[i] == Successors(nodes, i))
    && (forall i: nat, v :: i < |nodes| ==> (v in g.use[i] <==> Reads(nodes[i].instr, v)))
    && (forall i: nat :: i < |nodes| ==> g.def[i] == DefOf(nodes[i].instr))
  }

  lemma EdgesGoBothWays(e: Edges)
    requires Mirrored(e)
    ensures forall n: nat, m: nat :: n < |e.succ| && m < |e.succ| ==> (m in e.succ[n] <==> n in e.pred[m])
  {
    forall n: nat, m: nat | n < |e.succ| && m < |e.succ|
      ensures m in e.succ[n] <==> n in e.pred[m]
    {
      CountIn(e.succ[n], m);
      CountIn(e.pred[m], n);
    }
  }

  lemma GraphIsValid(nodes: seq<Node>, e: Edges, g: FlowGraph)
    requires |nodes| > 0 && nodes[|nodes| - 1].instr.opcode.End? && JumpsInside(nodes)
    requires Partial(nodes, e, |nodes|) && g.succ == e.succ && g.pred == e.pred
    requires |g.use| == |g.def| == |nodes|
    ensures g.Valid()
  {
    EdgesGoBothWays(e);
    hide Predecessors, Mirrored, Count, JumpsInside;
    forall n: nat | n < |nodes|
      ensures forall k :: 0 <= k < |g.succ[n]| ==> g.succ[n][k] < |nodes|
    {
      assert TargetInside(nodes, n) by {
        JumpInside(nodes, n);
      }
      NodeEdges(nodes, e, n);
      assert g.succ[n] == Successors(nodes, n);
    }
  }

  lemma JumpInside(nodes: seq<Node>, n: nat)
    requires JumpsInside(nodes) && n < |nodes|
    ensures TargetInside(nodes, n)
  {
  }

  lemma GraphIsBuilt(nodes: seq<Node>, e: Edges, use: seq<seq<Name>>, def: seq<Option<Name>>)
    requires Partial(nodes, e, |nodes|) && |use| == |def| == |nodes|
    requires forall i: nat :: i < |nodes| ==> use[i] == Uses(nodes[i].instr) && def[i] == DefOf(nodes[i].instr)
    ensures FlowGraph(e.succ, e.pred, use, def) == GraphOf(nodes)
  {
    hide Successors, Predecessors, Mirrored, Count, Uses, DefOf;
    var g := GraphOf(nodes);
    assert e.succ == g.succ && e.pred == g.pred && use == g.use && def == g.def;
  }

  lemma SourcesAreUses(i: Instr)
    ensures HasSource(i) <==> Uses(i) != []
  {
    if i.opcode.Call? {
      if k :| 0 <= k < |i.args| && i.args[k].Loc? {
        assert Mentions(i.args[k], i.args[k].name);
        assert i.args[k].name in Uses(i);
      }
      if Uses(i) != [] {
        assert Uses(i)[0] in Uses(i);
      }
    }
  }

  lemma {:induction false} PredecessorsAre(nodes: seq<Node>, m: nat, i: nat, n: nat)
    requires i <= |nodes|
    ensures n in Predecessors(nodes, m, i) <==> n < i && m in Successors(nodes, n)
  {
    if i > 0 {
      PredecessorsAre(nodes, m, i - 1, n);
      CountIn(Successors(nodes, i - 1), m);
      hide Successors, Count;
      var last := Times(Count(Successors(nodes, i - 1), m), i - 1);
      if Count(Successors(nodes, i - 1), m) > 0 {
        assert last[0] == i - 1;
      }
    }
  }

  /** The graph of a function whose jumps stay inside is well formed. */
  lemma GraphOfIsValid(nodes: seq<Node>)
    requires |nodes| > 0 && nodes[|nodes| - 1].instr.opcode.End? && JumpsInside(nodes)
    ensures IsGraphOf(GraphOf(nodes), nodes)
  {
    var g := GraphOf(nodes);
    forall n: nat | n < |nodes|
      ensures forall k :: 0 <= k < |g.succ[n]| ==> g.succ[n][k] < |nodes|
    {
      assert TargetInside(nodes, n);
      assert g.succ[n] == Successors(nodes, n);
      InsideOrNot(nodes, n);
    }
    hide Successors, Predecessors, JumpsInside;
    forall n: nat, m: nat | m < |nodes|
      ensures n in g.pred[m] <==> n < |nodes| && m in g.succ[n]
    {
      PredecessorsAre(nodes, m, |nodes|, n);
    }
    forall m, k | 0 <= m < |nodes| && 0 <= k < |g.pred[m]|
      ensures g.pred[m][k] < |nodes|
    {
      assert g.pred[m] == Predecessors(nodes, m, |nodes|) && g.pred[m][k] in g.pred[m];
      PredecessorsAre(nodes, m, |nodes|, g.pred[m][k]);
    }
    ValidGraphOf(nodes);
  }

  lemma UsesAreReads(i: Instr, v: Name)
    ensures v in Uses(i) <==> Reads(i, v)
  {
  }

  lemma ValidGraphOf(nodes: seq<Node>)
    requires GraphOf(nodes).Valid()
    ensures IsGraphOf(GraphOf(nodes), nodes)
  {
    hide Successors, Predecessors, DefOf, Reads;
    var g := GraphOf(nodes);
    forall i: nat, v | i < |nodes|
      ensures v in g.use[i] <==> Reads(nodes[i].instr, v)
    {
      UsesAreReads(nodes[i].instr, v);
    }
  }

  method BuildGraph(nodes: seq<Node>) returns (r: Option<FlowGraph>)
    requires |nodes| > 0 && nodes[|nodes| - 1].instr.opcode.End?
    ensures r.Some? <==> nodes[0].instr.opcode.Label? && JumpsInside(nodes)
    ensures r.Some? ==> IsGraphOf(r.value, nodes)
  {
    var e := BuildFunc(nodes);
    if e.None? {
      return None;
    }
    var use, def := BuildDefUse(nodes);
    var g := FlowGraph(e.value.succ, e.value.pred, use, def);
    GraphIsValid(nodes, e.value, g);
    GraphIsBuilt(nodes, e.value, use, def);
    hide *;
    ValidGraphOf(nodes);
    return Some(g);
  }
}
