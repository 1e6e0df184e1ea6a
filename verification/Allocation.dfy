/** One pass of allocate_registers (regalloc.c) from MIR functions to rewritten functions. */
module Allocation {
  import opened Wrappers
  import opened Sequences
  import opened Liveness
  import opened Mir
  import opened MirCfg
  import opened DfsLiveness
  import opened Interference
  import opened Rewrite
  import Colouring
  import PruneAssign

  datatype Result =
    | Failed                     // a fatal compiler error, or a program without any register operand
    | NeedsSpill                 // some register got no colour
    | Done(code: seq<seq<Node>>, names: seq<Name>, colour: seq<nat>, live: seq<FuncLiveness>)

  ghost predicate ProgramShape(funcs: seq<seq<Node>>) {
    forall i :: 0 <= i < |funcs| ==> |funcs[i]| > 0 && funcs[i][|funcs[i]| - 1].instr.opcode.End?
  }

  /** The node of a function's END, its last. */
  function Exit(g: FlowGraph): nat {
    if |g.succ| == 0 then 0 else |g.succ| - 1
  }

  /** The nodes of a function that can reach its END. */
  ghost function Within(f: FuncLiveness): iset<nat> {
    Reaching(f.g, Exit(f.g))
  }

  /** `f` is what the liveness loop leaves for the function `nodes`. */
  ghost predicate Analysed(nodes: seq<Node>, f: FuncLiveness) {
    && |nodes| > 0 && IsGraphOf(f.g, nodes) && f.Valid()
    && Sound(f.g, Within(f), f.ins, f.outs)
    && (Exact(f.g, Within(f), f.ins, f.outs) <==> PassComplete(nodes))
    && (!FirstPassReports(f.g, Exit(f.g)) ==> UsesAlone(f.g, Within(f), f.ins, f.outs))
  }

  ghost predicate AllAnalysed(funcs: seq<seq<Node>>, live: seq<FuncLiveness>)
    ensures AllAnalysed(funcs, live) ==> forall i :: 0 <= i < |live| ==> live[i].Valid()
  {
    |live| == |funcs| && forall i :: 0 <= i < |funcs| ==> Analysed(funcs[i], live[i])
  }

  /** The first liveness pass over a function reports a change, or no use comes after an edge. The order the
      graph's lists are filled in decides, so this is a property of the instruction list. */
  ghost predicate PassComplete(nodes: seq<Node>) {
    var g := GraphOf(nodes);
    |nodes| > 0 && g.Valid() && (FirstPassReports(g, Exit(g)) || !UseAfterEdge(g, ReachingEnd(nodes)))
  }

  /** The nodes of a function that can reach its END, in its graph. */
  ghost function ReachingEnd(nodes: seq<Node>): iset<nat> {
    Reaching(GraphOf(nodes), Exit(GraphOf(nodes)))
  }

  /** No edge leaves the nodes that can reach the END. */
  ghost predicate EndStaysReachable(nodes: seq<Node>) {
    EdgesStay(GraphOf(nodes), ReachingEnd(nodes))
  }

  /** The names and colours keep apart whatever the program makes interfere. */
  ghost predicate ColoursProgram(live: seq<FuncLiveness>, names: seq<Name>, colour: seq<nat>, nregs: nat)
    requires forall i :: 0 <= i < |live| ==> live[i].Valid()
  {
    && Coloured(names, colour) && Distinct(names)
    && (forall v :: v in names <==> Occurs(live, v))
    && (forall i :: 0 <= i < |colour| ==> colour[i] <= nregs)
    && (forall x, y :: Interferes(live, x, y) ==>
          Home(names, colour, x) != Home(names, colour, y))
  }

  /** `g` is the program's interference graph over `names`, which lists every name once. */
  ghost predicate Describes(live: seq<FuncLiveness>, names: seq<Name>, g: Colouring.Graph)
    requires forall i :: 0 <= i < |live| ==> live[i].Valid()
  {
    && Distinct(names) && (forall v :: v in names <==> Occurs(live, v))
    && g.Valid() && g.n == |names|
    && (forall i: nat, j: nat :: i < g.n && j < g.n ==> (g.Linked(i, j) <==> Interferes(live, names[i], names[j])))
  }

  /** The names were coloured from the top of some stack down, each with the lowest colour free by then. */
  ghost predicate ColouredGreedily(live: seq<FuncLiveness>, names: seq<Name>, colour: seq<nat>, nregs: nat)
    requires forall i :: 0 <= i < |live| ==> live[i].Valid()
  {
    exists g, order :: Describes(live, names, g) && |colour| == g.n &&
      Colouring.IsOrder(g, order) && Colouring.Greedy(g, nregs, order, colour, 0)
  }

  /** The interference graph has a part in which every name has `nregs` neighbours or more. */
  ghost predicate HasProgramCore(live: seq<FuncLiveness>, nregs: nat)
    requires forall i :: 0 <= i < |live| ==> live[i].Valid()
  {
    exists names, g :: Describes(live, names, g) && Colouring.HasCore(g, nregs)
  }

  /** No such part, whatever order the analysis visited predecessors in. */
  ghost predicate NeverCore(funcs: seq<seq<Node>>, nregs: nat) {
    forall live :: AllAnalysed(funcs, live) ==> !HasProgramCore(live, nregs)
  }

  ghost predicate Allocated(funcs: seq<seq<Node>>, r: Result, nregs: nat)
    requires r.Done?
  {
    && |r.code| == |funcs| && AllAnalysed(funcs, r.live)
    && ColoursProgram(r.live, r.names, r.colour, nregs)
    && ColouredGreedily(r.live, r.names, r.colour, nregs)
    && (forall i :: 0 <= i < |funcs| ==> r.code[i] == Rewritten(r.names, r.colour, funcs[i]))
  }

  /** A function whose graph can be built: it starts with its LABEL and jumps only to its own nodes. */
  ghost predicate Graphable(nodes: seq<Node>) {
    |nodes| > 0 && nodes[0].instr.opcode.Label? && JumpsInside(nodes)
  }

  /** Liveness of one function; `None` when its graph cannot be built. */
  method Analyse(nodes: seq<Node>) returns (r: Option<FuncLiveness>)
    requires |nodes| > 0 && nodes[|nodes| - 1].instr.opcode.End?
    ensures r.Some? <==> Graphable(nodes)
    ensures r.Some? ==> Analysed(nodes, r.value)
  {
    var built := BuildGraph(nodes);
    if built.None? {
      return None;
    }
    var ins, outs := RunLiveness(built.value);
    return Some(FuncLiveness(built.value, ins, outs));
  }

  method RunLiveness(g: FlowGraph) returns (ins: seq<seq<Name>>, outs: seq<seq<Name>>)
    requires g.Valid() && |g.succ| > 0
    ensures FuncLiveness(g, ins, outs).Valid()
    ensures Sound(g, Reaching(g, Exit(g)), ins, outs)
    ensures Exact(g, Reaching(g, Exit(g)), ins, outs) <==>
      FirstPassReports(g, Exit(g)) || !UseAfterEdge(g, Reaching(g, Exit(g)))
    ensures !FirstPassReports(g, Exit(g)) ==> UsesAlone(g, Reaching(g, Exit(g)), ins, outs)
  {
    var sets := new LiveSets(g, Reaching(g, Exit(g)));
    assert g.Node(Exit(g));
    var walker := new Walker(sets, Exit(g));
    var _ := walker.CalculateLiveness();
    ins, outs := sets.ins[..], sets.outs[..];
  }

  ghost predicate AllGraphable(funcs: seq<seq<Node>>) {
    forall i :: 0 <= i < |funcs| ==> Graphable(funcs[i])
  }

  lemma AnalysedExtends(funcs: seq<seq<Node>>, live: seq<FuncLiveness>, i: nat, f: FuncLiveness)
    requires i < |funcs| && AllAnalysed(funcs[..i], live) && AllGraphable(funcs[..i])
    requires Analysed(funcs[i], f) && Graphable(funcs[i])
    ensures AllAnalysed(funcs[..i + 1], live + [f]) && AllGraphable(funcs[..i + 1])
  {
    hide Analysed, Graphable;
  }

  method AnalyseAll(funcs: seq<seq<Node>>) returns (r: Option<seq<FuncLiveness>>)
    requires ProgramShape(funcs)
    ensures r.Some? <==> AllGraphable(funcs)
    ensures r.Some? ==> AllAnalysed(funcs, r.value)
  {
    var live := [];
    var i := 0;
    while i < |funcs|
      invariant 0 <= i <= |funcs| && AllAnalysed(funcs[..i], live) && AllGraphable(funcs[..i])
    {
      var f := Analyse(funcs[i]);
      if f.None? {
        return None;
      }
      AnalysedExtends(funcs, live, i, f.value);
      live := live + [f.value];
      i := i + 1;
    }
    assert funcs[..i] == funcs;
    return Some(live);
  }

  /** Every name in a liveness list occurs in the program, so linking never fails. */
  lemma LiveNamesOccur(funcs: seq<seq<Node>>, live: seq<FuncLiveness>, x: Name, y: Name)
    requires AllAnalysed(funcs, live)
    requires Interferes(live, x, y)
    ensures Occurs(live, x) && Occurs(live, y)
  {
    var i: nat, l: nat :| i < |live| && l < |live[i].g.succ| && NodeInterferes(live[i], l, x, y);
    NameOccurs(funcs, live, i, l, x);
    NameOccurs(funcs, live, i, l, y);
  }

  lemma NameOccurs(funcs: seq<seq<Node>>, live: seq<FuncLiveness>, i: nat, l: nat, v: Name)
    requires AllAnalysed(funcs, live)
    requires i < |live| && l < |live[i].g.succ|
    requires live[i].g.def[l] == Some(v) || v in live[i].ins[l] || v in live[i].outs[l]
    ensures Occurs(live, v)
  {
    var f := live[i];
    assert Analysed(funcs[i], f);
    if f.g.def[l] == Some(v) {
      assert OccursAt(f, l, v);
    } else {
      if v in f.ins[l] {
        LiveInWithin(f.g, Within(f), l, v);
      } else {
        var m: nat :| f.g.Edge(l, m) && LiveIn(f.g, Within(f), m, v);
        LiveInWithin(f.g, Within(f), m, v);
      }
      var n: nat :| n < |f.g.use| && v in f.g.use[n];
      assert OccursAt(f, n, v);
    }
  }

  lemma ColouringSeparates(live: seq<FuncLiveness>, names: seq<Name>, colour: seq<nat>, nregs: nat, g: Colouring.Graph)
    requires forall i :: 0 <= i < |live| ==> live[i].Valid()
    requires Describes(live, names, g) && g.n == |colour| && Colouring.IsColouring(g, nregs, colour)
    requires forall x, y :: Interferes(live, x, y) ==> Occurs(live, x) && Occurs(live, y)
    ensures ColoursProgram(live, names, colour, nregs)
  {
    forall x, y | Interferes(live, x, y)
      ensures Home(names, colour, x) != Home(names, colour, y)
    {
      var i, j := SymReg(names, x), SymReg(names, y);
      assert g.Linked(i, j);
    }
  }

  /** Some instruction of the program reads or defines `v`. */
  ghost predicate Mentioned(funcs: seq<seq<Node>>, v: Name) {
    exists i: nat, n: nat :: i < |funcs| && n < |funcs[i]| && MentionedAt(funcs[i][n].instr, v)
  }

  ghost predicate MentionedAt(i: Instr, v: Name) {
    Reads(i, v) || DefOf(i) == Some(v)
  }

  ghost predicate MentionsNames(funcs: seq<seq<Node>>) {
    exists v: Name :: Mentioned(funcs, v)
  }

  ghost predicate NamesWithin(funcs: seq<seq<Node>>, s: set<Name>) {
    forall v: Name :: Mentioned(funcs, v) ==> v in s
  }

  /** The program has no more names than there are registers. */
  ghost predicate FewNames(funcs: seq<seq<Node>>, nregs: nat) {
    exists s: set<Name> :: |s| <= nregs && NamesWithin(funcs, s)
  }

  lemma OccursIsMentioned(funcs: seq<seq<Node>>, live: seq<FuncLiveness>, v: Name)
    requires AllAnalysed(funcs, live)
    ensures Occurs(live, v) <==> Mentioned(funcs, v)
  {
    if Occurs(live, v) {
      var i: nat, n: nat :| i < |live| && n < |live[i].g.succ| && OccursAt(live[i], n, v);
      assert Analysed(funcs[i], live[i]);
      assert MentionedAt(funcs[i][n].instr, v);
    }
    if Mentioned(funcs, v) {
      var i: nat, n: nat :| i < |funcs| && n < |funcs[i]| && MentionedAt(funcs[i][n].instr, v);
      assert Analysed(funcs[i], live[i]);
      assert OccursAt(live[i], n, v);
    }
  }

  lemma FewNamesFewRegisters(funcs: seq<seq<Node>>, live: seq<FuncLiveness>, names: seq<Name>, nregs: nat)
    requires AllAnalysed(funcs, live) && FewNames(funcs, nregs) && Distinct(names)
    requires forall v :: v in names ==> Occurs(live, v)
    ensures |names| <= nregs
  {
    var s: set<Name> :| |s| <= nregs && NamesWithin(funcs, s);
    DistinctSize(names);
    forall v | v in Elements(names)
      ensures v in s
    {
      OccursIsMentioned(funcs, live, v);
    }
    SubsetSize(Elements(names), s);
  }

  /** A program with few names has no core, so it is always allocated. */
  lemma FewNamesNoCore(funcs: seq<seq<Node>>, nregs: nat)
    requires FewNames(funcs, nregs)
    ensures NeverCore(funcs, nregs)
  {
    forall live, names, g | AllAnalysed(funcs, live) && Describes(live, names, g)
      ensures !Colouring.HasCore(g, nregs)
    {
      FewNamesFewRegisters(funcs, live, names, nregs);
      Colouring.SmallGraphHasNoCore(g, nregs);
    }
  }

  lemma NoNamesNoneMentioned(funcs: seq<seq<Node>>, live: seq<FuncLiveness>)
    requires AllAnalysed(funcs, live) && forall v :: !Occurs(live, v)
    ensures !MentionsNames(funcs)
  {
    if v: Name :| Mentioned(funcs, v) {
      OccursIsMentioned(funcs, live, v);
    }
  }

  lemma NamesAreMentioned(funcs: seq<seq<Node>>, live: seq<FuncLiveness>, names: seq<Name>)
    requires AllAnalysed(funcs, live) && |names| > 0 && forall v :: v in names ==> Occurs(live, v)
    ensures MentionsNames(funcs)
  {
    OccursIsMentioned(funcs, live, names[0]);
  }

  /** What colouring a program goes through: its analysis and interference graph, the stack with the entries
      the degree rule pushed, and the colours. */
  datatype Attempt = Attempt(live: seq<FuncLiveness>, names: seq<Name>, graph: Colouring.Graph,
                             order: seq<nat>, low: seq<bool>, colour: seq<nat>)

  function Costs(names: seq<Name>, cost: Name -> int): (r: seq<int>)
    ensures |r| == |names| && forall i :: 0 <= i < |names| ==> r[i] == cost(names[i])
  {
    seq(|names|, i requires 0 <= i < |names| => cost(names[i]))
  }

  /** The interference graph of the program was pruned by degree and cost. */
  ghost predicate Attempted(funcs: seq<seq<Node>>, nregs: nat, cost: Name -> int, a: Attempt) {
    && AllAnalysed(funcs, a.live) && Describes(a.live, a.names, a.graph) && Numbered(a)
    && Colouring.Pruned(a.graph, nregs, Costs(a.names, cost), a.order, a.low)
    && a.order == Colouring.StackFrom(a.graph, nregs, Costs(a.names, cost), [])
  }

  /** The names are numbered in the order in which they first occur. */
  ghost predicate Numbered(a: Attempt)
    requires forall i :: 0 <= i < |a.live| ==> a.live[i].Valid()
  {
    a.names == ProgramNames(a.live, |a.live|)
  }

  ghost predicate StackColoured(nregs: nat, a: Attempt) {
    && a.graph.Valid() && |a.colour| == a.graph.n
    && Colouring.IsOrder(a.graph, a.order) && Colouring.Greedy(a.graph, nregs, a.order, a.colour, 0)
  }

  /** Pruning stopped early, because the rest has neither a node of small degree nor one to spill. */
  ghost predicate Stuck(nregs: nat, cost: Name -> int, a: Attempt) {
    && a.graph.Valid() && |a.names| == a.graph.n && |a.order| < a.graph.n
    && Colouring.NoneBelow(a.graph, nregs, Elements(a.order))
    && Colouring.NoCandidate(a.graph, Costs(a.names, cost), Elements(a.order))
  }

  /** How an attempt ends: stuck, with a name the greedy colouring gave nothing, or with its colours. */
  ghost predicate EndsAs(r: Result, nregs: nat, cost: Name -> int, a: Attempt) {
    match r
    case Failed => Stuck(nregs, cost, a)
    case NeedsSpill => StackColoured(nregs, a) && 0 in a.colour
    case Done(_, names, colour, live) => StackColoured(nregs, a) && (live, names, colour) == (a.live, a.names, a.colour)
  }

  lemma SameGraph(live: seq<FuncLiveness>, names: seq<Name>, g: Colouring.Graph, h: Colouring.Graph)
    requires (forall i :: 0 <= i < |live| ==> live[i].Valid()) && Describes(live, names, g) && Describes(live, names, h)
    ensures g == h
  {
    forall i: nat, j: nat | i < g.n && j < g.n
      ensures g.links[i][j] == h.links[i][j]
    {
      assert g.Linked(i, j) <==> h.Linked(i, j);
    }
    forall i: nat | i < g.n
      ensures g.links[i] == h.links[i]
    {
    }
  }

  /** Analysis and costs determine the numbering, the stack and the colours. */
  lemma ColoursDetermined(funcs: seq<seq<Node>>, nregs: nat, cost: Name -> int, a: Attempt, b: Attempt)
    requires Attempted(funcs, nregs, cost, a) && Attempted(funcs, nregs, cost, b)
    requires a.live == b.live
    ensures a.names == b.names && a.graph == b.graph && a.order == b.order
    ensures StackColoured(nregs, a) && StackColoured(nregs, b) ==> a.colour == b.colour
  {
    SameGraph(a.live, a.names, a.graph, b.graph);
    hide Colouring.Pruned, AllAnalysed, Describes;
    if StackColoured(nregs, a) && StackColoured(nregs, b) {
      Colouring.GreedyIsUnique(a.graph, nregs, a.order, a.colour, b.colour, 0);
      hide Colouring.Greedy;
      forall i: nat | i < a.graph.n
        ensures a.colour[i] == b.colour[i]
      {
        assert i in a.order;
        var k: nat :| k < |a.order| && a.order[k] == i;
      }
    }
  }

  /** Analyses, colours and, when every register got a colour, rewrites the program. */
  method AllocateProgram(funcs: seq<seq<Node>>, nregs: nat, cost: Name -> int) returns (r: Result, ghost a: Attempt)
    requires ProgramShape(funcs) && nregs >= 1
    ensures r.Done? ==> Allocated(funcs, r, nregs)
    ensures !AllGraphable(funcs) || !MentionsNames(funcs) ==> r.Failed?
    ensures AllGraphable(funcs) && MentionsNames(funcs) ==>
      Attempted(funcs, nregs, cost, a) && EndsAs(r, nregs, cost, a)
    ensures AllGraphable(funcs) && MentionsNames(funcs) && NeverCore(funcs, nregs) ==> r.Done?
  {
    hide Analysed, Graphable, Mentioned, Rewritten, Colouring.Greedy, Colouring.IsColouring, Colouring.HasCore;
    hide Colouring.Pruned, Colouring.NoneBelow, Colouring.NoCandidate, Colouring.IsOrder;
    a := Attempt([], [], Colouring.Graph(0, []), [], [], []);
    r := Failed;
    var live := AnalyseAll(funcs);
    if live.None? {
      return;
    }
    var ig := new InterferenceGraph();
    var linked := ig.Build(live.value);
    assert linked by {
      forall x, y | Interferes(live.value, x, y)
        ensures Occurs(live.value, x) && Occurs(live.value, y)
      {
        LiveNamesOccur(funcs, live.value, x, y);
      }
    }
    var names := ig.symReg;
    if |names| == 0 {
      NoNamesNoneMentioned(funcs, live.value);
      return;
    }
    assert names == ProgramNames(live.value, |live.value|);
    hide ProgramNames;
    NamesAreMentioned(funcs, live.value, names);
    var g := ig.Matrix();
    assert Describes(live.value, names, g);
    var outcome, colour, order, low := PruneAssign.Attempt(g, nregs, Costs(names, cost));
    a := Attempt(live.value, names, g, order, low, colour);
    match outcome {
      case Aborted =>
      case Spilled =>
        r := NeedsSpill;
      case Coloured =>
        ColouringSeparates(live.value, names, colour, nregs, g);
        assert ColouredGreedily(live.value, names, colour, nregs);
        var code := RewriteAll(funcs, names, colour);
        r := Done(code, names, colour, live.value);
    }
  }

  method RewriteAll(funcs: seq<seq<Node>>, names: seq<Name>, colour: seq<nat>) returns (code: seq<seq<Node>>)
    ensures |code| == |funcs| && forall i :: 0 <= i < |funcs| ==> code[i] == Rewritten(names, colour, funcs[i])
  {
    code := [];
    var i := 0;
    while i < |funcs|
      invariant 0 <= i <= |funcs| && |code| == i
      invariant forall k :: 0 <= k < i ==> code[k] == Rewritten(names, colour, funcs[k])
    {
      var listing := new Listing(funcs[i]);
      listing.ToSymLir(names);
      listing.ModifyCode(colour);
      assert listing.nodes == Rewritten(names, colour, funcs[i]);
      code := code + [listing.nodes];
      i := i + 1;
    }
  }

  // ----- The end-to-end guarantee -----

  /** What the allocation knows about node `n` of function `f`. */
  ghost predicate At(funcs: seq<seq<Node>>, r: Result, nregs: nat, f: nat, n: nat)
  {
    && r.Done? && Allocated(funcs, r, nregs) && f < |funcs|
    && n < |funcs[f]| && n in Within(r.live[f])
  }

  /** Every instruction names something only if it has a symbolic register. */
  lemma InstrNamed(funcs: seq<seq<Node>>, r: Result, nregs: nat, f: nat, n: nat)
    requires r.Done? && Allocated(funcs, r, nregs) && f < |funcs| && n < |funcs[f]|
    ensures Named(r.names, funcs[f][n].instr)
  {
    var l := r.live[f];
    assert Analysed(funcs[f], l);
    forall v | Reads(funcs[f][n].instr, v) || DefOf(funcs[f][n].instr) == Some(v)
      ensures v in r.names
    {
      assert OccursAt(l, n, v);
      assert Occurs(r.live, v);
    }
  }

  /** An allocated program works in its `nregs` hard registers, colour `c` in register `c - 1`. */
  lemma HardRegistersOnly(funcs: seq<seq<Node>>, r: Result, nregs: nat, f: nat, n: nat)
    requires r.Done? && Allocated(funcs, r, nregs) && f < |funcs| && n < |funcs[f]|
    requires Lowered(funcs[f][n].instr) && OffsetGiven(funcs[f][n].instr)
    ensures |r.code| == |funcs| && |r.code[f]| == |funcs[f]|
    ensures OnlyRegisters(r.code[f][n].instr, nregs)
    ensures Coloured(r.names, r.colour)
    ensures RegistersByColour(r.names, r.colour, funcs[f][n].instr, r.code[f][n].instr)
  {
    InstrNamed(funcs, r, nregs, f, n);
    hide AllAnalysed, ColouredGreedily, Lowered, Named, OnlyRegisters, RegistersByColour, HardInstr, SymInstr;
    RegistersOf(r.names, r.colour, nregs, funcs[f][n].instr);
  }

  /** Before or behind some node both names are live, or the node defines the one and the other is live behind it. */
  ghost predicate NeededTogether(f: FuncLiveness, n: nat, x: Name, y: Name)
    requires f.Valid() && n < |f.g.succ|
  {
    || (x in f.ins[n] && y in f.ins[n])
    || (x in f.outs[n] && y in f.outs[n])
    || (f.g.def[n] == Some(x) && y in f.outs[n])
    || (f.g.def[n] == Some(y) && x in f.outs[n])
  }

  /** Two names that some node needs together have different colours. */
  lemma NeededTogetherApart(funcs: seq<seq<Node>>, r: Result, nregs: nat, f: nat, n: nat, i: nat, j: nat)
    requires r.Done? && Allocated(funcs, r, nregs) && f < |r.live| && n < |r.live[f].g.succ|
    requires i < |r.names| && j < |r.names| && i != j && NeededTogether(r.live[f], n, r.names[i], r.names[j])
    ensures i < |r.colour| && j < |r.colour| && r.colour[i] != r.colour[j]
  {
    assert NodeInterferes(r.live[f], n, r.names[i], r.names[j]);
    hide AllAnalysed, Analysed, ColouredGreedily, Rewritten, NodeInterferes, NeededTogether, Occurs;
    assert Interferes(r.live, r.names[i], r.names[j]);
    SymRegOf(r.names, i);
    SymRegOf(r.names, j);
    assert Home(r.names, r.colour, r.names[i]) != Home(r.names, r.colour, r.names[j]);
  }

  lemma NodeNamed(funcs: seq<seq<Node>>, r: Result, nregs: nat, f: nat, n: nat)
    requires At(funcs, r, nregs, f, n)
    ensures Named(r.names, funcs[f][n].instr)
    ensures forall v :: v in r.live[f].ins[n] || v in r.live[f].outs[n] ==> v in r.names
  {
    var l := r.live[f];
    assert Analysed(funcs[f], l);
    InstrNamed(funcs, r, nregs, f, n);
    forall v | v in l.ins[n] || v in l.outs[n]
      ensures v in r.names
    {
      NameOccurs(funcs, r.live, f, n, v);
    }
  }

  lemma NodeIsClosed(f: FuncLiveness, n: nat)
    requires f.Valid() && n < |f.g.succ| && n in Within(f)
    requires Exact(f.g, Within(f), f.ins, f.outs) && Sound(f.g, Within(f), f.ins, f.outs)
    ensures NodeClosed(f.g, f.ins, f.outs, n)
  {
    forall v
      ensures (v in f.g.use[n] ==> v in f.ins[n]) && (v in f.outs[n] && f.g.def[n] != Some(v) ==> v in f.ins[n])
    {
      LivenessEquations(f.g, Within(f), n, v);
    }
    forall m: nat, v | f.g.Edge(n, m) && v in f.ins[m]
      ensures v in f.outs[n]
    {
      assert LiveIn(f.g, Within(f), m, v);
    }
  }

  lemma NodeApart(funcs: seq<seq<Node>>, r: Result, nregs: nat, f: nat, n: nat)
    requires At(funcs, r, nregs, f, n)
    ensures Apart(r.names, r.colour, r.live[f].g.def[n], r.live[f].ins[n], r.live[f].outs[n])
  {
    var l := r.live[f];
    forall x, y | NodeInterferes(l, n, x, y)
      ensures Home(r.names, r.colour, x) != Home(r.names, r.colour, y)
    {
      assert Interferes(r.live, x, y);
    }
    ApartIfInterferingDiffer(l, r.names, r.colour, n);
  }

  lemma ApartIfInterferingDiffer(f: FuncLiveness, names: seq<Name>, colour: seq<nat>, n: nat)
    requires f.Valid() && n < |f.g.succ|
    requires forall x, y :: NodeInterferes(f, n, x, y) ==> Home(names, colour, x) != Home(names, colour, y)
    ensures Apart(names, colour, f.g.def[n], f.ins[n], f.outs[n])
  {
    assert forall x, y :: x in f.ins[n] && y in f.ins[n] && x != y ==> NodeInterferes(f, n, x, y);
    assert forall y :: y in f.outs[n] && f.g.def[n].Some? && y != f.g.def[n].value ==>
      NodeInterferes(f, n, y, f.g.def[n].value);
  }

  /** A successful allocation preserves meaning: started with agreeing live-in registers, each function
      and its rewritten form run in lockstep for any number of steps. The liveness pass has to be
      complete for the function and the END has to stay reachable from every node that reaches it. */
  lemma AllocationPreservesMeaning(funcs: seq<seq<Node>>, r: Result, nregs: nat, f: nat, ctx: Context,
                                   s: State, t: State, k: nat)
    requires r.Done? && Allocated(funcs, r, nregs) && f < |funcs|
    requires PassComplete(funcs[f]) && EndStaysReachable(funcs[f])
    requires forall n :: 0 <= n < |funcs[f]| ==> Lowered(funcs[f][n].instr)
    requires s.pos < |funcs[f]| && s.pos in ReachingEnd(funcs[f])
    requires Agree(r.names, r.colour, r.live[f].ins[s.pos], s, t)
    ensures Lockstep(r.names, r.colour, r.live[f].ins, Run(ctx, funcs[f], s, k), Run(ctx, r.code[f], t, k))
  {
    var l := r.live[f];
    assert Analysed(funcs[f], l);
    forall n: nat | n < |funcs[f]| && n in Within(l)
      ensures NodeReady(r.names, r.colour, funcs[f], l.g, l.ins, l.outs, n)
    {
      NodeNamed(funcs, r, nregs, f, n);
      NodeIsClosed(l, n);
      NodeApart(funcs, r, nregs, f, n);
    }
    RunAgrees(ctx, r.names, r.colour, funcs[f], l.g, l.ins, l.outs, Within(l), s, t, k);
  }

  /** Whatever the hard registers hold at the start, some symbolic start agrees with it. */
  lemma StartExists(names: seq<Name>, colour: seq<nat>, live: seq<Name>, t: State) returns (s: State)
    requires forall v :: v in live ==> v in names
    ensures Agree(names, colour, live, s, t) && s.pos == t.pos
  {
    s := t.(env := map v | v in names :: Get(t.env, Home(names, colour, v)));
  }
}
