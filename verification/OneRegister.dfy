/** What becomes of a program whose liveness passes all stay silent: when no node reads more than one name,
    nothing interferes and every name gets the first register. */
module OneRegister {
  import opened Sequences
  import opened Liveness
  import opened Mir
  import opened MirCfg
  import opened DfsLiveness
  import opened Interference
  import opened Rewrite
  import opened Allocation
  import Colouring

  ghost predicate Silent(nodes: seq<Node>) {
    && |nodes| > 0 && IsGraphOf(GraphOf(nodes), nodes)
    && !FirstPassReports(GraphOf(nodes), Exit(GraphOf(nodes)))
  }

  ghost predicate ReadsOneName(nodes: seq<Node>) {
    forall i: nat, v, w :: i < |nodes| && Reads(nodes[i].instr, v) && Reads(nodes[i].instr, w) ==> v == w
  }

  ghost predicate AllSilent(funcs: seq<seq<Node>>) {
    forall i: nat :: i < |funcs| ==> Silent(funcs[i]) && ReadsOneName(funcs[i])
  }

  lemma NodeIsAlone(nodes: seq<Node>, f: FuncLiveness, l: nat, x: Name, y: Name)
    requires Silent(nodes) && ReadsOneName(nodes) && Analysed(nodes, f) && l < |f.g.succ|
    ensures !NodeInterferes(f, l, x, y)
  {
    assert UsesAlone(f.g, Within(f), f.ins, f.outs);
    hide Analysed, Exact, Sound, PassComplete, FirstPassReports, Within;
    if x in f.ins[l] && y in f.ins[l] {
      assert Reads(nodes[l].instr, x) && Reads(nodes[l].instr, y);
    }
  }

  lemma NothingInterferes(funcs: seq<seq<Node>>, live: seq<FuncLiveness>, x: Name, y: Name)
    requires AllSilent(funcs) && AllAnalysed(funcs, live)
    ensures !Interferes(live, x, y)
  {
    forall i: nat, l: nat | i < |live| && l < |live[i].g.succ|
      ensures !NodeInterferes(live[i], l, x, y)
    {
      assert Analysed(funcs[i], live[i]) && Silent(funcs[i]);
      hide Analysed, Silent, ReadsOneName, NodeInterferes;
      NodeIsAlone(funcs[i], live[i], l, x, y);
    }
  }

  lemma NothingLinked(funcs: seq<seq<Node>>, live: seq<FuncLiveness>, names: seq<Name>, g: Colouring.Graph,
                      i: nat, j: nat)
    requires AllSilent(funcs) && AllAnalysed(funcs, live) && Describes(live, names, g)
    ensures !g.Linked(i, j)
  {
    hide AllSilent, AllAnalysed;
    if i < g.n && j < g.n {
      NothingInterferes(funcs, live, names[i], names[j]);
    }
  }

  /** One register is enough for the allocator. */
  lemma SilentNeverHasCore(funcs: seq<seq<Node>>, nregs: nat)
    requires AllSilent(funcs) && nregs >= 1
    ensures NeverCore(funcs, nregs)
  {
    hide AllSilent, Analysed;
    forall live, names, g | AllAnalysed(funcs, live) && Describes(live, names, g)
      ensures !Colouring.HasCore(g, nregs)
    {
      forall removed: set<nat>, a: nat | a < g.n && a !in removed
        ensures !Colouring.NoneBelow(g, nregs, removed)
      {
        forall b: nat
          ensures !g.Linked(a, b)
        {
          NothingLinked(funcs, live, names, g, a, b);
        }
        assert g.Remaining(a, removed) == {};
      }
    }
  }

  /** The first free colour goes to every name. */
  lemma SameColour(funcs: seq<seq<Node>>, r: Result, nregs: nat)
    requires AllSilent(funcs) && nregs >= 1 && r.Done? && Allocated(funcs, r, nregs)
    ensures |r.colour| == |r.names| && forall i :: 0 <= i < |r.colour| ==> r.colour[i] == 1
  {
    assert ColouredGreedily(r.live, r.names, r.colour, nregs);
    hide AllSilent, Analysed, ColoursProgram, Rewritten;
    var g, order :| Describes(r.live, r.names, g) && |r.colour| == g.n &&
      Colouring.IsOrder(g, order) && Colouring.Greedy(g, nregs, order, r.colour, 0);
    forall i: nat | i < g.n
      ensures r.colour[i] == 1
    {
      forall b: nat
        ensures !g.Linked(i, b)
      {
        NothingLinked(funcs, r.live, r.names, g, i, b);
      }
      FirstColour(g, nregs, order, r.colour, i);
    }
  }

  lemma FirstColour(g: Colouring.Graph, nregs: nat, order: seq<nat>, colour: seq<nat>, i: nat)
    requires g.Valid() && |colour| == g.n && Colouring.IsOrder(g, order) && nregs >= 1 && i < g.n
    requires Colouring.Greedy(g, nregs, order, colour, 0) && forall b: nat :: !g.Linked(i, b)
    ensures colour[i] == 1
  {
    assert i in order;
    var k: nat :| k < |order| && order[k] == i;
    var used := Colouring.UsedColours(g, i, Elements(order[k + 1..]), colour);
    assert used == {};
    assert Colouring.LeastFree(colour[i], nregs, used);
    assert 1 !in used;
  }

  /** A name some instruction mentions is among the names of every allocation. */
  lemma MentionedIsNamed(funcs: seq<seq<Node>>, r: Result, nregs: nat, v: Name)
    requires r.Done? && Allocated(funcs, r, nregs) && Mentioned(funcs, v)
    ensures v in r.names
  {
    OccursIsMentioned(funcs, r.live, v);
  }

  /** Both forms of an operand when every name has the first register. */
  lemma FirstRegister(names: seq<Name>, colour: seq<nat>, v: Name)
    requires v in names && |colour| == |names| && forall i :: 0 <= i < |colour| ==> colour[i] == 1
    ensures Mapped(names, colour, Loc(v, false)) == Temp(0)
  {
    assert SymReg(names, v) < |names|;
  }

  lemma OneFunction(nodes: seq<Node>, r: Result, nregs: nat)
    requires r.Done? && Allocated([nodes], r, nregs)
    ensures |r.code| == |r.live| == 1 && |r.live[0].ins| == |nodes|
    ensures r.code[0] == Rewritten(r.names, r.colour, nodes)
  {
    hide ColouredGreedily, ColoursProgram, Rewritten;
    assert [nodes][0] == nodes;
    assert Analysed([nodes][0], r.live[0]);
  }
}
