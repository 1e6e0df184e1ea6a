/** The allocator's working tables and the loops over them: regalloc.c's build_adj_lists,
    adjust_neighbours, ig_prune, min_colour and assign_regs. */
module PruneAssign {
  import opened Sequences
  import opened Colouring

  // ----- Sorting: the library's qsort, by its contract -----

  ghost predicate Ascending(s: seq<nat>) {
    forall i, j :: 0 <= i < j < |s| ==> s[i] <= s[j]
  }

  function Insert(x: nat, s: seq<nat>): (r: seq<nat>)
    ensures multiset(r) == multiset(s) + multiset{x}
  {
    if s == [] then [x]
    else if x <= s[0] then [x] + s
    else
      assert s == [s[0]] + s[1..];
      [s[0]] + Insert(x, s[1..])
  }

  lemma {:induction false} InsertAscending(x: nat, s: seq<nat>)
    requires Ascending(s)
    ensures Ascending(Insert(x, s))
  {
    if s != [] && x > s[0] {
      InsertAscending(x, s[1..]);
      InsertKeeps(x, s[1..], s[0]);
    }
  }

  /** What is below `x` and all of `s` is below all of the result. */
  lemma InsertKeeps(x: nat, s: seq<nat>, least: nat)
    requires least <= x && forall k :: 0 <= k < |s| ==> least <= s[k]
    ensures forall k :: 0 <= k < |Insert(x, s)| ==> least <= Insert(x, s)[k]
  {
    var t := Insert(x, s);
    hide Insert;
    forall k | 0 <= k < |t|
      ensures least <= t[k]
    {
      assert t[k] in multiset(t);
      assert t[k] in multiset(s) || t[k] == x;
    }
  }

  function QSort(s: seq<nat>): (r: seq<nat>)
    ensures Ascending(r) && multiset(r) == multiset(s)
  {
    if s == [] then []
    else
      assert s == [s[0]] + s[1..];
      InsertAscending(s[0], QSort(s[1..]));
      Insert(s[0], QSort(s[1..]))
  }

  lemma SameElements(s: seq<nat>, r: seq<nat>)
    requires multiset(s) == multiset(r)
    ensures |s| == |r| && Elements(s) == Elements(r)
    ensures Distinct(s) ==> Distinct(r)
  {
    assert |multiset(s)| == |s| && |multiset(r)| == |r|;
    forall x | x in Elements(s) || x in Elements(r)
      ensures x in Elements(s) && x in Elements(r)
    {
      assert x in multiset(s) && x in multiset(r);
    }
    if Distinct(s) {
      forall i, j | 0 <= i < j < |r|
        ensures r[i] != r[j]
      {
        if r[i] == r[j] {
          TwiceIn(r, i, j);
          assert multiset(s)[r[i]] >= 2;
          OnceIn(s, r[i]);
        }
      }
    }
  }

  lemma TwiceIn(s: seq<nat>, i: nat, j: nat)
    requires i < j < |s| && s[i] == s[j]
    ensures multiset(s)[s[i]] >= 2
  {
    assert s == s[..j] + [s[j]] + s[j + 1..];
    assert s[..j][i] == s[i];
    assert s[i] in s[..j];
  }

  lemma OnceIn(s: seq<nat>, x: nat)
    requires Distinct(s)
    ensures multiset(s)[x] <= 1
  {
    if s != [] {
      var p, y := s[..|s| - 1], s[|s| - 1];
      assert s == p + [y];
      OnceIn(p, x);
      assert y !in p;
    }
  }

  // ----- The tables -----

  /** How one allocation pass ends. `Aborted` is the compiler error for "no spillable node". */
  datatype Outcome = Aborted | Spilled | Coloured

  class AdjLists {
    const graph: Graph
    const nregs: nat
    const adjNode: array2<bool>
    const remNode: array2<bool>
    const numAdjs: array<int>
    const onStack: array<bool>
    const colour: array<nat>
    const spill: array<bool>
    const spillCost: array<int>
    const stack: array<nat>
    var sp: nat
    /** For each stack entry, whether the degree < R rule pushed it. */
    ghost var low: seq<bool>

    /** Builds the rows of every node from the interference graph; nothing is stacked or coloured. */
    constructor (graph: Graph, nregs: nat, cost: seq<int>)
      requires graph.Valid() && |cost| == graph.n
      ensures Valid() && this.graph == graph && this.nregs == nregs
      ensures spillCost[..] == cost
      ensures sp == 0 && low == [] && PrunedSoFar() && Splits({})
      ensures forall a: nat :: a < graph.n ==> colour[a] == 0
      ensures fresh(stack) && fresh(onStack) && fresh(adjNode) && fresh(remNode)
      ensures fresh(numAdjs) && fresh(colour) && fresh(spill) && fresh(spillCost)
    {
      var n := graph.n;
      this.graph, this.nregs := graph, nregs;
      adjNode := new bool[n, n]((_, _) => false);
      remNode := new bool[n, n]((_, _) => false);
      numAdjs := new int[n](_ => 0);
      onStack := new bool[n](_ => false);
      colour := new nat[n](_ => 0);
      spill := new bool[n](_ => false);
      spillCost := new int[n](i requires 0 <= i < |cost| => cost[i]);
      stack := new nat[n](_ => 0);
      sp, low := 0, [];
      new;
      BuildRows();
      assert Order() == [];
    }

    method BuildRows()
      requires Shape()
      requires forall a: nat, b: nat :: a < graph.n && b < graph.n ==> !adjNode[a, b] && !remNode[a, b]
      requires forall a: nat :: a < graph.n ==> numAdjs[a] == 0
      modifies adjNode, numAdjs
      ensures Splits({})
    {
      assert forall a: nat :: a < graph.n ==> Row(a) == {};
      var i := 0;
      while i < graph.n
        invariant 0 <= i <= graph.n
        invariant forall a: nat, b: nat :: a < graph.n && b < graph.n ==>
          adjNode[a, b] == (a < i && graph.Linked(a, b))
        invariant forall a: nat :: a < graph.n ==> numAdjs[a] == |Row(a)|
      {
        BuildRow(i);
        i := i + 1;
      }
    }

    /** Fills row `i` from the links matrix and counts it. */
    method BuildRow(i: nat)
      requires Shape() && i < graph.n
      requires forall a: nat, b: nat :: a < graph.n && b < graph.n ==> adjNode[a, b] == (a < i && graph.Linked(a, b))
      requires forall a: nat :: a < graph.n ==> numAdjs[a] == |Row(a)|
      modifies adjNode, numAdjs
      ensures forall a: nat, b: nat :: a < graph.n && b < graph.n ==> adjNode[a, b] == (a <= i && graph.Linked(a, b))
      ensures forall a: nat :: a < graph.n ==> numAdjs[a] == |Row(a)|
    {
      var j := 0;
      while j < graph.n
        invariant 0 <= j <= graph.n
        invariant forall a: nat, b: nat :: a < graph.n && b < graph.n ==>
          adjNode[a, b] == ((a < i || (a == i && b < j)) && graph.Linked(a, b))
        invariant forall a: nat :: a < graph.n ==> numAdjs[a] == |Row(a)|
      {
        if graph.Linked(i, j) {
          AddAdjacent(i, j);
        }
        j := j + 1;
      }
    }

    method AddAdjacent(a: nat, b: nat)
      requires Shape() && a < graph.n && b < graph.n && !adjNode[a, b]
      requires forall x: nat :: x < graph.n ==> numAdjs[x] == |Row(x)|
      modifies adjNode, numAdjs
      ensures forall x: nat, y: nat :: x < graph.n && y < graph.n ==>
        adjNode[x, y] == (old(adjNode[x, y]) || (x == a && y == b))
      ensures forall x: nat :: x < graph.n ==> numAdjs[x] == |Row(x)|
    {
      adjNode[a, b] := true;
      numAdjs[a] := numAdjs[a] + 1;
      assert Row(a) == old(Row(a)) + {b};
      assert forall x: nat :: x < graph.n && x != a ==> Row(x) == old(Row(x));
    }

    ghost predicate Shape() {
      var n := graph.n;
      && graph.Valid()
      && adjNode.Length0 == n && adjNode.Length1 == n
      && remNode.Length0 == n && remNode.Length1 == n
      && numAdjs.Length == n && onStack.Length == n && colour.Length == n
      && spill.Length == n && spillCost.Length == n && stack.Length == n
      && adjNode != remNode && onStack != spill && colour != stack
      && numAdjs != spillCost && numAdjs as object != colour && numAdjs as object != stack
      && spillCost as object != colour && spillCost as object != stack
    }

    ghost function Order(): seq<nat>
      reads this, stack
      requires sp <= stack.Length
    {
      stack[..sp]
    }

    /** The rows and degrees describe the graph with the nodes of `removed` split off. */
    ghost predicate Splits(removed: set<nat>)
      requires Shape()
      reads adjNode, remNode, numAdjs
    {
      && (forall a: nat, b: nat :: a < graph.n && b < graph.n ==>
            adjNode[a, b] == (graph.Linked(a, b) && a !in removed && b !in removed))
      && (forall a: nat, b: nat :: a < graph.n && b < graph.n ==>
            remNode[a, b] == (graph.Linked(a, b) && (a in removed || b in removed)))
      && (forall a: nat :: a < graph.n ==> numAdjs[a] == |Row(a)|)
    }

    /** The neighbours row `a` lists. */
    ghost function Row(a: nat): set<nat>
      requires Shape() && a < graph.n
      reads adjNode
    {
      set b: nat | b < graph.n && adjNode[a, b]
    }

    /** The stack holds exactly the marked nodes, each once. */
    ghost predicate StackMarks()
      requires Shape()
      reads this, stack, onStack
    {
      && sp <= graph.n
      && Distinct(Order())
      && (forall k :: 0 <= k < sp ==> stack[k] < graph.n)
      && (forall a: nat :: a < graph.n ==> (onStack[a] <==> a in Order()))
    }

    ghost predicate Valid()
      reads this, stack, onStack, adjNode, remNode, numAdjs
    {
      && Shape() && StackMarks() && Splits(Elements(Order()))
    }

    /** Moves the neighbours of `node` to the removed rows and disconnects it from them. */
    method AdjustNeighbours(node: nat, ghost removed: set<nat>)
      requires Shape() && node < graph.n && node !in removed
      requires Splits(removed)
      modifies adjNode, remNode, numAdjs
      ensures Splits(removed + {node})
    {
      var i := 0;
      while i < graph.n
        invariant 0 <= i <= graph.n
        invariant forall a: nat, b: nat :: a < graph.n && b < graph.n ==>
          adjNode[a, b] == (old(adjNode[a, b]) && !(a == node && b < i) && !(b == node && a < i))
        invariant forall a: nat, b: nat :: a < graph.n && b < graph.n ==>
          remNode[a, b] ==
            (old(remNode[a, b]) || (old(adjNode[a, b]) && ((a == node && b < i) || (b == node && a < i))))
        invariant forall a: nat :: a < graph.n ==> numAdjs[a] == |Row(a)|
      {
        if adjNode[node, i] {
          Cut(node, i);
        }
        if adjNode[i, node] {
          Cut(i, node);
        }
        i := i + 1;
      }
    }

    /** Moves one entry from the adjacent row of `a` to its removed row. */
    method Cut(a: nat, b: nat)
      requires Shape() && a < graph.n && b < graph.n && adjNode[a, b]
      requires forall x: nat :: x < graph.n ==> numAdjs[x] == |Row(x)|
      modifies adjNode, remNode, numAdjs
      ensures forall x: nat, y: nat :: x < graph.n && y < graph.n ==>
        adjNode[x, y] == (old(adjNode[x, y]) && !(x == a && y == b))
      ensures forall x: nat, y: nat :: x < graph.n && y < graph.n ==>
        remNode[x, y] == (old(remNode[x, y]) || (x == a && y == b))
      ensures forall x: nat :: x < graph.n ==> numAdjs[x] == |Row(x)|
    {
      adjNode[a, b] := false;
      remNode[a, b] := true;
      numAdjs[a] := numAdjs[a] - 1;
      assert Row(a) == old(Row(a)) - {b};
      assert forall x: nat :: x < graph.n && x != a ==> Row(x) == old(Row(x));
    }

    ghost predicate PrunedSoFar()
      requires Valid()
      reads this, stack, onStack, adjNode, remNode, numAdjs, spillCost
    {
      Pruned(graph, nregs, spillCost[..], Order(), low)
    }

    lemma DegreeIsRemaining(a: nat)
      requires Valid() && a < graph.n && !onStack[a]
      ensures numAdjs[a] == |graph.Remaining(a, Elements(Order()))|
    {
      assert a !in Elements(Order());
      assert Row(a) == graph.Remaining(a, Elements(Order()));
    }

    /** A node is on the stack, or its count is the number of its remaining neighbours. */
    lemma StackedOrCounted(a: nat)
      requires Valid() && a < graph.n && nregs >= 1 && NoneBelow(graph, nregs, Elements(Order()))
      ensures onStack[a] <==> a in Elements(Order())
      ensures !onStack[a] ==> numAdjs[a] == |graph.Remaining(a, Elements(Order()))| > 0
    {
      if !onStack[a] {
        DegreeIsRemaining(a);
      }
    }

    lemma RoomOnStack(a: nat)
      requires Valid() && a < graph.n && !onStack[a]
      ensures sp < graph.n
    {
      DistinctSize(Order());
      SubsetSize(Elements(Order()) + {a}, Range(graph.n));
    }

    lemma FullStack()
      requires Valid() && sp == graph.n
      ensures IsOrder(graph, Order())
    {
      DistinctSize(Order());
      SubsetSize(Elements(Order()), Range(graph.n));
      forall a: nat | a < graph.n
        ensures a in Order()
      {
        assert a in Range(graph.n);
        assert a in Elements(Order());
      }
    }

    /** Marks `node`, stacks it and disconnects it. */
    method Push(node: nat, ghost isLow: bool)
      requires Valid() && PrunedSoFar() && node < graph.n && !onStack[node]
      requires isLow ==> numAdjs[node] < nregs
      requires !isLow ==> NoneBelow(graph, nregs, Elements(Order()))
      requires !isLow ==> IsCandidate(graph, spillCost[..], Elements(Order()), node)
      modifies this, stack, onStack, adjNode, remNode, numAdjs
      ensures Valid() && PrunedSoFar()
      ensures Order() == old(Order()) + [node] && low == old(low) + [isLow]
      ensures sp == old(sp) + 1
    {
      RoomOnStack(node);
      DegreeIsRemaining(node);
      ghost var below := Order();
      onStack[node] := true;
      stack[sp] := node;
      sp := sp + 1;
      low := low + [isLow];
      assert Order() == below + [node];
      ElementsPush(below, node);
      AdjustNeighbours(node, Elements(below));
      assert Order() == below + [node];
      PrunedExtends(graph, nregs, spillCost[..], below, old(low), node, isLow);
    }

    /** Takes node `i` instead of the best one so far when it is off the stack and cheaper per neighbour. */
    method TakeCheaper(i: nat, spillNode: int, bestRatio: int) returns (node: int, ratio: int)
      requires Valid() && nregs >= 1 && i < graph.n && NoneBelow(graph, nregs, Elements(Order()))
      requires BestSoFar(graph, spillCost[..], Elements(Order()), spillNode, bestRatio, i)
      ensures BestSoFar(graph, spillCost[..], Elements(Order()), node, ratio, i + 1)
    {
      hide Covers, Quotient, BestSoFar, NoneBelow;
      node, ratio := spillNode, bestRatio;
      BestStep(graph, spillCost[..], Elements(Order()), spillNode, bestRatio, i);
      StackedOrCounted(i);
      if !onStack[i] && spillCost[i] > 0 && Quotient(spillCost[i], numAdjs[i]) < bestRatio {
        node, ratio := i, Quotient(spillCost[i], numAdjs[i]);
      }
    }

    /** The node with the lowest spill cost per neighbour, or -1 when none is eligible. */
    method FindCandidate() returns (spillNode: int)
      requires Valid() && nregs >= 1
      requires NoneBelow(graph, nregs, Elements(Order()))
      ensures spillNode == -1 <==> NoCandidate(graph, spillCost[..], Elements(Order()))
      ensures spillNode != -1 ==> 0 <= spillNode && IsCandidate(graph, spillCost[..], Elements(Order()), spillNode)
    {
      hide BestSoFar, NoneBelow, NoCandidate, IsCandidate;
      var bestRatio := 100;
      spillNode := -1;
      NothingSeen(graph, spillCost[..], Elements(Order()));
      var i := 0;
      while i < graph.n
        invariant 0 <= i <= graph.n
        invariant BestSoFar(graph, spillCost[..], Elements(Order()), spillNode, bestRatio, i)
      {
        spillNode, bestRatio := TakeCheaper(i, spillNode, bestRatio);
        i := i + 1;
      }
      BestIsCandidate(graph, spillCost[..], Elements(Order()), spillNode, bestRatio);
    }

    lemma SweepStep(i: nat)
      requires Valid() && i < graph.n
      ensures Swept(graph, nregs, Order(), i) ==
        Swept(graph, nregs, if !onStack[i] && numAdjs[i] < nregs then Order() + [i] else Order(), i + 1)
    {
      assert onStack[i] <==> i in Order();
      if !onStack[i] {
        DegreeIsRemaining(i);
      }
    }

    /** Pushes node `i` when its degree is below `nregs`. */
    method SweepNode(i: nat) returns (pushed: bool)
      requires Valid() && PrunedSoFar() && i < graph.n
      modifies this, stack, onStack, adjNode, remNode, numAdjs
      ensures Valid() && PrunedSoFar() && spillCost[..] == old(spillCost[..])
      ensures pushed <==> !old(onStack[i]) && old(numAdjs[i]) < nregs
      ensures Order() == if pushed then old(Order()) + [i] else old(Order())
      ensures sp == (if pushed then old(sp) + 1 else old(sp)) && sp <= graph.n
      ensures !pushed ==> forall a: nat :: a < graph.n ==>
        numAdjs[a] == old(numAdjs[a]) && onStack[a] == old(onStack[a])
      ensures Swept(graph, nregs, old(Order()), i) == Swept(graph, nregs, Order(), i + 1)
    {
      hide Swept, PrunedSoFar;
      SweepStep(i);
      assert sp <= graph.n by { DistinctSize(Order()); SubsetSize(Elements(Order()), Range(graph.n)); }
      pushed := !onStack[i] && numAdjs[i] < nregs;
      if pushed {
        RoomOnStack(i);
        Push(i, true);
      }
    }

    /** Every node off the stack among the first `i` has `nregs` neighbours or more. */
    ghost predicate NoneBelowYet(i: nat)
      requires Shape() && i <= graph.n
      reads onStack, numAdjs
    {
      forall a: nat :: a < i && !onStack[a] ==> numAdjs[a] >= nregs
    }

    lemma NoneBelowAll()
      requires Valid() && NoneBelowYet(graph.n)
      ensures NoneBelow(graph, nregs, Elements(Order()))
    {
      forall a: nat | a < graph.n && a !in Elements(Order())
        ensures |graph.Remaining(a, Elements(Order()))| >= nregs
      {
        DegreeIsRemaining(a);
      }
    }

    /** One scan over the nodes, pushing each one whose degree is below `nregs`. */
    method Sweep(left: nat) returns (finished: bool, nodesLeft: nat)
      requires Valid() && PrunedSoFar() && left == graph.n - sp
      modifies this, stack, onStack, adjNode, remNode, numAdjs
      ensures Valid() && PrunedSoFar() && nodesLeft == graph.n - sp && nodesLeft <= left
      ensures Order() == Swept(graph, nregs, old(Order()), 0) && spillCost[..] == old(spillCost[..])
      ensures !finished ==> nodesLeft < left
      ensures finished ==> Order() == old(Order()) && NoneBelow(graph, nregs, Elements(Order()))
    {
      finished, nodesLeft := true, left;
      var i := 0;
      hide Splits, StackMarks, PrunedSoFar, NoneBelow;
      while i < graph.n
        invariant 0 <= i <= graph.n
        invariant Valid() && PrunedSoFar() && nodesLeft == graph.n - sp && nodesLeft <= left
        invariant Swept(graph, nregs, old(Order()), 0) == Swept(graph, nregs, Order(), i)
        invariant spillCost[..] == old(spillCost[..])
        invariant if finished then Order() == old(Order()) else nodesLeft < left
        invariant finished ==> NoneBelowYet(i)
      {
        var pushed := SweepNode(i);
        if pushed {
          finished := false;
          nodesLeft := nodesLeft - 1;
        }
        i := i + 1;
      }
      if finished {
        NoneBelowAll();
      }
    }

    /** Scans until one pushes nothing. */
    method SweepAll(left: nat) returns (nodesLeft: nat)
      requires Valid() && PrunedSoFar() && left == graph.n - sp
      modifies this, stack, onStack, adjNode, remNode, numAdjs
      ensures Valid() && PrunedSoFar() && nodesLeft == graph.n - sp && nodesLeft <= left
      ensures spillCost[..] == old(spillCost[..])
      ensures StackFrom(graph, nregs, spillCost[..], Order()) == StackFrom(graph, nregs, spillCost[..], old(Order()))
      ensures Swept(graph, nregs, Order(), 0) == Order() && NoneBelow(graph, nregs, Elements(Order()))
    {
      hide Splits, StackMarks, PrunedSoFar, NoneBelow, Swept, StackFrom;
      nodesLeft := left;
      var finished := false;
      while !finished
        invariant Valid() && PrunedSoFar() && nodesLeft == graph.n - sp && nodesLeft <= left
        invariant spillCost[..] == old(spillCost[..])
        invariant
          StackFrom(graph, nregs, spillCost[..], Order()) == StackFrom(graph, nregs, spillCost[..], old(Order()))
        invariant finished ==> NoneBelow(graph, nregs, Elements(Order())) && Swept(graph, nregs, Order(), 0) == Order()
        decreases nodesLeft, !finished
      {
        ghost var before := Order();
        finished, nodesLeft := Sweep(nodesLeft);
        StackThroughSweep(graph, nregs, spillCost[..], before);
      }
    }

    /** Prunes the whole graph onto the stack; `false` is the fatal "no spillable node" exit. */
    method Prune() returns (ok: bool)
      requires Valid() && PrunedSoFar() && sp == 0 && nregs >= 1
      modifies this, stack, onStack, adjNode, remNode, numAdjs
      ensures Valid() && PrunedSoFar() && spillCost[..] == old(spillCost[..])
      ensures Order() == StackFrom(graph, nregs, spillCost[..], [])
      ensures ok ==> IsOrder(graph, Order())
      ensures !ok ==> NoneBelow(graph, nregs, Elements(Order())) && sp < graph.n
      ensures !ok ==> NoCandidate(graph, spillCost[..], Elements(Order()))
    {
      hide Splits, StackMarks, PrunedSoFar, NoneBelow, NoCandidate, Swept, StackFrom, IsCandidate;
      assert Order() == [];
      var nodesLeft := graph.n;
      while nodesLeft > 0
        invariant Valid() && PrunedSoFar() && nodesLeft == graph.n - sp
        invariant spillCost[..] == old(spillCost[..])
        invariant StackFrom(graph, nregs, spillCost[..], Order()) == StackFrom(graph, nregs, spillCost[..], [])
        decreases nodesLeft
      {
        nodesLeft := SweepAll(nodesLeft);
        if nodesLeft != 0 {
          var spillNode := FindCandidate();
          if spillNode == -1 {
            StackWithoutCandidate(graph, nregs, spillCost[..], Order());
            return false;
          }
          StackThroughCandidate(graph, nregs, spillCost[..], Order(), spillNode);
          CandidateIsOff(spillNode);
          Push(spillNode, false);
          nodesLeft := nodesLeft - 1;
        }
      }
      FullStack();
      StackIsFull(graph, nregs, spillCost[..], Order());
      return true;
    }

    lemma CandidateIsOff(c: nat)
      requires Valid() && IsCandidate(graph, spillCost[..], Elements(Order()), c)
      ensures c < graph.n && !onStack[c]
    {
    }

    /** The colours on the nodes row `node` lists. */
    ghost function ColoursNear(node: nat, bound: nat): set<nat>
      requires Shape() && node < graph.n && bound <= graph.n
      reads adjNode, colour
    {
      set b: nat | b < bound && adjNode[node, b] && colour[b] != 0 :: colour[b]
    }

    /** Lists each colour on the neighbours of `node` once. */
    method CollectColours(node: nat) returns (usedColours: array<nat>, numUsed: nat)
      requires Shape() && node < graph.n
      requires forall a: nat :: a < graph.n ==> colour[a] <= nregs
      ensures fresh(usedColours) && numUsed <= usedColours.Length == nregs
      ensures Distinct(usedColours[..numUsed])
      ensures Elements(usedColours[..numUsed]) == ColoursNear(node, graph.n)
    {
      usedColours := new nat[nregs];
      numUsed := 0;
      var i := 0;
      while i < graph.n
        invariant 0 <= i <= graph.n && numUsed <= i && numUsed <= nregs
        invariant Distinct(usedColours[..numUsed])
        invariant Elements(usedColours[..numUsed]) == ColoursNear(node, i)
      {
        if adjNode[node, i] && colour[i] != 0 {
          ghost var used := usedColours[..numUsed];
          var duplicate := false;
          var j := 0;
          while j < i && j < numUsed
            invariant 0 <= j <= numUsed
            invariant duplicate <==> colour[i] in usedColours[..j]
          {
            if usedColours[j] == colour[i] {
              duplicate := true;
            }
            j := j + 1;
          }
          assert usedColours[..j] == used;
          assert ColoursNear(node, i + 1) == ColoursNear(node, i) + {colour[i]};
          if !duplicate {
            RoomForColour(used, colour[i], nregs);
            usedColours[numUsed] := colour[i];
            numUsed := numUsed + 1;
            assert usedColours[..numUsed] == used + [colour[i]];
            ElementsPush(used, colour[i]);
          }
        } else {
          assert ColoursNear(node, i + 1) == ColoursNear(node, i);
        }
        i := i + 1;
      }
    }

    /** The lowest colour no coloured neighbour of `node` has, 0 when all `nregs` are taken. */
    method MinColour(node: nat) returns (c: nat)
      requires Shape() && node < graph.n && nregs >= 1
      requires forall a: nat :: a < graph.n ==> colour[a] <= nregs
      ensures LeastFree(c, nregs, ColoursNear(node, graph.n))
    {
      hide QSort, LeastFree;
      var usedColours, numUsed := CollectColours(node);
      var sorted := QSort(usedColours[..numUsed]);
      SameElements(usedColours[..numUsed], sorted);
      var i := 0;
      if numUsed == 0 {
        c := 1;
      } else {
        c := 0;
        while i < numUsed
          invariant 0 <= i <= numUsed
          invariant c == 0
          invariant forall k :: 0 <= k < i ==> sorted[k] == k + 1
        {
          if sorted[i] != i + 1 {
            c := i + 1;
            break;
          }
          i := i + 1;
        }
        if c == 0 && numUsed < nregs {
          c := i + 1;
        }
      }
      FirstGap(sorted, nregs, i, c);
    }

    /** Moves one entry back from the removed row of `a` to its adjacent row. */
    method Reconnect(a: nat, b: nat)
      requires Shape() && a < graph.n && b < graph.n && remNode[a, b] && !adjNode[a, b]
      requires forall x: nat :: x < graph.n ==> numAdjs[x] == |Row(x)|
      modifies adjNode, remNode, numAdjs
      ensures forall x: nat, y: nat :: x < graph.n && y < graph.n ==>
        adjNode[x, y] == (old(adjNode[x, y]) || (x == a && y == b))
      ensures forall x: nat, y: nat :: x < graph.n && y < graph.n ==>
        remNode[x, y] == (old(remNode[x, y]) && !(x == a && y == b))
      ensures forall x: nat :: x < graph.n ==> numAdjs[x] == |Row(x)|
    {
      adjNode[a, b] := true;
      remNode[a, b] := false;
      numAdjs[a] := numAdjs[a] + 1;
      assert Row(a) == old(Row(a)) + {b};
      assert forall x: nat :: x < graph.n && x != a ==> Row(x) == old(Row(x));
    }

    /** Links `node`, just popped, to its neighbours off the stack. */
    method Reattach(node: nat, ghost below: set<nat>)
      requires Shape() && node < graph.n && node !in below
      requires forall a: nat :: a < graph.n ==> (onStack[a] <==> a in below)
      requires Splits(below + {node})
      modifies adjNode, remNode, numAdjs
      ensures Splits(below)
    {
      var i := 0;
      while i < graph.n
        invariant 0 <= i <= graph.n
        invariant forall a: nat, b: nat :: a < graph.n && b < graph.n ==>
          adjNode[a, b] == (old(adjNode[a, b]) ||
            (old(remNode[a, b]) && ((a == node && b < i && b !in below) || (b == node && a < i && a !in below))))
        invariant forall a: nat, b: nat :: a < graph.n && b < graph.n ==>
          remNode[a, b] == (old(remNode[a, b]) &&
            !((a == node && b < i && b !in below) || (b == node && a < i && a !in below)))
        invariant forall a: nat :: a < graph.n ==> numAdjs[a] == |Row(a)|
      {
        if remNode[node, i] && !onStack[i] {
          Reconnect(node, i);
        }
        if remNode[i, node] && !onStack[i] {
          Reconnect(i, node);
        }
        i := i + 1;
      }
    }

    /** Takes the top node off the stack. */
    method Pop() returns (node: nat)
      requires Valid() && sp > 0
      modifies this`sp, onStack, adjNode, remNode, numAdjs
      ensures Valid() && sp == old(sp) - 1
      ensures node == old(stack[sp - 1]) && node < graph.n
    {
      ghost var order := Order();
      sp := sp - 1;
      node := stack[sp];
      assert order == Order() + [node];
      ElementsPush(Order(), node);
      onStack[node] := false;
      Reattach(node, Elements(Order()));
    }

    ghost predicate Assigned(order: seq<nat>)
      requires Shape() && IsOrder(graph, order) && sp <= |order|
      reads this, colour, spill
    {
      && (forall a: nat :: a < graph.n ==> colour[a] <= nregs)
      && (forall k :: 0 <= k < sp ==> colour[order[k]] == 0)
      && Greedy(graph, nregs, order, colour[..], sp)
      && (forall k :: sp <= k < |order| ==> (spill[order[k]] <==> colour[order[k]] == 0))
    }

    /** Gives the node just popped its colour, or marks it for spilling. */
    method ColourNode(node: nat, ghost order: seq<nat>) returns (coloured: bool)
      requires Valid() && IsOrder(graph, order) && nregs >= 1
      requires sp < |order| && Order() == order[..sp] && node == order[sp]
      requires forall a: nat :: a < graph.n ==> colour[a] <= nregs
      requires forall k :: 0 <= k <= sp ==> colour[order[k]] == 0
      requires Greedy(graph, nregs, order, colour[..], sp + 1)
      requires forall k :: sp < k < |order| ==> (spill[order[k]] <==> colour[order[k]] == 0)
      modifies colour, spill
      ensures Assigned(order)
      ensures coloured <==> colour[node] != 0
      ensures forall a: nat :: a < graph.n && a != node ==> colour[a] == old(colour[a])
    {
      ghost var before := colour[..];
      var c := MinColour(node);
      OffStackColours(order);
      GreedyStep(graph, nregs, order, before, sp, c);
      coloured := c > 0;
      if c > 0 {
        colour[node] := c;
        spill[node] := false;
      } else {
        spill[node] := true;
      }
      assert colour[..] == before[node := c];
    }

    /** One round of assign_regs. */
    method PopAndColour(ghost order: seq<nat>) returns (coloured: bool)
      requires Valid() && IsOrder(graph, order) && nregs >= 1
      requires 0 < sp <= |order| && Order() == order[..sp] && Assigned(order)
      modifies this`sp, onStack, adjNode, remNode, numAdjs, colour, spill
      ensures Valid() && sp == old(sp) - 1 && Order() == order[..sp] && Assigned(order)
      ensures coloured <==> colour[order[sp]] != 0
      ensures forall a: nat :: a < graph.n && a != order[sp] ==> colour[a] == old(colour[a])
    {
      ghost var k := sp - 1;
      var node := Pop();
      assert order[..k + 1] == order[..k] + [order[k]];
      assert Order() == order[..k];
      coloured := ColourNode(node, order);
    }

    /** With the stack empty, what holds of its entries holds of every node. */
    lemma AllAssigned(order: seq<nat>)
      requires Valid() && IsOrder(graph, order) && sp == 0 && Assigned(order)
      ensures forall a: nat :: a < graph.n ==> (spill[a] <==> colour[a] == 0)
      ensures (forall k :: 0 <= k < |order| ==> colour[order[k]] != 0) ==>
        forall a: nat :: a < graph.n ==> colour[a] != 0
    {
      forall a: nat | a < graph.n
        ensures spill[a] <==> colour[a] == 0
        ensures (forall k :: 0 <= k < |order| ==> colour[order[k]] != 0) ==> colour[a] != 0
      {
        assert a in order;
        var k: nat :| k < |order| && order[k] == a;
      }
    }

    /** Pops every node, colouring those that still have a free colour and marking the rest. */
    method AssignRegs() returns (noSpills: bool)
      requires Valid() && IsOrder(graph, Order()) && nregs >= 1
      requires forall a: nat :: a < graph.n ==> colour[a] == 0
      modifies this`sp, onStack, adjNode, remNode, numAdjs, colour, spill
      ensures Valid() && sp == 0
      ensures Greedy(graph, nregs, old(Order()), colour[..], 0)
      ensures forall a: nat :: a < graph.n ==> (spill[a] <==> colour[a] == 0)
      ensures noSpills <==> forall a: nat :: a < graph.n ==> colour[a] != 0
    {
      ghost var order := Order();
      noSpills := true;
      while sp != 0
        invariant Valid() && sp <= |order| && Order() == order[..sp]
        invariant Assigned(order)
        invariant noSpills <==> forall k :: sp <= k < |order| ==> colour[order[k]] != 0
      {
        var coloured := PopAndColour(order);
        if !coloured {
          noSpills := false;
        }
      }
      AllAssigned(order);
    }

    /** One allocation pass over freshly built tables: prune, then assign. */
    method Allocate() returns (r: Outcome, ghost order: seq<nat>)
      requires Valid() && sp == 0 && PrunedSoFar() && nregs >= 1
      requires forall a: nat :: a < graph.n ==> colour[a] == 0
      modifies this, stack, onStack, adjNode, remNode, numAdjs, colour, spill
      ensures Valid()
      ensures Pruned(graph, nregs, spillCost[..], order, low) && order == StackFrom(graph, nregs, spillCost[..], [])
      ensures r == Aborted ==> |order| < graph.n && NoneBelow(graph, nregs, Elements(order))
      ensures r == Aborted ==> NoCandidate(graph, spillCost[..], Elements(order))
      ensures r != Aborted ==> sp == 0 && Splits({}) && IsOrder(graph, order)
      ensures r != Aborted ==> Greedy(graph, nregs, order, colour[..], 0)
      ensures r != Aborted ==> forall k: nat :: k < |order| && spill[order[k]] ==> !low[k]
      ensures r == Coloured <==> r != Aborted && forall a: nat :: a < graph.n ==> !spill[a]
      ensures r != Aborted ==> forall a: nat :: a < graph.n ==> (spill[a] <==> colour[a] == 0)
      ensures spillCost[..] == old(spillCost[..])
      ensures r == Coloured ==> IsColouring(graph, nregs, colour[..])
      ensures r != Aborted && (forall k :: 0 <= k < |low| ==> low[k]) ==> r == Coloured
      ensures !HasCore(graph, nregs) ==> r == Coloured
    {
      var ok := Prune();
      order := Order();
      if !HasCore(graph, nregs) {
        NoCoreNoCandidates(graph, nregs, spillCost[..], order, low);
      }
      if !ok {
        StoppingLeavesCore(graph, nregs, order);
        return Aborted, order;
      }
      ghost var cost := spillCost[..];
      var noSpills := AssignRegs();
      assert spillCost[..] == cost;
      assert Elements(Order()) == {};
      OnlyCandidatesSpill(graph, nregs, cost, order, low, colour[..]);
      GreedyGivesColouring(graph, nregs, order, colour[..]);
      r := if noSpills then Coloured else Spilled;
    }

    lemma OffStackColours(order: seq<nat>)
      requires Valid() && IsOrder(graph, order) && sp < |order| && Order() == order[..sp]
      ensures ColoursNear(order[sp], graph.n)
           == UsedColours(graph, order[sp], Elements(order[sp + 1..]), colour[..])
    {
      var node := order[sp];
      forall b: nat | b < graph.n
        ensures adjNode[node, b] <==> graph.Linked(node, b) && b in order[sp + 1..]
      {
        assert b in order;
        assert order == order[..sp] + [node] + order[sp + 1..];
        if b in order[sp + 1..] {
          var j :| 0 <= j < |order[sp + 1..]| && order[sp + 1..][j] == b;
          assert order[sp + 1 + j] == b;
        }
        assert node !in order[..sp];
      }
    }
  }

  /** Builds the tables of an interference graph and makes one pass over them. */
  method Attempt(graph: Graph, nregs: nat, cost: seq<int>)
    returns (r: Outcome, colour: seq<nat>, ghost order: seq<nat>, ghost low: seq<bool>)
    requires graph.Valid() && |cost| == graph.n && nregs >= 1
    ensures |colour| == graph.n && Pruned(graph, nregs, cost, order, low)
    ensures order == StackFrom(graph, nregs, cost, [])
    ensures r == Aborted ==>
      |order| < graph.n && NoneBelow(graph, nregs, Elements(order)) && NoCandidate(graph, cost, Elements(order))
    ensures r != Aborted ==> IsOrder(graph, order) && Greedy(graph, nregs, order, colour, 0)
    ensures r == Spilled ==> 0 in colour
    ensures r == Coloured ==> IsColouring(graph, nregs, colour)
    ensures !HasCore(graph, nregs) ==> r == Coloured
  {
    hide Pruned, NoneBelow, NoCandidate, IsOrder, Greedy, IsColouring, HasCore;
    var tables := new AdjLists(graph, nregs, cost);
    r, order := tables.Allocate();
    colour, low := tables.colour[..], tables.low;
    assert forall a: nat :: a < graph.n ==> colour[a] == tables.colour[a];
  }

  /** `c` is what the scan for the first gap gives when it stops at `i`. */
  lemma FirstGap(sorted: seq<nat>, nregs: nat, i: nat, c: nat)
    requires Ascending(sorted) && Distinct(sorted) && |sorted| <= nregs && 1 <= nregs
    requires forall x :: x in Elements(sorted) ==> 1 <= x <= nregs
    requires i <= |sorted| && forall k :: 0 <= k < i ==> sorted[k] == k + 1
    requires i < |sorted| ==> sorted[i] != i + 1 && c == i + 1
    requires i == |sorted| ==> c == if |sorted| < nregs then |sorted| + 1 else 0
    ensures LeastFree(c, nregs, Elements(sorted))
  {
    forall d: nat | 1 <= d <= i
      ensures d in Elements(sorted)
    {
      assert sorted[d - 1] == d;
    }
    if i < |sorted| {
      assert sorted[i] in Elements(sorted);
      assert i > 0 ==> sorted[i - 1] == i;
    }
  }

  lemma RoomForColour(used: seq<nat>, c: nat, nregs: nat)
    requires Distinct(used) && c !in used && 1 <= c <= nregs
    requires forall x :: x in Elements(used) ==> 1 <= x <= nregs
    ensures |used| < nregs
  {
    DistinctSize(used);
    SubsetSize(Elements(used) + {c}, Range(nregs + 1) - {0});
  }

  lemma GreedyStep(g: Graph, nregs: nat, order: seq<nat>, colour: seq<nat>, k: nat, c: nat)
    requires g.Valid() && |colour| == g.n && IsOrder(g, order) && k < |order|
    requires Greedy(g, nregs, order, colour, k + 1)
    requires LeastFree(c, nregs, UsedColours(g, order[k], Elements(order[k + 1..]), colour))
    ensures Greedy(g, nregs, order, colour[order[k] := c], k)
  {
    var after := colour[order[k] := c];
    forall j: nat | k <= j < |order|
      ensures LeastFree(after[order[j]], nregs, UsedColours(g, order[j], Elements(order[j + 1..]), after))
    {
      assert order[k] !in order[j + 1..];
      assert UsedColours(g, order[j], Elements(order[j + 1..]), after)
          == UsedColours(g, order[j], Elements(order[j + 1..]), colour);
    }
  }

  lemma PrunedExtends(g: Graph, nregs: nat, cost: seq<int>, order: seq<nat>, low: seq<bool>, x: nat, isLow: bool)
    requires g.Valid() && |cost| == g.n && Pruned(g, nregs, cost, order, low)
    requires isLow ==> |g.Remaining(x, Elements(order))| < nregs
    requires !isLow ==> NoneBelow(g, nregs, Elements(order)) && IsCandidate(g, cost, Elements(order), x)
    ensures Pruned(g, nregs, cost, order + [x], low + [isLow])
  {
    forall k: nat | k < |order| + 1
      ensures PushedRightly(g, nregs, cost, order + [x], low + [isLow], k)
    {
      assert (order + [x])[..k] == order[..k];
      if k < |order| {
        assert PushedRightly(g, nregs, cost, order, low, k);
      } else {
        assert order[..k] == order;
      }
    }
  }

  /** The quotient that ranks spill candidates. Both operands are positive, so this is C's. */
  function Quotient(cost: int, degree: int): int
    requires degree > 0
  {
    cost / degree
  }

  /** The candidate search after the nodes below `i`. */
  ghost predicate BestSoFar(g: Graph, cost: seq<int>, removed: set<nat>, best: int, ratio: int, i: nat)
    requires g.Valid() && |cost| == g.n && i <= g.n
  {
    && (best == -1 ==> ratio == 100)
    && (best != -1 ==>
          && 0 <= best < i && best !in removed && cost[best] > 0 && 0 <= ratio < 100
          && Covers(cost[best], |g.Remaining(best, removed)|, ratio)
          && !Covers(cost[best], |g.Remaining(best, removed)|, ratio + 1))
    && forall a: nat :: a < i && a !in removed && cost[a] > 0 ==>
         Covers(cost[a], |g.Remaining(a, removed)|, if a < best then ratio + 1 else ratio)
  }

  lemma NothingSeen(g: Graph, cost: seq<int>, removed: set<nat>)
    requires g.Valid() && |cost| == g.n
    ensures BestSoFar(g, cost, removed, -1, 100, 0)
  {
  }

  lemma BestIsCandidate(g: Graph, cost: seq<int>, removed: set<nat>, best: int, ratio: int)
    requires g.Valid() && |cost| == g.n && BestSoFar(g, cost, removed, best, ratio, g.n)
    ensures best == -1 <==> NoCandidate(g, cost, removed)
    ensures best != -1 ==> 0 <= best && IsCandidate(g, cost, removed, best)
  {
    if best != -1 {
      assert CheapestBy(g, cost, removed, best, ratio);
      CandidateOrNone(g, cost, removed, best);
    }
  }

  lemma BestStep(g: Graph, cost: seq<int>, removed: set<nat>, best: int, ratio: int, i: nat)
    requires g.Valid() && |cost| == g.n && i < g.n
    requires BestSoFar(g, cost, removed, best, ratio, i)
    ensures
      var degree := |g.Remaining(i, removed)|;
      if i !in removed && cost[i] > 0 && degree > 0 && Quotient(cost[i], degree) < ratio then
        BestSoFar(g, cost, removed, i, Quotient(cost[i], degree), i + 1)
      else
        BestSoFar(g, cost, removed, best, ratio, i + 1)
  {
    var degree := |g.Remaining(i, removed)|;
    if i !in removed && cost[i] > 0 {
      if degree == 0 {
        assert Covers(cost[i], degree, ratio);
      } else {
        var q := Quotient(cost[i], degree);
        QuotientCovers(cost[i], degree);
        if q < ratio {
          forall a: nat | a < i && a !in removed && cost[a] > 0
            ensures Covers(cost[a], |g.Remaining(a, removed)|, q + 1)
          {
            CoversFewer(cost[a], |g.Remaining(a, removed)|, if a < best then ratio + 1 else ratio, q + 1);
          }
        } else {
          CoversFewer(cost[i], degree, q, ratio);
        }
      }
    }
  }

  lemma QuotientCovers(cost: int, degree: nat)
    requires cost > 0 && degree > 0
    ensures 0 <= Quotient(cost, degree)
    ensures Covers(cost, degree, Quotient(cost, degree)) && !Covers(cost, degree, Quotient(cost, degree) + 1)
  {
    var q := cost / degree;
    assert cost == q * degree + cost % degree;
    assert (q + 1) * degree == q * degree + degree;
  }
}
