/** The graph-colouring core of regalloc.c: pruning the interference graph onto a
    stack, popping it again and giving each node the lowest free colour.

    The adjacency rows, degrees, stack and colours are the buffers the allocator
    updates in place; an `adj_node_t *` is the index of its row. */
module Colouring {
  import opened Sequences

  // ----- Interference graphs -----

  /** `links[a][b]` is the links matrix of an interference graph on `n` registers. */
  datatype Graph = Graph(n: nat, links: seq<seq<bool>>) {
    ghost predicate Valid() {
      && |links| == n
      && (forall a :: 0 <= a < n ==> |links[a]| == n)
      && (forall a, b :: 0 <= a < n && 0 <= b < n ==> links[a][b] == links[b][a])
      && (forall a :: 0 <= a < n ==> !links[a][a])
    }

    predicate Linked(a: nat, b: nat)
      requires |links| == n
      requires forall a :: 0 <= a < n ==> |links[a]| == n
    {
      a < n && b < n && links[a][b]
    }

    /** The neighbours of `a` that are not in `removed`. */
    ghost function Remaining(a: nat, removed: set<nat>): set<nat>
      requires Valid()
    {
      set b: nat | b < n && Linked(a, b) && b !in removed
    }
  }

  // ----- What a finished pruning and a finished colouring are -----

  /** `order` is the stack from bottom to top. */
  ghost predicate IsOrder(g: Graph, order: seq<nat>) {
    && Distinct(order)
    && (forall k :: 0 <= k < |order| ==> order[k] < g.n)
    && (forall a: nat :: a < g.n ==> a in order)
  }

  /** `cost` covers every one of `degree` neighbours `q` times. */
  predicate Covers(cost: int, degree: nat, q: int) {
    q * degree <= cost
  }

  /** `c` is the node to spill: its cost covers its remaining neighbours `q` times, not `q + 1` times and
      not 100 times, and that of every other node off the stack with a cost above 0 covers its own `q` times
      too - `q + 1` times when the node comes before `c`. */
  ghost predicate CheapestBy(g: Graph, cost: seq<int>, removed: set<nat>, c: nat, q: int)
    requires g.Valid() && |cost| == g.n
  {
    && 0 <= q < 100 && c < g.n && c !in removed && cost[c] > 0
    && Covers(cost[c], |g.Remaining(c, removed)|, q) && !Covers(cost[c], |g.Remaining(c, removed)|, q + 1)
    && forall i: nat :: i < g.n && i !in removed && cost[i] > 0 ==>
         Covers(cost[i], |g.Remaining(i, removed)|, if i < c then q + 1 else q)
  }

  ghost predicate IsCandidate(g: Graph, cost: seq<int>, removed: set<nat>, c: nat)
    requires g.Valid() && |cost| == g.n
  {
    exists q :: CheapestBy(g, cost, removed, c, q)
  }

  /** There is nothing to spill: every node off the stack costs nothing or covers its neighbours 100 times. */
  ghost predicate NoCandidate(g: Graph, cost: seq<int>, removed: set<nat>)
    requires g.Valid() && |cost| == g.n
  {
    forall i: nat :: i < g.n && i !in removed && cost[i] > 0 ==> Covers(cost[i], |g.Remaining(i, removed)|, 100)
  }

  lemma CoversFewer(cost: int, degree: nat, q: int, q': int)
    requires q' <= q && Covers(cost, degree, q)
    ensures Covers(cost, degree, q')
  {
    assert q' * degree <= q * degree;
  }

  /** Costs and degrees alone decide: there is a candidate or there is none, and no two. */
  lemma CandidateOrNone(g: Graph, cost: seq<int>, removed: set<nat>, c: nat)
    requires g.Valid() && |cost| == g.n && IsCandidate(g, cost, removed, c)
    ensures !NoCandidate(g, cost, removed)
    ensures forall d: nat :: IsCandidate(g, cost, removed, d) ==> d == c
  {
    var q :| CheapestBy(g, cost, removed, c, q);
    if NoCandidate(g, cost, removed) {
      CoversFewer(cost[c], |g.Remaining(c, removed)|, 100, q + 1);
    }
    forall d: nat | IsCandidate(g, cost, removed, d)
      ensures d == c
    {
      var r :| CheapestBy(g, cost, removed, d, r);
      if d != c {
        OneCheapest(g, cost, removed, c, q, d, r);
      }
    }
  }

  lemma OneCheapest(g: Graph, cost: seq<int>, removed: set<nat>, c: nat, q: int, d: nat, r: int)
    requires g.Valid() && |cost| == g.n
    requires CheapestBy(g, cost, removed, c, q) && CheapestBy(g, cost, removed, d, r)
    ensures c == d
  {
    if q < r {
      CoversFewer(cost[c], |g.Remaining(c, removed)|, r, q + 1);
    } else if r < q {
      CoversFewer(cost[d], |g.Remaining(d, removed)|, q, r + 1);
    }
  }

  // ----- The stack that pruning builds -----

  /** One scan from node `i` up, which pushes each node off the stack with fewer than `nregs` remaining
      neighbours. */
  ghost function Swept(g: Graph, nregs: nat, order: seq<nat>, i: nat): (r: seq<nat>)
    requires g.Valid()
    ensures order <= r
    decreases g.n - i
  {
    if i >= g.n then order
    else if i !in order && |g.Remaining(i, Elements(order))| < nregs then Swept(g, nregs, order + [i], i + 1)
    else Swept(g, nregs, order, i + 1)
  }

  /** Scans from node 0 as long as they push something, then the candidate, and so on until every node is on
      the stack or there is no candidate. */
  ghost function StackFrom(g: Graph, nregs: nat, cost: seq<int>, order: seq<nat>): (r: seq<nat>)
    requires g.Valid() && |cost| == g.n
    ensures order <= r
    decreases g.n - |order|
  {
    if |order| >= g.n then order
    else if Swept(g, nregs, order, 0) != order then StackFrom(g, nregs, cost, Swept(g, nregs, order, 0))
    else if HasCandidate(g, cost, Elements(order)) then
      var c: nat :| IsCandidate(g, cost, Elements(order), c);
      StackFrom(g, nregs, cost, order + [c])
    else order
  }

  ghost predicate HasCandidate(g: Graph, cost: seq<int>, removed: set<nat>)
    requires g.Valid() && |cost| == g.n
  {
    exists c: nat :: IsCandidate(g, cost, removed, c)
  }

  /** Pushing the candidate goes on with the same stack. */
  lemma StackThroughCandidate(g: Graph, nregs: nat, cost: seq<int>, order: seq<nat>, c: nat)
    requires g.Valid() && |cost| == g.n && |order| < g.n
    requires Swept(g, nregs, order, 0) == order && IsCandidate(g, cost, Elements(order), c)
    ensures StackFrom(g, nregs, cost, order) == StackFrom(g, nregs, cost, order + [c])
  {
    assert HasCandidate(g, cost, Elements(order));
    CandidateOrNone(g, cost, Elements(order), c);
  }

  /** So does what a scan pushed. */
  lemma StackThroughSweep(g: Graph, nregs: nat, cost: seq<int>, order: seq<nat>)
    requires g.Valid() && |cost| == g.n && (|order| < g.n || Swept(g, nregs, order, 0) == order)
    ensures StackFrom(g, nregs, cost, order) == StackFrom(g, nregs, cost, Swept(g, nregs, order, 0))
  {
  }

  lemma StackIsFull(g: Graph, nregs: nat, cost: seq<int>, order: seq<nat>)
    requires g.Valid() && |cost| == g.n && |order| >= g.n
    ensures StackFrom(g, nregs, cost, order) == order
  {
  }

  lemma StackWithoutCandidate(g: Graph, nregs: nat, cost: seq<int>, order: seq<nat>)
    requires g.Valid() && |cost| == g.n && Swept(g, nregs, order, 0) == order && NoCandidate(g, cost, Elements(order))
    ensures StackFrom(g, nregs, cost, order) == order
  {
    if c: nat :| IsCandidate(g, cost, Elements(order), c) {
      CandidateOrNone(g, cost, Elements(order), c);
    }
  }

  /** No node outside `removed` has fewer than `nregs` remaining neighbours. */
  ghost predicate NoneBelow(g: Graph, nregs: nat, removed: set<nat>)
    requires g.Valid()
  {
    forall i: nat :: i < g.n && i !in removed ==> |g.Remaining(i, removed)| >= nregs
  }

  /** Entry `k` of the stack got there by the degree < R rule (`low[k]`), or as the
      cheapest candidate when that rule applied to nothing. */
  ghost predicate PushedRightly(g: Graph, nregs: nat, cost: seq<int>, order: seq<nat>, low: seq<bool>, k: nat)
    requires g.Valid() && |cost| == g.n && |low| == |order| && k < |order|
  {
    var below := Elements(order[..k]);
    if low[k] then
      |g.Remaining(order[k], below)| < nregs
    else
      NoneBelow(g, nregs, below) && IsCandidate(g, cost, below, order[k])
  }

  ghost predicate Pruned(g: Graph, nregs: nat, cost: seq<int>, order: seq<nat>, low: seq<bool>)
    requires g.Valid() && |cost| == g.n
  {
    && |low| == |order|
    && forall k: nat :: k < |order| ==> PushedRightly(g, nregs, cost, order, low, k)
  }

  /** `c` is the least of the colours 1..nregs outside `used`, or 0 when there is none. */
  ghost predicate LeastFree(c: nat, nregs: nat, used: set<nat>) {
    if c == 0 then
      forall d: nat :: 1 <= d <= nregs ==> d in used
    else
      c <= nregs && c !in used && forall d: nat :: 1 <= d < c ==> d in used
  }

  /** The colours already given to the neighbours of `a` among `nodes`. */
  ghost function UsedColours(g: Graph, a: nat, nodes: set<nat>, colour: seq<nat>): set<nat>
    requires g.Valid() && |colour| == g.n
  {
    set b: nat | b < g.n && b in nodes && g.Linked(a, b) && colour[b] != 0 :: colour[b]
  }

  /** Popping the stack coloured its entries from `from` upwards greedily. */
  ghost predicate Greedy(g: Graph, nregs: nat, order: seq<nat>, colour: seq<nat>, from: nat)
    requires g.Valid() && |colour| == g.n
  {
    forall k: nat :: from <= k < |order| && order[k] < g.n ==>
      LeastFree(colour[order[k]], nregs, UsedColours(g, order[k], Elements(order[k + 1..]), colour))
  }

  // ----- The guarantees -----

  /** Two linked registers never share a colour. */
  lemma GreedyIsProper(g: Graph, nregs: nat, order: seq<nat>, colour: seq<nat>, a: nat, b: nat)
    requires g.Valid() && |colour| == g.n && IsOrder(g, order)
    requires Greedy(g, nregs, order, colour, 0)
    requires a < g.n && b < g.n && g.Linked(a, b)
    requires colour[a] != 0 && colour[b] != 0
    ensures colour[a] != colour[b]
  {
    assert a in order && b in order;
    var i: nat :| i < |order| && order[i] == a;
    var j: nat :| j < |order| && order[j] == b;
    assert i != j;
    if i < j {
      assert order[i + 1..][j - i - 1] == b;
      assert colour[b] in UsedColours(g, a, Elements(order[i + 1..]), colour);
    } else {
      assert order[j + 1..][i - j - 1] == a;
      assert colour[a] in UsedColours(g, b, Elements(order[j + 1..]), colour);
    }
  }

  /** Every colour handed out is one of the hard registers. */
  lemma GreedyInRange(g: Graph, nregs: nat, order: seq<nat>, colour: seq<nat>, a: nat)
    requires g.Valid() && |colour| == g.n && IsOrder(g, order)
    requires Greedy(g, nregs, order, colour, 0) && a < g.n
    ensures colour[a] <= nregs
  {
    assert a in order;
    var i: nat :| i < |order| && order[i] == a;
  }

  /** Every register has a hard register and linked ones have different ones. */
  ghost predicate IsColouring(g: Graph, nregs: nat, colour: seq<nat>)
    requires g.Valid() && |colour| == g.n
  {
    && (forall a: nat :: a < g.n ==> 1 <= colour[a] <= nregs)
    && (forall a: nat, b: nat :: a < g.n && b < g.n && g.Linked(a, b) ==> colour[a] != colour[b])
  }

  lemma GreedyGivesColouring(g: Graph, nregs: nat, order: seq<nat>, colour: seq<nat>)
    requires g.Valid() && |colour| == g.n && IsOrder(g, order)
    requires Greedy(g, nregs, order, colour, 0)
    ensures (forall a: nat :: a < g.n ==> colour[a] != 0) ==> IsColouring(g, nregs, colour)
  {
    if forall a: nat :: a < g.n ==> colour[a] != 0 {
      forall a: nat | a < g.n
        ensures 1 <= colour[a] <= nregs
      {
        GreedyInRange(g, nregs, order, colour, a);
      }
      forall a: nat, b: nat | a < g.n && b < g.n && g.Linked(a, b)
        ensures colour[a] != colour[b]
      {
        GreedyIsProper(g, nregs, order, colour, a, b);
      }
    }
  }

  lemma ImageSize(f: seq<nat>, s: set<nat>)
    requires forall i :: i in s ==> i < |f|
    ensures |set i | i in s :: f[i]| <= |s|
  {
    if s != {} {
      var x :| x in s;
      ImageSize(f, s - {x});
      assert (set i | i in s :: f[i]) == (set i | i in s - {x} :: f[i]) + {f[x]};
    }
  }

  /** The optimistic-colouring guarantee: what the degree < R rule pushed is always coloured,
      because the neighbours off the stack when it is popped are the ones it had when pushed. */
  lemma LowDegreeIsColoured(g: Graph, nregs: nat, cost: seq<int>, order: seq<nat>, low: seq<bool>,
                            colour: seq<nat>, k: nat)
    requires g.Valid() && |cost| == g.n && |colour| == g.n && IsOrder(g, order)
    requires Pruned(g, nregs, cost, order, low)
    requires Greedy(g, nregs, order, colour, 0)
    requires k < |order| && low[k]
    ensures 1 <= colour[order[k]] <= nregs
  {
    var x := order[k];
    var later := Elements(order[k + 1..]);
    var near := g.Remaining(x, Elements(order[..k]));
    var used := UsedColours(g, x, later, colour);
    assert PushedRightly(g, nregs, cost, order, low, k);
    assert |near| < nregs;
    forall b: nat | b < g.n && b in later && g.Linked(x, b)
      ensures b in near
    {
      var j :| 0 <= j < |order[k + 1..]| && order[k + 1..][j] == b;
      assert order[k + 1 + j] == b;
    }
    ImageSize(colour, near);
    SubsetSize(used, set i | i in near :: colour[i]);
    var palette := Range(nregs + 1) - {0};
    assert Range(nregs + 1) == palette + {0};
    if colour[x] == 0 {
      SubsetSize(palette, used);
    }
  }

  /** Only spill candidates can be marked spilled; without candidates nothing spills. */
  lemma OnlyCandidatesSpill(g: Graph, nregs: nat, cost: seq<int>, order: seq<nat>, low: seq<bool>, colour: seq<nat>)
    requires g.Valid() && |cost| == g.n && |colour| == g.n && IsOrder(g, order)
    requires Pruned(g, nregs, cost, order, low)
    requires Greedy(g, nregs, order, colour, 0)
    ensures forall k: nat :: k < |order| && colour[order[k]] == 0 ==> !low[k]
    ensures (forall k: nat :: k < |order| ==> low[k]) ==> forall a: nat :: a < g.n ==> colour[a] != 0
  {
    forall k: nat | k < |order| && low[k]
      ensures colour[order[k]] != 0
    {
      LowDegreeIsColoured(g, nregs, cost, order, low, colour, k);
    }
    forall a: nat | a < g.n && forall k: nat :: k < |order| ==> low[k]
      ensures colour[a] != 0
    {
      assert a in order;
      var k: nat :| k < |order| && order[k] == a;
    }
  }

  /** What is left outside some set of nodes, and it is not nothing, has only nodes with `nregs` or more
      neighbours among themselves. */
  ghost predicate HasCore(g: Graph, nregs: nat)
    requires g.Valid()
  {
    exists removed: set<nat> :: (exists a: nat :: a < g.n && a !in removed) && NoneBelow(g, nregs, removed)
  }

  /** A graph without a core is pruned by the degree < R rule alone, in whatever order the sweeps go. */
  lemma NoCoreNoCandidates(g: Graph, nregs: nat, cost: seq<int>, order: seq<nat>, low: seq<bool>)
    requires g.Valid() && |cost| == g.n && Pruned(g, nregs, cost, order, low) && !HasCore(g, nregs)
    ensures forall k :: 0 <= k < |low| ==> low[k]
  {
    forall k: nat | k < |low|
      ensures low[k]
    {
      assert PushedRightly(g, nregs, cost, order, low, k);
    }
  }

  /** When pruning stops early with nothing left to push by that rule, what is left is a core. */
  lemma StoppingLeavesCore(g: Graph, nregs: nat, order: seq<nat>)
    requires g.Valid() && Distinct(order) && |order| < g.n && NoneBelow(g, nregs, Elements(order))
    ensures HasCore(g, nregs)
  {
    if forall a: nat :: a < g.n ==> a in Elements(order) {
      DistinctSize(order);
      SubsetSize(Range(g.n), Elements(order));
    }
  }

  /** A graph with no more nodes than there are colours has no core. */
  lemma SmallGraphHasNoCore(g: Graph, nregs: nat)
    requires g.Valid() && g.n <= nregs
    ensures !HasCore(g, nregs)
  {
    forall removed: set<nat>, a: nat | a < g.n && a !in removed
      ensures !NoneBelow(g, nregs, removed)
    {
      var near := g.Remaining(a, removed);
      SubsetSize(near + {a}, Range(g.n));
    }
  }

  /** The stack determines the colouring. */
  lemma {:induction false} GreedyIsUnique(g: Graph, nregs: nat, order: seq<nat>, c1: seq<nat>, c2: seq<nat>, from: nat)
    requires g.Valid() && |c1| == g.n && |c2| == g.n && IsOrder(g, order) && from <= |order|
    requires Greedy(g, nregs, order, c1, from) && Greedy(g, nregs, order, c2, from)
    ensures forall k: nat :: from <= k < |order| ==> c1[order[k]] == c2[order[k]]
    decreases |order| - from
  {
    if from < |order| {
      GreedyIsUnique(g, nregs, order, c1, c2, from + 1);
      var later := Elements(order[from + 1..]);
      forall b | b in later
        ensures b < g.n && c1[b] == c2[b]
      {
        var j :| 0 <= j < |order[from + 1..]| && order[from + 1..][j] == b;
        assert order[from + 1 + j] == b;
      }
      assert UsedColours(g, order[from], later, c1) == UsedColours(g, order[from], later, c2);
      var x, y := c1[order[from]], c2[order[from]];
      assert LeastFree(x, nregs, UsedColours(g, order[from], later, c1));
      assert LeastFree(y, nregs, UsedColours(g, order[from], later, c1));
    }
  }
}
