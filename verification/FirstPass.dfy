/** What the visit order of the first liveness pass decides: when it is bound to report a change, and when
    it stays silent. */
module FirstPass {
  import opened Liveness
  import opened DfsLiveness

  // ----- When the first pass is bound to report -----

  ghost predicate Leads(g: FlowGraph, n: nat, seen: seq<nat>) {
    exists j: nat :: j < |seen| && g.Edge(n, seen[j])
  }

  /** Every visited node but the first is a predecessor of one visited before it. */
  ghost predicate Descends(g: FlowGraph, order: seq<nat>) {
    forall k: nat :: 0 < k < |order| ==> Leads(g, order[k], order[..k])
  }

  lemma DescendsOn(g: FlowGraph, seen: seq<nat>, n: nat)
    requires Descends(g, seen) && (seen == [] || Leads(g, n, seen))
    ensures Descends(g, seen + [n])
  {
    hide Leads;
    forall k: nat | 0 < k < |seen| + 1
      ensures Leads(g, (seen + [n])[k], (seen + [n])[..k])
    {
      assert (seen + [n])[..k] == if k < |seen| then seen[..k] else seen;
    }
  }

  lemma LeadsLonger(g: FlowGraph, n: nat, seen: seq<nat>, more: seq<nat>)
    requires Leads(g, n, seen) && seen <= more
    ensures Leads(g, n, more)
  {
    var j: nat :| j < |seen| && g.Edge(n, seen[j]);
    assert more[j] == seen[j];
  }

  lemma {:induction false} VisitsDescend(g: FlowGraph, n: nat, seen: seq<nat>)
    requires g.Valid() && g.Node(n) && Descends(g, seen) && (seen == [] || Leads(g, n, seen))
    ensures Descends(g, Dfs(g, n, seen))
    decreases Unseen(g, seen), 0
  {
    hide Descends, Leads;
    if n !in seen {
      assert n in Unseen(g, seen) && n !in Unseen(g, seen + [n]);
      DescendsOn(g, seen, n);
      forall k | 0 <= k < |g.pred[n]|
        ensures Leads(g, g.pred[n][k], seen + [n])
      {
        PredLeads(g, n, k, seen);
      }
      AllVisitsDescend(g, g.pred[n], seen + [n]);
    }
  }

  lemma PredLeads(g: FlowGraph, n: nat, k: nat, seen: seq<nat>)
    requires g.Valid() && g.Node(n) && k < |g.pred[n]|
    ensures Leads(g, g.pred[n][k], seen + [n])
  {
    assert g.pred[n][k] in g.pred[n];
    assert (seen + [n])[|seen|] == n;
  }

  lemma {:induction false} AllVisitsDescend(g: FlowGraph, ns: seq<nat>, seen: seq<nat>)
    requires g.Valid() && Descends(g, seen)
    requires forall k :: 0 <= k < |ns| ==> g.Node(ns[k]) && Leads(g, ns[k], seen)
    ensures Descends(g, DfsAll(g, ns, seen))
    decreases Unseen(g, seen), 1 + |ns|
  {
    hide Descends, Leads;
    if ns != [] {
      VisitsDescend(g, ns[0], seen);
      var next := Dfs(g, ns[0], seen);
      assert Unseen(g, next) <= Unseen(g, seen);
      forall k | 0 <= k < |ns| - 1
        ensures g.Node(ns[1..][k]) && Leads(g, ns[1..][k], next)
      {
        LeadsLonger(g, ns[k + 1], seen, next);
      }
      AllVisitsDescend(g, ns[1..], next);
    }
  }

  /** A walk visits all predecessors of what it visits. */
  lemma {:induction false} VisitsPreds(g: FlowGraph, n: nat, seen: seq<nat>)
    requires g.Valid() && g.Node(n)
    ensures n in Dfs(g, n, seen) && PredsSeen(g, seen, Dfs(g, n, seen))
    decreases Unseen(g, seen), 0
  {
    if n !in seen {
      assert n in Unseen(g, seen) && n !in Unseen(g, seen + [n]);
      AllVisitPreds(g, g.pred[n], seen + [n]);
      assert forall m :: m in seen + [n] <==> m in seen || m == n;
      assert (seen + [n])[|seen|] == n;
      InPrefix(seen + [n], Dfs(g, n, seen), n);
    }
  }

  lemma {:induction false} AllVisitPreds(g: FlowGraph, ns: seq<nat>, seen: seq<nat>)
    requires g.Valid() && forall k :: 0 <= k < |ns| ==> g.Node(ns[k])
    ensures PredsSeen(g, seen, DfsAll(g, ns, seen)) && forall n :: n in ns ==> n in DfsAll(g, ns, seen)
    decreases Unseen(g, seen), 1 + |ns|
  {
    if ns != [] {
      VisitsPreds(g, ns[0], seen);
      var next := Dfs(g, ns[0], seen);
      assert Unseen(g, next) <= Unseen(g, seen);
      AllVisitPreds(g, ns[1..], next);
      PredsSeenTrans(g, seen, next, DfsAll(g, ns, seen));
      InPrefix(next, DfsAll(g, ns, seen), ns[0]);
    }
  }

  lemma InPrefix(a: seq<nat>, b: seq<nat>, n: nat)
    requires a <= b && n in a
    ensures n in b
  {
    var i :| 0 <= i < |a| && a[i] == n;
    assert b[i] == n;
  }

  /** From the `k`-th visited node a path leads to the first along nodes visited ever earlier. */
  lemma {:induction false} WayDown(g: FlowGraph, order: seq<nat>, k: nat) returns (at: seq<nat>)
    requires Descends(g, order) && k < |order|
    ensures |at| > 0 && at[0] == k && at[|at| - 1] == 0
    ensures forall i :: 0 <= i < |at| ==> at[i] <= k
    ensures forall i :: 0 <= i < |at| - 1 ==> at[i + 1] < at[i] && g.Edge(order[at[i]], order[at[i + 1]])
  {
    if k == 0 {
      at := [0];
    } else {
      assert Leads(g, order[k], order[..k]);
      var j: nat :| j < |order[..k]| && g.Edge(order[k], order[..k][j]);
      var rest := WayDown(g, order, j);
      at := [k] + rest;
      forall i | 0 <= i < |at| - 1
        ensures at[i + 1] < at[i] && g.Edge(order[at[i]], order[at[i + 1]])
      {
        if i > 0 {
          assert at[i] == rest[i - 1] && at[i + 1] == rest[i];
        }
      }
    }
  }

  /** Every path from `n` to the exit passes `s`. */
  ghost predicate Unavoidable(g: FlowGraph, exit: nat, n: nat, s: nat) {
    forall w :: Walk(g, w) && w[0] == n && w[|w| - 1] == exit ==> s in w
  }

  lemma WalkDown(g: FlowGraph, order: seq<nat>, at: seq<nat>) returns (w: seq<nat>)
    requires |at| > 0 && forall i :: 0 <= i < |at| ==> at[i] < |order| && g.Node(order[at[i]])
    requires forall i :: 0 <= i < |at| - 1 ==> g.Edge(order[at[i]], order[at[i + 1]])
    ensures Walk(g, w) && |w| == |at| && forall i :: 0 <= i < |w| ==> w[i] == order[at[i]]
  {
    w := seq(|at|, i requires 0 <= i < |at| => order[at[i]]);
  }

  /** A use that no path can avoid makes the first pass report a change, in whatever order predecessors
      are visited: what was visited after the use and leads to it sees it. */
  lemma UnavoidableUseReports(g: FlowGraph, exit: nat, n: nat, s: nat)
    requires g.Valid() && g.Node(exit) && n in Reaching(g, exit)
    requires g.Node(s) && s != n && g.use[s] != [] && Unavoidable(g, exit, n, s)
    ensures FirstPassReports(g, exit)
  {
    var order := Dfs(g, exit, []);
    VisitsDescend(g, exit, []);
    VisitsPreds(g, exit, []);
    WalkVisitsReaching(g, exit, order, n);
    FirstVisited(g, exit);
    NodesVisited(g, exit, []);
    var k: nat :| k < |order| && order[k] == n;
    var at := WayDown(g, order, k);
    var w := WalkDown(g, order, at);
    var i :| 0 <= i < |w| && w[i] == s;
    hide Dfs, Descends, Reaching, PredsSeen;
    UseSeen(g, order, at[i - 1], at[i]);
  }

  lemma UseSeen(g: FlowGraph, order: seq<nat>, k: nat, j: nat)
    requires g.Valid() && j < k < |order| && g.Edge(order[k], order[j]) && g.Node(order[j]) && g.use[order[j]] != []
    ensures SeesUses(g, order, k)
  {
    assert order[..k + 1][j] == order[j];
  }

  lemma FirstVisited(g: FlowGraph, exit: nat)
    requires g.Valid() && g.Node(exit)
    ensures [exit] <= Dfs(g, exit, [])
  {
    assert [] + [exit] == [exit];
  }

  lemma {:induction false} NodesVisited(g: FlowGraph, n: nat, seen: seq<nat>)
    requires g.Valid() && g.Node(n) && forall m :: m in seen ==> g.Node(m)
    ensures forall m :: m in Dfs(g, n, seen) ==> g.Node(m)
    decreases Unseen(g, seen), 0
  {
    if n !in seen {
      assert n in Unseen(g, seen) && n !in Unseen(g, seen + [n]);
      AllNodesVisited(g, g.pred[n], seen + [n]);
    }
  }

  lemma {:induction false} AllNodesVisited(g: FlowGraph, ns: seq<nat>, seen: seq<nat>)
    requires g.Valid() && (forall k :: 0 <= k < |ns| ==> g.Node(ns[k])) && forall m :: m in seen ==> g.Node(m)
    ensures forall m :: m in DfsAll(g, ns, seen) ==> g.Node(m)
    decreases Unseen(g, seen), 1 + |ns|
  {
    if ns != [] {
      NodesVisited(g, ns[0], seen);
      var next := Dfs(g, ns[0], seen);
      assert Unseen(g, next) <= Unseen(g, seen);
      AllNodesVisited(g, ns[1..], next);
    }
  }

  // ----- When it stays silent -----

  /** When only `u` has uses and only the test `t` leads there, a walk that goes from the exit to `t` first
      visits `u` too late for `t` to see it. */
  lemma LateUseIsSilent(g: FlowGraph, exit: nat, t: nat, u: nat)
    requires g.Valid() && g.Node(exit) && g.pred[exit] != [] && g.pred[exit][0] == t
    requires t != exit && u != exit && u != t
    requires forall n: nat :: n < |g.use| && g.use[n] != [] ==> n == u
    requires forall n: nat :: g.Edge(n, u) ==> n == t
    ensures !FirstPassReports(g, exit)
  {
    var order := Dfs(g, exit, []);
    VisitsOnce(g, exit, []);
    assert [] + [exit] == [exit] && [exit] + [t] == [exit, t];
    assert order == DfsAll(g, g.pred[exit], [exit]);
    assert Dfs(g, t, [exit]) == DfsAll(g, g.pred[t], [exit, t]);
    assert [exit, t] <= order;
    hide Dfs;
    forall k: nat, s: nat | k < |order| && g.Edge(order[k], s) && g.use[s] != []
      ensures s !in order[..k + 1]
    {
      assert g.Node(s) && s == u && order[k] == t && order[1] == [exit, t][1];
      assert k == 1 && order[..2] == [exit, t];
    }
  }
}
