/** Which nodes of a function lead to which, and what the edits of the passes leave of that. */
module ControlFlow {
  import opened Liveness
  import opened Mir
  import opened MirCfg
  import opened Simulation
  import DfsLiveness
  import FirstPass

  /** `w` follows the edges of the function's graph. */
  ghost predicate Path(nodes: seq<Node>, w: seq<nat>) {
    && |w| > 0 && (forall i :: 0 <= i < |w| ==> w[i] < |nodes|)
    && forall i :: 0 <= i < |w| - 1 ==> w[i + 1] in Successors(nodes, w[i])
  }

  ghost predicate Leads(nodes: seq<Node>, p: nat, q: nat) {
    exists w :: Path(nodes, w) && w[0] == p && w[|w| - 1] == q
  }

  lemma LeadsSelf(nodes: seq<Node>, p: nat)
    requires p < |nodes|
    ensures Leads(nodes, p, p)
  {
    assert Path(nodes, [p]);
  }

  lemma LeadsNext(nodes: seq<Node>, p: nat, q: nat)
    requires p < |nodes| && q < |nodes| && q in Successors(nodes, p)
    ensures Leads(nodes, p, q)
  {
    assert Path(nodes, [p, q]);
  }

  lemma LeadsThen(nodes: seq<Node>, p: nat, q: nat, r: nat)
    requires Leads(nodes, p, q) && Leads(nodes, q, r)
    ensures Leads(nodes, p, r)
  {
    var a :| Path(nodes, a) && a[0] == p && a[|a| - 1] == q;
    var b :| Path(nodes, b) && b[0] == q && b[|b| - 1] == r;
    PathsJoin(nodes, a, b);
  }

  lemma PathsJoin(nodes: seq<Node>, a: seq<nat>, b: seq<nat>)
    requires Path(nodes, a) && Path(nodes, b) && a[|a| - 1] == b[0]
    ensures Leads(nodes, a[0], b[|b| - 1])
  {
    hide Successors;
    var w := a + b[1..];
    assert Path(nodes, w);
    assert w[0] == a[0] && w[|w| - 1] == b[|b| - 1];
  }

  /** A node whose next node is one of its successors. */
  predicate Falls(o: Opcode) {
    !o.Jump? && !o.End?
  }

  lemma {:induction false} FallsThrough(nodes: seq<Node>, a: nat, b: nat)
    requires a <= b < |nodes| && forall p :: a <= p < b ==> Falls(nodes[p].instr.opcode)
    ensures Leads(nodes, a, b)
    decreases b - a
  {
    if a == b {
      LeadsSelf(nodes, a);
    } else {
      FallsThrough(nodes, a + 1, b);
      LeadsNext(nodes, a, a + 1);
      LeadsThen(nodes, a, a + 1, b);
    }
  }

  /** Every node from `a` to `b` leads to `b`. */
  ghost predicate Region(nodes: seq<Node>, a: nat, b: nat) {
    a <= b < |nodes| && forall p: nat :: a <= p <= b ==> Leads(nodes, p, b)
  }

  lemma RegionFalls(nodes: seq<Node>, a: nat, b: nat)
    requires a <= b < |nodes| && forall p :: a <= p < b ==> Falls(nodes[p].instr.opcode)
    ensures Region(nodes, a, b)
  {
    forall p: nat | a <= p <= b
      ensures Leads(nodes, p, b)
    {
      FallsThrough(nodes, p, b);
    }
  }

  lemma RegionThen(nodes: seq<Node>, a: nat, b: nat, c: nat)
    requires Region(nodes, a, b) && Region(nodes, b, c)
    ensures Region(nodes, a, c)
  {
    hide Leads;
    forall p: nat | a <= p <= c
      ensures Leads(nodes, p, c)
    {
      if p <= b {
        LeadsThen(nodes, p, b, c);
      }
    }
  }

  /** A loop: its test leaves it, its last node jumps back to where the test is reached from. */
  lemma RegionOfLoop(nodes: seq<Node>, at: nat, test: nat, back: nat)
    requires Region(nodes, at, test) && Region(nodes, test + 1, back) && back + 1 < |nodes|
    requires nodes[test].instr.opcode.If? && Target(nodes, nodes[test]) == back + 1
    requires nodes[back].instr.opcode.Jump? && Target(nodes, nodes[back]) == at
    ensures Region(nodes, at, back + 1)
  {
    LeadsNext(nodes, test, back + 1);
    LeadsNext(nodes, back, at);
    LeadsSelf(nodes, back + 1);
    hide Leads;
    LeadsThen(nodes, at, test, back + 1);
    LeadsThen(nodes, back, at, back + 1);
    var exit := back + 1;
    forall p: nat | at <= p <= back
      ensures Leads(nodes, p, exit)
    {
      if p <= test {
        LeadsThen(nodes, p, test, exit);
      } else {
        LeadsThen(nodes, p, back, exit);
      }
    }
  }

  // ----- Through the edits of the passes -----

  /** END, the last node, can be reached from everywhere. */
  ghost predicate EndInReach(nodes: seq<Node>) {
    |nodes| > 0 && nodes[|nodes| - 1].instr.opcode.End? && Region(nodes, 0, |nodes| - 1)
  }

  /** What is put before a node goes on to it. */
  lemma EntersPlace(was: seq<Node>, now: seq<Node>, l: Layout, q: nat, p: nat)
    requires KeepsFlow(was, now, l) && q < |was| && l.entry[q] <= p <= l.place[q]
    ensures Leads(now, p, l.place[q])
  {
    assert FlowKept(was, now, l, q);
    FallsThrough(now, p, l.place[q]);
  }

  /** What is put behind a node goes on to where the next one's nodes begin. */
  lemma LeavesPlace(was: seq<Node>, now: seq<Node>, l: Layout, q: nat, p: nat)
    requires KeepsFlow(was, now, l) && q + 1 < |was| && l.place[q] < p <= l.entry[q + 1]
    ensures Leads(now, p, l.entry[q + 1])
  {
    assert FlowKept(was, now, l, q) && FlowKept(was, now, l, q + 1);
    FallsThrough(now, p, l.entry[q + 1]);
  }

  /** An edge of the old list is a way in the new one. */
  lemma EdgeKept(was: seq<Node>, now: seq<Node>, l: Layout, q: nat, r: nat)
    requires LaidOut(was, now, l) && KeepsFlow(was, now, l) && q < |was| && r < |was| && r in Successors(was, q)
    ensures Leads(now, l.place[q], l.place[r])
  {
    assert FlowKept(was, now, l, q) && FlowKept(was, now, l, r) && NodeLaidOut(was, now, l, q);
    var p := l.place[q];
    if r == q + 1 && Falls(was[q].instr.opcode) {
      LeadsNext(now, p, p + 1);
      LeavesPlace(was, now, l, q, p + 1);
      LeadsThen(now, p, p + 1, l.entry[r]);
    } else {
      assert Jumps(was[q].instr.opcode) && r == Target(was, was[q]);
      LeadsNext(now, p, l.entry[r]);
    }
    EntersPlace(was, now, l, r, l.entry[r]);
    LeadsThen(now, p, l.entry[r], l.place[r]);
  }

  lemma {:induction false} PathKept(was: seq<Node>, now: seq<Node>, l: Layout, w: seq<nat>)
    requires LaidOut(was, now, l) && KeepsFlow(was, now, l) && Path(was, w)
    ensures Leads(now, l.place[w[0]], l.place[w[|w| - 1]])
  {
    hide Successors, Leads;
    if |w| == 1 {
      assert FlowKept(was, now, l, w[0]);
      LeadsSelf(now, l.place[w[0]]);
    } else {
      assert Path(was, w[1..]);
      PathKept(was, now, l, w[1..]);
      EdgeKept(was, now, l, w[0], w[1]);
      LeadsThen(now, l.place[w[0]], l.place[w[1]], l.place[w[|w| - 1]]);
    }
  }

  /** The passes keep END in reach of every node. */
  lemma EndStaysInReach(was: seq<Node>, now: seq<Node>, l: Layout)
    requires LaidOut(was, now, l) && KeepsFlow(was, now, l) && EndInReach(was)
    requires |now| > 0 && now[|now| - 1].instr.opcode.End?
    ensures EndInReach(now)
  {
    var last := |was| - 1;
    assert FlowKept(was, now, l, last);
    assert l.place[last] == |now| - 1;
    var exit := |now| - 1;
    forall p: nat | p < |now|
      ensures Leads(now, p, exit)
    {
      var q := Owner(was, now, l, p, 0, |was|);
      ReachesEnd(was, now, l, p, q);
    }
  }

  lemma ReachesEnd(was: seq<Node>, now: seq<Node>, l: Layout, p: nat, q: nat)
    requires LaidOut(was, now, l) && KeepsFlow(was, now, l) && EndInReach(was)
    requires q < |was| && l.entry[q] <= p < l.entry[q + 1] && l.place[|was| - 1] == |now| - 1
    ensures Leads(now, p, |now| - 1)
  {
    assert FlowKept(was, now, l, q);
    if p <= l.place[q] {
      PlaceReachesEnd(was, now, l, q);
      EntersPlace(was, now, l, q, p);
      LeadsThen(now, p, l.place[q], |now| - 1);
    } else {
      EntriesAscend(was, now, l, q + 1, |was|);
      assert q + 1 < |was|;
      assert FlowKept(was, now, l, q + 1);
      PlaceReachesEnd(was, now, l, q + 1);
      LeavesPlace(was, now, l, q, p);
      EntersPlace(was, now, l, q + 1, l.entry[q + 1]);
      LeadsThen(now, p, l.entry[q + 1], l.place[q + 1]);
      LeadsThen(now, p, l.place[q + 1], |now| - 1);
    }
  }

  lemma PlaceReachesEnd(was: seq<Node>, now: seq<Node>, l: Layout, q: nat)
    requires LaidOut(was, now, l) && KeepsFlow(was, now, l) && EndInReach(was)
    requires q < |was| && l.place[|was| - 1] == |now| - 1
    ensures Leads(now, l.place[q], |now| - 1)
  {
    assert Leads(was, q, |was| - 1);
    var w :| Path(was, w) && w[0] == q && w[|w| - 1] == |was| - 1;
    PathKept(was, now, l, w);
  }

  /** And they keep every jump inside the function. */
  lemma JumpsStayInside(was: seq<Node>, now: seq<Node>, l: Layout)
    requires LaidOut(was, now, l) && KeepsFlow(was, now, l) && JumpsInside(was)
    ensures JumpsInside(now)
  {
    forall p: nat | p < |now| && Jumps(now[p].instr.opcode)
      ensures Target(now, now[p]) < |now|
    {
      var q := Owner(was, now, l, p, 0, |was|);
      assert FlowKept(was, now, l, q);
      assert p == l.place[q] && was[q].instr.opcode == now[p].instr.opcode;
      assert NodeLaidOut(was, now, l, q) && TargetInside(was, q);
      var r := Target(was, was[q]);
      assert FlowKept(was, now, l, r);
    }
  }

  // ----- Nodes that cannot be avoided -----

  /** No edge leads from in front of `s` to behind it. */
  ghost predicate Cut(nodes: seq<Node>, s: nat) {
    s < |nodes| && forall p: nat :: p < s ==> StaysUpTo(nodes, p, s)
  }

  ghost predicate StaysUpTo(nodes: seq<Node>, p: nat, s: nat)
    requires p < |nodes|
  {
    forall q :: q in Successors(nodes, p) ==> q <= s
  }

  /** Behind the first node something is read that no way through the function avoids. */
  ghost predicate SurelyReads(nodes: seq<Node>) {
    exists s: nat :: 0 < s && Cut(nodes, s) && HasSource(nodes[s].instr)
  }

  lemma {:induction false} PathsMeetCut(nodes: seq<Node>, w: seq<nat>, s: nat)
    requires Cut(nodes, s) && |w| > 0 && w[0] < s <= w[|w| - 1]
    requires forall i :: 0 <= i < |w| - 1 ==> w[i] < |nodes| && w[i + 1] in Successors(nodes, w[i])
    ensures s in w
  {
    assert StaysUpTo(nodes, w[0], s);
    if w[1] < s {
      PathsMeetCut(nodes, w[1..], s);
    }
  }

  lemma WalkIsPath(g: FlowGraph, nodes: seq<Node>, w: seq<nat>)
    requires IsGraphOf(g, nodes) && DfsLiveness.Walk(g, w)
    ensures forall i :: 0 <= i < |w| - 1 ==> w[i] < |nodes| && w[i + 1] in Successors(nodes, w[i])
  {
    hide Successors;
    forall i | 0 <= i < |w| - 1
      ensures w[i] < |nodes| && w[i + 1] in Successors(nodes, w[i])
    {
      assert g.Node(w[i]) && g.Edge(w[i], w[i + 1]);
      assert g.succ[w[i]] == Successors(nodes, w[i]);
    }
  }

  /** A function that surely reads something has a complete liveness pass, in whatever order predecessors
      are visited. */
  lemma SureReadIsReported(nodes: seq<Node>)
    requires JumpsInside(nodes) && EndInReach(nodes) && SurelyReads(nodes)
    ensures IsGraphOf(GraphOf(nodes), nodes) && DfsLiveness.FirstPassReports(GraphOf(nodes), |nodes| - 1)
  {
    hide GraphOf, IsGraphOf, EndInReach, JumpsInside, StaysUpTo, HasSource, DfsLiveness.FirstPassReports;
    EndIsLast(nodes);
    GraphOfIsValid(nodes);
    var s: nat :| 0 < s && Cut(nodes, s) && HasSource(nodes[s].instr);
    UsedInGraph(nodes, s);
    CutReported(GraphOf(nodes), nodes, s, |nodes| - 1);
  }

  lemma EndIsLast(nodes: seq<Node>)
    requires EndInReach(nodes)
    ensures |nodes| > 0 && nodes[|nodes| - 1].instr.opcode.End?
  {
  }

  lemma CutReported(g: FlowGraph, nodes: seq<Node>, s: nat, exit: nat)
    requires IsGraphOf(g, nodes) && EndInReach(nodes) && exit == |nodes| - 1
    requires 0 < s && Cut(nodes, s) && g.use[s] != []
    ensures DfsLiveness.FirstPassReports(g, exit)
  {
    hide GraphOf, Successors, DfsLiveness.FirstPassReports, DfsLiveness.Reaching, FirstPass.Unavoidable;
    EveryNodeReaches(g, nodes, exit);
    CutUnavoidable(g, nodes, s, exit);
    FirstPass.UnavoidableUseReports(g, exit, 0, s);
  }

  lemma UsedInGraph(nodes: seq<Node>, s: nat)
    requires Cut(nodes, s) && HasSource(nodes[s].instr)
    ensures s < |nodes| && GraphOf(nodes).use[s] != []
  {
    SourcesAreUses(nodes[s].instr);
    assert GraphOf(nodes).use[s] == Uses(nodes[s].instr);
  }

  lemma CutUnavoidable(g: FlowGraph, nodes: seq<Node>, s: nat, exit: nat)
    requires IsGraphOf(g, nodes) && 0 < s && Cut(nodes, s) && exit == |nodes| - 1
    ensures FirstPass.Unavoidable(g, exit, 0, s)
  {
    hide IsGraphOf, Cut;
    forall w | DfsLiveness.Walk(g, w) && w[0] == 0 && w[|w| - 1] == exit
      ensures s in w
    {
      WalkIsPath(g, nodes, w);
      CutInside(nodes, s);
      PathsMeetCut(nodes, w, s);
    }
  }

  lemma CutInside(nodes: seq<Node>, s: nat)
    requires Cut(nodes, s)
    ensures s < |nodes|
  {
  }

  /** The passes keep it. */
  lemma CutKept(was: seq<Node>, now: seq<Node>, l: Layout, s: nat)
    requires LaidOut(was, now, l) && KeepsFlow(was, now, l) && Cut(was, s)
    ensures s < |l.place| && Cut(now, l.place[s])
  {
    assert FlowKept(was, now, l, s);
    forall p: nat | p < l.place[s]
      ensures StaysUpTo(now, p, l.place[s])
    {
      var q := Owner(was, now, l, p, 0, |was|);
      StaysKept(was, now, l, s, p, q);
    }
  }

  lemma StaysKept(was: seq<Node>, now: seq<Node>, l: Layout, s: nat, p: nat, q: nat)
    requires LaidOut(was, now, l) && KeepsFlow(was, now, l) && Cut(was, s) && p < l.place[s] < |now|
    requires q < |was| && l.entry[q] <= p < l.entry[q + 1]
    ensures StaysUpTo(now, p, l.place[s])
  {
    assert FlowKept(was, now, l, q) && FlowKept(was, now, l, s);
    if q > s {
      EntriesAscend(was, now, l, s + 1, q);
      assert false;
    }
    if p == l.place[q] && q < s {
      assert NodeLaidOut(was, now, l, q) && StaysUpTo(was, q, s);
      var o := was[q].instr.opcode;
      if Jumps(o) {
        var to := Target(was, was[q]);
        assert to in Successors(was, q);
        EntriesAscend(was, now, l, to, s);
      }
      assert !o.Jump? && !o.End? ==> q + 1 in Successors(was, q);
    }
  }

  lemma SureReadKept(was: seq<Node>, now: seq<Node>, l: Layout)
    requires LaidOut(was, now, l) && KeepsFlow(was, now, l) && SurelyReads(was)
    ensures SurelyReads(now)
  {
    var s: nat :| 0 < s && Cut(was, s) && HasSource(was[s].instr);
    CutKept(was, now, l, s);
    FlowAt(was, now, l, s);
    FlowAt(was, now, l, 0);
    EntriesAscend(was, now, l, 1, s);
    assert 0 < l.place[s];
  }

  // ----- In the graph -----

  /** Every node of the graph reaches the exit, so no edge leaves those that do. */
  lemma EveryNodeReaches(g: FlowGraph, nodes: seq<Node>, exit: nat)
    requires IsGraphOf(g, nodes) && EndInReach(nodes) && exit == |nodes| - 1
    ensures forall n: nat :: n < |nodes| ==> n in DfsLiveness.Reaching(g, exit)
  {
    forall n: nat | n < |nodes|
      ensures DfsLiveness.CanReach(g, exit, n)
    {
      assert Leads(nodes, n, exit);
      var w :| Path(nodes, w) && w[0] == n && w[|w| - 1] == exit;
      assert DfsLiveness.Walk(g, w);
    }
  }
}
