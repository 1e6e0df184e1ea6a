/** The MIR liveness loop of mir_cfg.c: repeated depth-first walks from the exit along
    predecessor edges (mcfg_calculate_liveness, liveness_at_node). */
module DfsLiveness {
  import opened Wrappers
  import opened Sequences
  import opened Liveness

  // ----- The nodes a walk visits, and in which order -----

  ghost predicate Walk(g: FlowGraph, p: seq<nat>) {
    && |p| > 0
    && (forall i :: 0 <= i < |p| ==> g.Node(p[i]))
    && (forall i :: 0 <= i < |p| - 1 ==> g.Edge(p[i], p[i + 1]))
  }

  /** Some path leads from `n` to `exit`. */
  ghost predicate CanReach(g: FlowGraph, exit: nat, n: nat) {
    exists p :: Walk(g, p) && p[0] == n && p[|p| - 1] == exit
  }

  ghost function Reaching(g: FlowGraph, exit: nat): iset<nat> {
    iset n: nat | CanReach(g, exit, n)
  }

  lemma ExitReaches(g: FlowGraph, exit: nat)
    requires g.Node(exit)
    ensures exit in Reaching(g, exit)
  {
    assert Walk(g, [exit]);
  }

  lemma PredReaches(g: FlowGraph, exit: nat, n: nat, p: nat)
    requires g.Valid() && g.Node(n) && n in Reaching(g, exit) && p in g.pred[n]
    ensures g.Node(p) && p in Reaching(g, exit)
  {
    var w :| Walk(g, w) && w[0] == n && w[|w| - 1] == exit;
    assert g.Edge(p, n);
    assert Walk(g, [p] + w);
  }

  /** A set closed under predecessors that holds the exit holds every node that reaches it. */
  lemma {:induction false} ClosedUnderPred(g: FlowGraph, w: seq<nat>, seen: seq<nat>)
    requires g.Valid() && Walk(g, w) && w[|w| - 1] in seen
    requires forall n, p :: n in seen && g.Node(n) && p in g.pred[n] ==> p in seen
    ensures w[0] in seen
  {
    if |w| > 1 {
      assert Walk(g, w[1..]);
      ClosedUnderPred(g, w[1..], seen);
      assert g.Edge(w[0], w[1]) && g.Node(w[1]);
    }
  }

  ghost function Unseen(g: FlowGraph, seen: seq<nat>): set<nat> {
    set n: nat | n < |g.succ| && n !in seen
  }

  /** The visits after a call on `n` when `seen` was visited before, in order. */
  ghost function Dfs(g: FlowGraph, n: nat, seen: seq<nat>): (order: seq<nat>)
    requires g.Valid() && g.Node(n)
    ensures seen <= order
    decreases Unseen(g, seen), 0
  {
    if n in seen then seen
    else
      assert n in Unseen(g, seen) && n !in Unseen(g, seen + [n]);
      DfsAll(g, g.pred[n], seen + [n])
  }

  ghost function DfsAll(g: FlowGraph, ns: seq<nat>, seen: seq<nat>): (order: seq<nat>)
    requires g.Valid() && forall k :: 0 <= k < |ns| ==> g.Node(ns[k])
    ensures seen <= order
    decreases Unseen(g, seen), 1 + |ns|
  {
    if ns == [] then seen
    else
      var next := Dfs(g, ns[0], seen);
      assert Unseen(g, next) <= Unseen(g, seen);
      DfsAll(g, ns[1..], next)
  }

  /** A walk visits no node twice. */
  lemma {:induction false} VisitsOnce(g: FlowGraph, n: nat, seen: seq<nat>)
    requires g.Valid() && g.Node(n) && Distinct(seen)
    ensures Distinct(Dfs(g, n, seen))
    decreases Unseen(g, seen), 0
  {
    if n !in seen {
      assert n in Unseen(g, seen) && n !in Unseen(g, seen + [n]);
      AllVisitedOnce(g, g.pred[n], seen + [n]);
    }
  }

  lemma {:induction false} AllVisitedOnce(g: FlowGraph, ns: seq<nat>, seen: seq<nat>)
    requires g.Valid() && (forall k :: 0 <= k < |ns| ==> g.Node(ns[k])) && Distinct(seen)
    ensures Distinct(DfsAll(g, ns, seen))
    decreases Unseen(g, seen), 1 + |ns|
  {
    if ns != [] {
      VisitsOnce(g, ns[0], seen);
      var next := Dfs(g, ns[0], seen);
      assert Unseen(g, next) <= Unseen(g, seen);
      AllVisitedOnce(g, ns[1..], next);
    }
  }

  /** The `i`-th visited node has a successor with uses that was visited no later than itself. */
  ghost predicate SeesUses(g: FlowGraph, order: seq<nat>, i: nat)
    requires g.Valid()
  {
    i < |order| && exists s: nat :: g.Edge(order[i], s) && s in order[..i + 1] && g.use[s] != []
  }

  class Walker {
    const sets: LiveSets
    const exit: nat
    const visited: array<bool>
    /** The visits of the current pass. */
    ghost var order: seq<nat>

    ghost predicate Shape()
      reads sets, sets.ins, sets.outs
    {
      && sets.Valid() && visited.Length == |sets.g.succ|
      && sets.g.Node(exit) && sets.within == Reaching(sets.g, exit)
    }

    ghost predicate Valid()
      reads this, sets, sets.ins, sets.outs, visited
    {
      && Shape()
      && (forall n :: n in order ==> sets.g.Node(n) && n in sets.within)
      && (forall n: nat :: n < visited.Length ==> (visited[n] <==> n in order))
    }

    constructor (sets: LiveSets, exit: nat)
      requires sets.Valid() && sets.g.Node(exit) && sets.within == Reaching(sets.g, exit)
      ensures Valid() && this.sets == sets && this.exit == exit && order == []
      ensures fresh(visited)
    {
      this.sets, this.exit := sets, exit;
      visited := new bool[|sets.g.succ|](_ => false);
      order := [];
    }

    /** Adds the uses, then the outs that are not defined here; the uses do not count as a change. */
    method UpdateIn(n: nat) returns (changed: bool)
      requires Shape() && n < |sets.g.succ| && n in sets.within
      modifies sets.ins
      ensures Shape()
      ensures forall m: nat :: m < sets.ins.Length && m != n ==> sets.ins[m] == old(sets.ins[m])
      ensures forall v :: v in old(sets.ins[n]) ==> v in sets.ins[n]
      ensures forall v :: v in sets.g.use[n] ==> v in sets.ins[n]
      ensures forall v :: v in sets.outs[n] && sets.g.def[n] != Some(v) ==> v in sets.ins[n]
      ensures changed ==> sets.Lacking() < old(sets.Lacking())
      ensures sets.Lacking() <= old(sets.Lacking())
      ensures !changed && (forall v :: v in sets.g.use[n] ==> v in old(sets.ins[n])) ==>
        sets.ins[..] == old(sets.ins[..])
      ensures sets.outs[n] == [] ==>
        !changed && forall v :: v in sets.ins[n] ==> v in sets.g.use[n] || v in old(sets.ins[n])
    {
      hide Missing, LivePath, Reaching;
      changed := false;
      AddUses(n);
      label used: ghost var before := sets.ins[..];
      var i := 0;
      while i < |sets.outs[n]|
        invariant 0 <= i <= |sets.outs[n]| && Shape()
        invariant forall m: nat :: m < sets.ins.Length && m != n ==> sets.ins[m] == old(sets.ins[m])
        invariant forall v :: v in before[n] ==> v in sets.ins[n]
        invariant forall v :: v in sets.outs[n][..i] && sets.g.def[n] != Some(v) ==> v in sets.ins[n]
        invariant changed ==> sets.Lacking() < old(sets.Lacking())
        invariant sets.Lacking() <= old(sets.Lacking())
        invariant !changed ==> sets.ins[..] == before
        invariant sets.outs[n] == [] ==> !changed
      {
        var v := sets.outs[n][i];
        if sets.g.def[n] != Some(v) {
          LiveOutIsLiveIn(sets.g, sets.within, n, v);
          var added := sets.AddIn(n, v);
          if added {
            changed := true;
          }
        }
        i := i + 1;
      }
      assert !changed ==> sets.ins[n] == before[n];
    }

    method AddUses(n: nat)
      requires Shape() && n < |sets.g.succ| && n in sets.within
      modifies sets.ins
      ensures Shape()
      ensures forall m: nat :: m < sets.ins.Length && m != n ==> sets.ins[m] == old(sets.ins[m])
      ensures forall v :: v in sets.ins[n] <==> v in old(sets.ins[n]) || v in sets.g.use[n]
      ensures sets.Lacking() <= old(sets.Lacking())
      ensures (forall v :: v in sets.g.use[n] ==> v in old(sets.ins[n])) ==> sets.ins[..] == old(sets.ins[..])
    {
      hide Missing, LivePath, Reaching;
      var i := 0;
      while i < |sets.g.use[n]|
        invariant 0 <= i <= |sets.g.use[n]| && Shape()
        invariant forall m: nat :: m < sets.ins.Length && m != n ==> sets.ins[m] == old(sets.ins[m])
        invariant forall v :: v in sets.ins[n] <==> v in old(sets.ins[n]) || v in sets.g.use[n][..i]
        invariant sets.Lacking() <= old(sets.Lacking())
        invariant (forall v :: v in sets.g.use[n] ==> v in old(sets.ins[n])) ==> sets.ins[..] == old(sets.ins[..])
      {
        UseIsLive(sets.g, sets.within, n, sets.g.use[n][i]);
        var _ := sets.AddIn(n, sets.g.use[n][i]);
        i := i + 1;
      }
    }

    /** out(n) takes in the in lists of the successors. */
    method UpdateOut(n: nat) returns (changed: bool)
      requires Shape() && n < |sets.g.succ|
      modifies sets.outs
      ensures Shape()
      ensures forall m: nat :: m < sets.outs.Length && m != n ==> sets.outs[m] == old(sets.outs[m])
      ensures forall s: nat, v :: sets.g.Edge(n, s) && v in sets.ins[s] ==> v in sets.outs[n]
      ensures changed ==> sets.Lacking() < old(sets.Lacking())
      ensures !changed ==> sets.outs[..] == old(sets.outs[..])
      ensures (forall s: nat :: sets.g.Edge(n, s) ==> sets.ins[s] == []) ==> !changed
    {
      hide Missing, LivePath, Reaching;
      changed := false;
      var i := 0;
      while i < |sets.g.succ[n]|
        invariant 0 <= i <= |sets.g.succ[n]| && Shape()
        invariant forall m: nat :: m < sets.outs.Length && m != n ==> sets.outs[m] == old(sets.outs[m])
        invariant forall s: nat, v :: s in sets.g.succ[n][..i] && v in sets.ins[s] ==> v in sets.outs[n]
        invariant changed ==> sets.Lacking() < old(sets.Lacking())
        invariant !changed ==> sets.outs[..] == old(sets.outs[..])
        invariant (forall s: nat :: sets.g.Edge(n, s) ==> sets.ins[s] == []) ==> !changed
      {
        var added := CopyIn(n, sets.g.succ[n][i]);
        if added {
          changed := true;
        }
        i := i + 1;
      }
    }

    method CopyIn(n: nat, s: nat) returns (changed: bool)
      requires Shape() && n < |sets.g.succ| && s in sets.g.succ[n]
      modifies sets.outs
      ensures Shape()
      ensures forall m: nat :: m < sets.outs.Length && m != n ==> sets.outs[m] == old(sets.outs[m])
      ensures forall v :: v in old(sets.outs[n]) ==> v in sets.outs[n]
      ensures forall v :: v in sets.ins[s] ==> v in sets.outs[n]
      ensures changed ==> sets.Lacking() < old(sets.Lacking())
      ensures !changed ==> sets.outs[..] == old(sets.outs[..])
      ensures sets.ins[s] == [] ==> !changed
    {
      hide Missing, LivePath, Reaching;
      assert sets.g.Edge(n, s);
      changed := false;
      var j := 0;
      while j < |sets.ins[s]|
        invariant 0 <= j <= |sets.ins[s]| && Shape()
        invariant forall m: nat :: m < sets.outs.Length && m != n ==> sets.outs[m] == old(sets.outs[m])
        invariant forall v :: v in old(sets.outs[n]) ==> v in sets.outs[n]
        invariant forall v :: v in sets.ins[s][..j] ==> v in sets.outs[n]
        invariant changed ==> sets.Lacking() < old(sets.Lacking())
        invariant !changed ==> sets.outs[..] == old(sets.outs[..])
        invariant sets.ins[s] == [] ==> !changed
      {
        assert LiveIn(sets.g, sets.within, s, sets.ins[s][j]);
        var added := sets.AddOut(n, sets.ins[s][j]);
        if added {
          changed := true;
        }
        j := j + 1;
      }
    }

    ghost function Now(): Snapshot
      reads this, sets, sets.ins, sets.outs
    {
      Snapshot(order, sets.ins[..], sets.outs[..])
    }

    /** Marks `n` and updates its two lists. */
    method UpdateNode(n: nat) returns (changed: bool)
      requires Valid() && sets.g.Node(n) && n in sets.within && n !in order
      modifies this, visited, sets.ins, sets.outs
      ensures Valid() && order == old(order) + [n]
      ensures Step(sets.g, sets.within, old(Now()), Now(), changed)
    {
      hide Missing, LivePath, Reaching, Step, Counts;
      ghost var a := Now();
      visited[n] := true;
      order := order + [n];
      var c1 := UpdateIn(n);
      ghost var mid := Now();
      var c2 := UpdateOut(n);
      changed := c1 || c2;
      UpdateIsStep(sets.g, sets.within, a, mid, Now(), n, c1, c2);
    }

    /** Visits `n` and, through its predecessors, everything not visited before that leads to it. */
    method LivenessAtNode(n: nat) returns (changed: bool)
      requires Valid() && sets.g.Node(n) && n in sets.within
      modifies this, visited, sets.ins, sets.outs
      ensures Valid() && n in order
      ensures order == Dfs(sets.g, n, old(order))
      ensures PredsSeen(sets.g, old(order), order)
      ensures Step(sets.g, sets.within, old(Now()), Now(), changed)
      decreases Unseen(sets.g, order), 0
    {
      hide Step, Missing, LivePath, Reaching, DfsAll;
      if visited[n] {
        StepRefl(sets.g, sets.within, Now());
        return false;
      }
      ghost var g, a := sets.g, Now();
      assert n in Unseen(g, order) && n !in Unseen(g, order + [n]);
      changed := UpdateNode(n);
      NothingVisited(g, sets.within, n, a, Now(), changed);
      ghost var o1 := order;
      changed := VisitPreds(n, a, changed);
      AllVisited(g, sets.within, n, a, o1, Now(), changed);
    }

    method VisitPred(n: nat, i: nat, ghost a: Snapshot, ghost o1: seq<nat>, sofar: bool) returns (changed: bool)
      requires Valid() && Visiting(sets.g, sets.within, n, i, a, o1, Now(), sofar) && i < |sets.g.pred[n]|
      modifies this, visited, sets.ins, sets.outs
      ensures Valid() && Visiting(sets.g, sets.within, n, i + 1, a, o1, Now(), changed)
      decreases Unseen(sets.g, o1), 1
    {
      ghost var b := Now();
      PredReaches(sets.g, exit, n, sets.g.pred[n][i]);
      UnseenShrinks(sets.g, o1, order);
      changed := LivenessAtNode(sets.g.pred[n][i]);
      VisitingNext(sets.g, sets.within, n, i, a, o1, b, sofar, Now(), changed);
      changed := sofar || changed;
    }

    /** One pass: forget the visits, then walk from the exit. */
    method Pass() returns (changed: bool)
      requires Shape()
      modifies this, visited, sets.ins, sets.outs
      ensures Valid() && order == Dfs(sets.g, exit, [])
      ensures forall n: nat :: n in order <==> n in Reaching(sets.g, exit)
      ensures Step(sets.g, sets.within, old(Now()).(order := []), Now(), changed)
    {
      var i := 0;
      while i < visited.Length
        invariant 0 <= i <= visited.Length && Shape()
        invariant forall n :: 0 <= n < i ==> !visited[n]
        invariant sets.ins[..] == old(sets.ins[..]) && sets.outs[..] == old(sets.outs[..])
      {
        visited[i] := false;
        i := i + 1;
      }
      order := [];
      ExitReaches(sets.g, exit);
      changed := LivenessAtNode(exit);
      forall n: nat | n in Reaching(sets.g, exit)
        ensures n in order
      {
        WalkVisitsReaching(sets.g, exit, order, n);
      }
    }

    /** Clears the lists and repeats passes until one reports no change. Only nodes that reach the
        exit ever get entries, the entries are always live, and they are all of the live names
        exactly when the first pass reports a change or no use comes after an edge. */
    method CalculateLiveness() returns (passes: nat)
      requires Shape()
      modifies this, visited, sets.ins, sets.outs
      ensures Valid() && passes >= 1
      ensures forall n: nat :: n in order <==> n in Reaching(sets.g, exit)
      ensures passes > 1 <==> FirstPassReports(sets.g, exit)
      ensures Exact(sets.g, sets.within, sets.ins[..], sets.outs[..]) <==>
        FirstPassReports(sets.g, exit) || !UseAfterEdge(sets.g, sets.within)
      ensures !FirstPassReports(sets.g, exit) ==> UsesAlone(sets.g, sets.within, sets.ins[..], sets.outs[..])
    {
      hide Missing, Primed, Step, Dfs, FirstPassReports, UseAfterEdge, OnlyUses, UsesAlone, Closed, Exact, Reaching;
      Clear();
      passes := 0;
      var changed := true;
      while changed
        invariant Shape() && (passes > 0 ==> Valid())
        invariant passes > 0 ==> forall n: nat :: n in order <==> n in Reaching(sets.g, exit)
        invariant Stage(sets.g, sets.within, exit, Now(), passes, changed)
        decreases sets.Lacking(), changed
      {
        ghost var before := Now();
        changed := Pass();
        StepCounts(sets.g, sets.within, before.(order := []), Now(), changed);
        NextStage(sets.g, sets.within, exit, before, passes, Now(), changed);
        passes := passes + 1;
      }
      if passes == 1 {
        SilentFirstPass(sets.g, sets.within, order, sets.ins[..], sets.outs[..]);
        SilentLists(sets.g, sets.within, order, sets.ins[..], sets.outs[..]);
      } else {
        SoundAndClosedIsExact(sets.g, sets.within, sets.ins[..], sets.outs[..]);
      }
    }

    method Clear()
      requires Shape()
      modifies sets.ins, sets.outs
      ensures Shape()
      ensures forall n: nat :: n < sets.ins.Length ==> sets.ins[n] == [] && sets.outs[n] == []
    {
      var i := 0;
      while i < sets.ins.Length
        invariant 0 <= i <= sets.ins.Length && Shape()
        invariant forall n: nat :: n < i ==> sets.ins[n] == [] && sets.outs[n] == []
      {
        sets.ins[i] := [];
        sets.outs[i] := [];
        i := i + 1;
      }
    }

    /** The loop over the predecessors of `n`, which was just updated. */
    method VisitPreds(n: nat, ghost a: Snapshot, sofar: bool) returns (changed: bool)
      requires Valid() && Visiting(sets.g, sets.within, n, 0, a, order, Now(), sofar)
      modifies this, visited, sets.ins, sets.outs
      ensures Valid() && Visiting(sets.g, sets.within, n, |sets.g.pred[n]|, a, old(order), Now(), changed)
      decreases Unseen(sets.g, order), 2
    {
      ghost var o1 := order;
      changed := sofar;
      var i := 0;
      while i < |sets.g.pred[n]|
        invariant i <= |sets.g.pred[n]| && Valid() && Visiting(sets.g, sets.within, n, i, a, o1, Now(), changed)
      {
        changed := VisitPred(n, i, a, o1, changed);
        i := i + 1;
      }
    }
  }

  /** Where the loop over the predecessors of `n` stands before its `i`-th iteration. */
  ghost predicate Visiting(g: FlowGraph, within: iset<nat>, n: nat, i: nat, a: Snapshot, o1: seq<nat>,
                           now: Snapshot, changed: bool)
  {
    && a.Fits(g) && now.Fits(g)
    && g.Node(n) && n in within && n in o1 && o1 <= now.order && i <= |g.pred[n]|
    && Step(g, within, a, now, changed)
    && DfsAll(g, g.pred[n], o1) == DfsAll(g, g.pred[n][i..], now.order)
    && (forall p :: p in g.pred[n][..i] ==> p in now.order)
    && PredsSeen(g, o1, now.order)
  }

  lemma NothingVisited(g: FlowGraph, within: iset<nat>, n: nat, a: Snapshot, now: Snapshot, changed: bool)
    requires a.Fits(g) && now.Fits(g) && g.Node(n) && n in within && n in now.order
    requires Step(g, within, a, now, changed)
    ensures Visiting(g, within, n, 0, a, now.order, now, changed)
  {
    assert g.pred[n][0..] == g.pred[n];
    hide Step, DfsAll;
  }

  /** After the loop over the predecessors the visit of `n` is complete. */
  lemma AllVisited(g: FlowGraph, within: iset<nat>, n: nat, a: Snapshot, o1: seq<nat>, now: Snapshot, changed: bool)
    requires a.Fits(g) && n !in a.order && o1 == a.order + [n]
    requires g.Node(n) && Visiting(g, within, n, |g.pred[n]|, a, o1, now, changed)
    ensures now.Fits(g) && n in now.order && now.order == Dfs(g, n, a.order)
    ensures PredsSeen(g, a.order, now.order) && Step(g, within, a, now, changed)
  {
    hide Step;
    assert g.pred[n][..|g.pred[n]|] == g.pred[n] && g.pred[n][|g.pred[n]|..] == [];
    assert forall k :: 0 <= k < |g.pred[n]| ==> g.Node(g.pred[n][k]);
    assert now.order == DfsAll(g, g.pred[n], o1);
  }

  lemma VisitingNext(g: FlowGraph, within: iset<nat>, n: nat, i: nat, a: Snapshot, o1: seq<nat>,
                     b: Snapshot, sofar: bool, now: Snapshot, changed: bool)
    requires Visiting(g, within, n, i, a, o1, b, sofar) && i < |g.pred[n]|
    requires now.Fits(g) && Step(g, within, b, now, changed)
    requires now.order == Dfs(g, g.pred[n][i], b.order) && g.pred[n][i] in now.order
    requires PredsSeen(g, b.order, now.order)
    ensures Visiting(g, within, n, i + 1, a, o1, now, sofar || changed)
  {
    StepTrans(g, within, a, b, sofar, now, changed);
    PredsSeenTrans(g, o1, b.order, now.order);
    DfsAllStep(g, g.pred[n], i, o1, b.order);
    assert g.pred[n][..i + 1] == g.pred[n][..i] + [g.pred[n][i]];
    assert forall p :: p in b.order ==> p in now.order;
  }

  /** Some node the walk reaches is used after an edge: the exit of an edge inside `within` has uses. */
  ghost predicate UseAfterEdge(g: FlowGraph, within: iset<nat>)
    requires g.Valid()
  {
    exists n: nat, s: nat :: g.Edge(n, s) && n in within && s in within && g.use[s] != []
  }

  /** The first pass already reports a change: decided by the visit order of the walk alone. */
  ghost predicate FirstPassReports(g: FlowGraph, exit: nat)
    requires g.Valid() && g.Node(exit)
  {
    exists k: nat :: SeesUses(g, Dfs(g, exit, []), k)
  }

  /** What a silent first pass leaves is right only when no use comes after an edge. */
  lemma SilentFirstPass(g: FlowGraph, within: iset<nat>, order: seq<nat>, ins: seq<seq<Name>>, outs: seq<seq<Name>>)
    requires g.Valid() && |ins| == |g.succ| && |outs| == |g.succ|
    requires OnlyUses(g, order, ins, outs) && Primed(g, within, ins)
    ensures Exact(g, within, ins, outs) <==> !UseAfterEdge(g, within)
  {
    if UseAfterEdge(g, within) {
      var n: nat, s: nat :| g.Edge(n, s) && n in within && s in within && g.use[s] != [];
      assert g.Node(s);
      UseIsLive(g, within, s, g.use[s][0]);
      assert LiveOut(g, within, n, g.use[s][0]) && g.use[s][0] !in outs[n];
    } else {
      forall n: nat, v | n < |g.succ| && n in within
        ensures !LiveOut(g, within, n, v)
      {
        NotLiveOut(g, within, n, v);
      }
      forall n: nat, v | n < |g.succ| && n in within
        ensures v in ins[n] <==> LiveIn(g, within, n, v)
      {
        LivenessEquations(g, within, n, v);
      }
    }
  }

  /** The out lists are empty, and the in lists hold the uses of the nodes of `within`. */
  ghost predicate UsesAlone(g: FlowGraph, within: iset<nat>, ins: seq<seq<Name>>, outs: seq<seq<Name>>)
    requires g.Valid() && |ins| == |g.succ| && |outs| == |g.succ|
  {
    && (forall m: nat :: m < |outs| ==> outs[m] == [])
    && (forall m: nat, v :: m < |ins| ==> (v in ins[m] <==> m in within && v in g.use[m]))
  }

  lemma SilentLists(g: FlowGraph, within: iset<nat>, order: seq<nat>, ins: seq<seq<Name>>, outs: seq<seq<Name>>)
    requires g.Valid() && |ins| == |g.succ| && |outs| == |g.succ|
    requires OnlyUses(g, order, ins, outs) && Primed(g, within, ins) && forall n: nat :: n in order <==> n in within
    ensures UsesAlone(g, within, ins, outs)
  {
  }

  lemma NotLiveOut(g: FlowGraph, within: iset<nat>, n: nat, v: Name)
    requires g.Valid() && n < |g.succ| && n in within && !UseAfterEdge(g, within)
    ensures !LiveOut(g, within, n, v)
  {
    if LiveOut(g, within, n, v) {
      var m: nat :| g.Edge(n, m) && LiveIn(g, within, m, v);
      var p :| LivePath(g, within, v, p) && p[0] == m;
      var last := |p| - 1;
      assert p[last] in within && g.use[p[last]] != [];
      if last > 0 {
        assert g.Edge(p[last - 1], p[last]) && p[last - 1] in within;
      }
      assert UseAfterEdge(g, within);
    }
  }

  /** After a whole walk from the exit the visited nodes are exactly those that reach it. */
  lemma WalkVisitsReaching(g: FlowGraph, exit: nat, order: seq<nat>, n: nat)
    requires g.Valid() && g.Node(exit) && exit in order && PredsSeen(g, [], order)
    requires n in Reaching(g, exit)
    ensures n in order
  {
    var w :| Walk(g, w) && w[0] == n && w[|w| - 1] == exit;
    ClosedUnderPred(g, w, order);
  }

  /** What the loop over passes keeps. */
  ghost predicate Stage(g: FlowGraph, within: iset<nat>, exit: nat, now: Snapshot, passes: nat, changed: bool)
    requires now.Fits(g) && g.Node(exit)
  {
    && (passes == 0 ==> changed && forall n: nat :: n < |g.succ| ==> now.ins[n] == [] && now.outs[n] == [])
    && (passes > 0 ==> Primed(g, within, now.ins))
    && (passes == 1 && !changed ==> OnlyUses(g, now.order, now.ins, now.outs) && !FirstPassReports(g, exit))
    && (passes > 1 || (passes == 1 && changed) ==> FirstPassReports(g, exit))
    && (passes > 1 && !changed ==> Closed(g, within, now.ins, now.outs))
  }

  lemma NextStage(g: FlowGraph, within: iset<nat>, exit: nat, before: Snapshot, passes: nat, now: Snapshot,
                  changed: bool)
    requires before.Fits(g) && now.Fits(g) && g.Node(exit)
    requires within == Reaching(g, exit) && forall n: nat :: n in now.order <==> n in within
    requires now.order == Dfs(g, exit, [])
    requires Stage(g, within, exit, before, passes, true)
    requires Step(g, within, before.(order := []), now, changed)
    ensures Stage(g, within, exit, now, passes + 1, changed)
  {
    assert now.order[0..] == now.order;
    PassPrimes(g, within, before, now, changed);
    if passes == 0 {
      FirstPassEnds(g, within, before.(order := []), now, changed);
      assert FirstPassReports(g, exit) <==> exists k: nat :: SeesUses(g, now.order, k);
    } else if !changed {
      QuietPassCloses(g, within, before.(order := []), now);
    }
    hide Primed, Step, OnlyUses, FirstPassReports, Closed, Dfs, Reaching;
  }

  lemma PassPrimes(g: FlowGraph, within: iset<nat>, before: Snapshot, now: Snapshot, changed: bool)
    requires before.Fits(g) && now.Fits(g) && (forall n: nat :: n in within ==> n in now.order)
    requires Touches(g, before.(order := []), now)
    ensures Primed(g, within, now.ins)
  {
    assert now.order[0..] == now.order;
  }

  /** A pass over empty lists reports a change exactly when some visit sees uses. */
  lemma FirstPassEnds(g: FlowGraph, within: iset<nat>, before: Snapshot, now: Snapshot, changed: bool)
    requires before.Fits(g) && now.Fits(g) && before.order == [] && Step(g, within, before, now, changed)
    requires forall n: nat :: n < |g.succ| ==> before.ins[n] == [] && before.outs[n] == []
    ensures changed <==> exists k: nat :: SeesUses(g, now.order, k)
    ensures !changed ==> OnlyUses(g, now.order, now.ins, now.outs)
  {
    hide Touches, Counts, QuietMeansClosed, SeesUses;
    if exists k: nat :: SeesUses(g, now.order, k) {
      var k: nat :| SeesUses(g, now.order, k);
      assert 0 <= k;
    }
  }

  /** A later pass without a change leaves closed lists. */
  lemma QuietPassCloses(g: FlowGraph, within: iset<nat>, before: Snapshot, now: Snapshot)
    requires before.Fits(g) && now.Fits(g) && before.order == [] && Step(g, within, before, now, false)
    requires Primed(g, within, before.ins) && forall n: nat :: n in within ==> n in now.order
    ensures Closed(g, within, now.ins, now.outs)
  {
    hide Touches, Counts, ReportsUses, SilentWithoutUses, NodeClosed;
    forall n: nat | n < |g.succ| && n in within
      ensures NodeClosed(g, now.ins, now.outs, n)
    {
      var k: nat :| k < |now.order| && now.order[k] == n;
    }
  }

  lemma UnseenShrinks(g: FlowGraph, a: seq<nat>, b: seq<nat>)
    requires a <= b
    ensures Unseen(g, b) <= Unseen(g, a)
  {
  }

  lemma DfsAllStep(g: FlowGraph, ns: seq<nat>, i: nat, o1: seq<nat>, order: seq<nat>)
    requires g.Valid() && i < |ns| && forall k :: 0 <= k < |ns| ==> g.Node(ns[k])
    requires DfsAll(g, ns, o1) == DfsAll(g, ns[i..], order)
    ensures DfsAll(g, ns, o1) == DfsAll(g, ns[i + 1..], Dfs(g, ns[i], order))
  {
    assert ns[i..][1..] == ns[i + 1..];
  }

  lemma StepRefl(g: FlowGraph, within: iset<nat>, a: Snapshot)
    requires a.Fits(g)
    ensures Step(g, within, a, a, false)
  {
    assert forall k: nat :: |a.order| <= k ==> !SeesUses(g, a.order, k);
  }

  lemma PredsSeenTrans(g: FlowGraph, a: seq<nat>, b: seq<nat>, c: seq<nat>)
    requires g.Valid() && b <= c && PredsSeen(g, a, b) && PredsSeen(g, b, c)
    ensures PredsSeen(g, a, c)
  {
    assert forall x :: x in b ==> x in c;
  }

  lemma RecordedUseIsSeen(g: FlowGraph, order: seq<nat>, ins: seq<seq<Name>>, n: nat, s: nat)
    requires g.Valid() && |ins| == |g.succ| && g.Edge(n, s) && g.Node(s)
    requires ins[s] != [] && forall v :: v in ins[s] ==> s in order + [n] && v in g.use[s]
    ensures SeesUses(g, order + [n], |order|)
  {
    assert ins[s][0] in ins[s];
    assert (order + [n])[..|order| + 1] == order + [n];
  }

  /** The two updates of one node make a step. */
  lemma UpdateIsStep(g: FlowGraph, within: iset<nat>, a: Snapshot, mid: Snapshot, b: Snapshot, n: nat,
                     c1: bool, c2: bool)
    requires a.Fits(g) && mid.Fits(g) && b.Fits(g) && g.Node(n) && n in within
    requires n !in a.order && mid.order == b.order == a.order + [n]
    // UpdateIn
    requires mid.outs == a.outs
    requires forall m: nat :: m < |a.ins| && m != n ==> mid.ins[m] == a.ins[m]
    requires forall v :: v in a.ins[n] ==> v in mid.ins[n]
    requires forall v :: v in g.use[n] ==> v in mid.ins[n]
    requires forall v :: v in a.outs[n] && g.def[n] != Some(v) ==> v in mid.ins[n]
    requires Counts(g, a, mid, c1)
    requires !c1 && (forall v :: v in g.use[n] ==> v in a.ins[n]) ==> mid.ins == a.ins
    requires a.outs[n] == [] ==> !c1 && forall v :: v in mid.ins[n] ==> v in g.use[n] || v in a.ins[n]
    // UpdateOut
    requires b.ins == mid.ins
    requires forall m: nat :: m < |a.ins| && m != n ==> b.outs[m] == a.outs[m]
    requires forall s: nat, v :: g.Edge(n, s) && v in b.ins[s] ==> v in b.outs[n]
    requires Counts(g, mid, b, c2)
    requires !c2 ==> b.outs == a.outs
    requires (forall s: nat :: g.Edge(n, s) ==> b.ins[s] == []) ==> !c2
    ensures Step(g, within, a, b, c1 || c2)
  {
    assert forall s: nat :: g.Edge(n, s) ==> g.Node(s);
    if SeesUses(g, b.order, |a.order|) && UsesIn(g, a.order, a.ins) && Blank(a.order, a.outs) {
      var s: nat :| g.Edge(n, s) && s in b.order[..|a.order| + 1] && g.use[s] != [];
      assert s in a.order || s == n;
      assert g.use[s][0] in b.ins[s];
      assert g.use[s][0] in b.outs[n];
    }
    if OnlyUses(g, a.order, a.ins, a.outs) {
      assert b.order[..|a.order| + 1] == b.order;
      forall s: nat | g.Edge(n, s) && b.ins[s] != []
        ensures SeesUses(g, b.order, |a.order|)
      {
        RecordedUseIsSeen(g, a.order, b.ins, n, s);
      }
    }
    StepOfNode(g, within, a, b, n, c1 || c2);
  }

  ghost predicate PredsSeen(g: FlowGraph, from: seq<nat>, to: seq<nat>)
    requires g.Valid()
  {
    forall m, p: nat :: m in to && m !in from && g.Node(m) && p in g.pred[m] ==> p in to
  }

  ghost predicate UsesIn(g: FlowGraph, order: seq<nat>, ins: seq<seq<Name>>)
    requires g.Valid() && |ins| == |g.succ|
  {
    forall m: nat, v :: m in order && m < |ins| && v in g.use[m] ==> v in ins[m]
  }

  /** Every node the walk is meant to reach has its uses in its in list. */
  ghost predicate Primed(g: FlowGraph, within: iset<nat>, ins: seq<seq<Name>>)
    requires g.Valid() && |ins| == |g.succ|
  {
    forall m: nat, v :: m < |ins| && m in within && v in g.use[m] ==> v in ins[m]
  }

  /** Nodes outside `order` have empty out lists. */
  ghost predicate Blank(order: seq<nat>, outs: seq<seq<Name>>) {
    forall m: nat :: m < |outs| && m !in order ==> outs[m] == []
  }

  /** Nothing but uses of visited nodes has been recorded. */
  ghost predicate OnlyUses(g: FlowGraph, order: seq<nat>, ins: seq<seq<Name>>, outs: seq<seq<Name>>)
    requires g.Valid() && |ins| == |g.succ| && |outs| == |g.succ|
  {
    && (forall m: nat :: m < |outs| ==> outs[m] == [])
    && (forall m: nat, v :: m < |ins| && v in ins[m] ==> m in order && v in g.use[m])
  }

  /** The recorded lists of a pass at one moment, with the visits so far. */
  datatype Snapshot = Snapshot(order: seq<nat>, ins: seq<seq<Name>>, outs: seq<seq<Name>>) {
    ghost predicate Fits(g: FlowGraph) {
      g.Valid() && |ins| == |g.succ| && |outs| == |g.succ|
    }
  }

  /** Only the nodes visited in between changed, and only by gaining names. */
  ghost predicate Touches(g: FlowGraph, a: Snapshot, b: Snapshot)
    requires a.Fits(g) && b.Fits(g)
  {
    && a.order <= b.order
    && (forall m: nat :: m < |a.ins| && m !in b.order[|a.order|..] ==> b.ins[m] == a.ins[m] && b.outs[m] == a.outs[m])
    && (forall m: nat, v :: m < |a.ins| && v in a.ins[m] ==> v in b.ins[m])
    && UsesIn(g, b.order[|a.order|..], b.ins)
  }

  ghost predicate Counts(g: FlowGraph, a: Snapshot, b: Snapshot, changed: bool)
    requires a.Fits(g) && b.Fits(g)
  {
    && Missing(g, b.ins, b.outs) <= Missing(g, a.ins, a.outs)
    && (changed ==> Missing(g, b.ins, b.outs) < Missing(g, a.ins, a.outs))
  }

  /** With the uses already in, a silent stretch changed nothing and its nodes satisfy the equations. */
  ghost predicate QuietMeansClosed(g: FlowGraph, within: iset<nat>, a: Snapshot, b: Snapshot, changed: bool)
    requires a.Fits(g) && b.Fits(g)
  {
    !changed && Primed(g, within, a.ins) ==>
      && b.ins == a.ins && b.outs == a.outs
      && forall k: nat :: |a.order| <= k < |b.order| && g.Node(b.order[k]) ==> NodeClosed(g, b.ins, b.outs, b.order[k])
  }

  /** A stretch of the first pass that meets a use behind it reports a change. */
  ghost predicate ReportsUses(g: FlowGraph, a: Snapshot, b: Snapshot, changed: bool)
    requires a.Fits(g) && b.Fits(g)
  {
    UsesIn(g, a.order, a.ins) && Blank(a.order, a.outs) ==>
      forall k: nat :: |a.order| <= k && SeesUses(g, b.order, k) ==> changed
  }

  /** A stretch of the first pass that meets none stays silent and records only uses. */
  ghost predicate SilentWithoutUses(g: FlowGraph, a: Snapshot, b: Snapshot, changed: bool)
    requires a.Fits(g) && b.Fits(g)
  {
    OnlyUses(g, a.order, a.ins, a.outs) && (forall k: nat :: |a.order| <= k ==> !SeesUses(g, b.order, k)) ==>
      !changed && OnlyUses(g, b.order, b.ins, b.outs)
  }

  /** What a stretch of a pass from `a` to `b` that reports `changed` has done. */
  ghost predicate Step(g: FlowGraph, within: iset<nat>, a: Snapshot, b: Snapshot, changed: bool)
    requires a.Fits(g) && b.Fits(g)
  {
    && Touches(g, a, b) && Counts(g, a, b, changed) && QuietMeansClosed(g, within, a, b, changed)
    && ReportsUses(g, a, b, changed) && SilentWithoutUses(g, a, b, changed)
  }

  lemma StepCounts(g: FlowGraph, within: iset<nat>, a: Snapshot, b: Snapshot, changed: bool)
    requires a.Fits(g) && b.Fits(g) && Step(g, within, a, b, changed)
    ensures Counts(g, a, b, changed)
  {
  }

  lemma StepOfNode(g: FlowGraph, within: iset<nat>, a: Snapshot, b: Snapshot, n: nat, changed: bool)
    requires a.Fits(g) && b.Fits(g) && g.Node(n) && b.order == a.order + [n]
    requires forall m: nat :: m < |a.ins| && m != n ==> b.ins[m] == a.ins[m] && b.outs[m] == a.outs[m]
    requires forall v :: v in a.ins[n] || v in g.use[n] ==> v in b.ins[n]
    requires Counts(g, a, b, changed)
    requires !changed && (forall v :: v in g.use[n] ==> v in a.ins[n]) ==>
               b.ins == a.ins && b.outs == a.outs && NodeClosed(g, b.ins, b.outs, n)
    requires UsesIn(g, a.order, a.ins) && Blank(a.order, a.outs) && SeesUses(g, b.order, |a.order|) ==> changed
    requires OnlyUses(g, a.order, a.ins, a.outs) && !SeesUses(g, b.order, |a.order|) ==>
               !changed && b.outs[n] == [] && forall v :: v in b.ins[n] ==> v in g.use[n]
    requires n in within
    ensures Step(g, within, a, b, changed)
  {
    assert b.order[|a.order|..] == [n];
    assert forall k: nat :: |a.order| <= k && SeesUses(g, b.order, k) ==> k == |a.order|;
    assert Touches(g, a, b);
    assert QuietMeansClosed(g, within, a, b, changed);
    assert ReportsUses(g, a, b, changed);
    assert SilentWithoutUses(g, a, b, changed);
  }

  lemma SeesUsesInPrefix(g: FlowGraph, o1: seq<nat>, o2: seq<nat>, k: nat)
    requires g.Valid() && o1 <= o2 && k < |o1|
    ensures SeesUses(g, o1, k) <==> SeesUses(g, o2, k)
  {
    assert o1[..k + 1] == o2[..k + 1];
  }

  lemma UsesInParts(g: FlowGraph, a: seq<nat>, b: seq<nat>, ins: seq<seq<Name>>)
    requires g.Valid() && |ins| == |g.succ|
    ensures UsesIn(g, a + b, ins) <==> UsesIn(g, a, ins) && UsesIn(g, b, ins)
  {
    assert forall m :: m in a + b <==> m in a || m in b;
  }

  lemma UsesStay(g: FlowGraph, order: seq<nat>, before: seq<seq<Name>>, after: seq<seq<Name>>)
    requires g.Valid() && |before| == |g.succ| && |after| == |g.succ|
    requires UsesIn(g, order, before) && forall m: nat, v :: m < |before| && v in before[m] ==> v in after[m]
    ensures UsesIn(g, order, after)
  {
  }

  lemma TouchesTrans(g: FlowGraph, a: Snapshot, b: Snapshot, c: Snapshot)
    requires a.Fits(g) && b.Fits(g) && c.Fits(g) && Touches(g, a, b) && Touches(g, b, c)
    ensures Touches(g, a, c)
    ensures UsesIn(g, a.order, a.ins) ==> UsesIn(g, b.order, b.ins)
    ensures Blank(a.order, a.outs) ==> Blank(b.order, b.outs)
  {
    var first, second := b.order[|a.order|..], c.order[|b.order|..];
    assert c.order[|a.order|..] == first + second;
    assert b.order == a.order + first;
    UsesStay(g, first, b.ins, c.ins);
    UsesInParts(g, first, second, c.ins);
    UsesInParts(g, a.order, first, b.ins);
    if UsesIn(g, a.order, a.ins) {
      UsesStay(g, a.order, a.ins, b.ins);
    }
    hide UsesIn;
    assert forall m :: m in first + second <==> m in first || m in second;
    assert forall m :: m in b.order <==> m in a.order || m in first;
  }

  lemma StepTrans(g: FlowGraph, within: iset<nat>, a: Snapshot, b: Snapshot, c1: bool, c: Snapshot, c2: bool)
    requires a.Fits(g) && b.Fits(g) && c.Fits(g)
    requires Step(g, within, a, b, c1) && Step(g, within, b, c, c2)
    ensures Step(g, within, a, c, c1 || c2)
  {
    TouchesTrans(g, a, b, c);
    forall k: nat | k < |b.order|
      ensures SeesUses(g, b.order, k) <==> SeesUses(g, c.order, k)
    {
      SeesUsesInPrefix(g, b.order, c.order, k);
    }
    assert QuietMeansClosed(g, within, a, c, c1 || c2);
    assert ReportsUses(g, a, c, c1 || c2);
    assert SilentWithoutUses(g, a, c, c1 || c2);
  }
}
