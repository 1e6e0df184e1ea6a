/** Liveness by paths: the reference both liveness loops are measured against. */
module Liveness {
  import opened Wrappers
  import opened Sequences

  /** What can be live: a variable record or a numbered temporary (mcfg_var_t). */
  datatype Name = Var(id: nat) | Reg(num: nat)

  /** A control flow graph with its edges in both directions and each node's uses and definition. */
  datatype FlowGraph = FlowGraph(
    succ: seq<seq<nat>>,
    pred: seq<seq<nat>>,
    use: seq<seq<Name>>,
    def: seq<Option<Name>>
  ) {
    ghost predicate Valid() {
      && |pred| == |succ| && |use| == |succ| && |def| == |succ|
      && (forall n, k :: 0 <= n < |succ| && 0 <= k < |succ[n]| ==> succ[n][k] < |succ|)
      && (forall n, k :: 0 <= n < |succ| && 0 <= k < |pred[n]| ==> pred[n][k] < |succ|)
      && (forall n: nat, m: nat :: n < |succ| && m < |succ| ==> (m in succ[n] <==> n in pred[m]))
    }

    ghost predicate Node(n: nat) {
      n < |succ|
    }

    ghost predicate Edge(n: nat, m: nat) {
      n < |succ| && m in succ[n]
    }

    /** Every name some node uses. */
    ghost function Universe(): set<Name>
      requires Valid()
    {
      set n: nat, v | n < |use| && v in use[n] :: v
    }
  }

  /** `p` runs along edges inside `within`, ends at a use of `v` and meets no definition of `v` before it. */
  ghost predicate LivePath(g: FlowGraph, within: iset<nat>, v: Name, p: seq<nat>)
    requires g.Valid()
  {
    && |p| > 0
    && (forall i :: 0 <= i < |p| ==> g.Node(p[i]) && p[i] in within)
    && (forall i :: 0 <= i < |p| - 1 ==> g.Edge(p[i], p[i + 1]))
    && (forall i :: 0 <= i < |p| - 1 ==> g.def[p[i]] != Some(v))
    && v in g.use[p[|p| - 1]]
  }

  /** Some path from `n` reads `v` before redefining it. */
  ghost predicate LiveIn(g: FlowGraph, within: iset<nat>, n: nat, v: Name)
    requires g.Valid()
  {
    exists p :: LivePath(g, within, v, p) && p[0] == n
  }

  ghost predicate LiveOut(g: FlowGraph, within: iset<nat>, n: nat, v: Name)
    requires g.Valid()
  {
    exists m: nat :: g.Edge(n, m) && LiveIn(g, within, m, v)
  }

  ghost function All(g: FlowGraph): iset<nat> {
    iset n: nat | g.Node(n)
  }

  lemma UseIsLive(g: FlowGraph, within: iset<nat>, n: nat, v: Name)
    requires g.Valid() && n < |g.succ| && n in within && v in g.use[n]
    ensures LiveIn(g, within, n, v)
  {
    assert LivePath(g, within, v, [n]);
  }

  lemma LiveOutIsLiveIn(g: FlowGraph, within: iset<nat>, n: nat, v: Name)
    requires g.Valid() && n < |g.succ| && n in within
    requires LiveOut(g, within, n, v) && g.def[n] != Some(v)
    ensures LiveIn(g, within, n, v)
  {
    var m: nat :| g.Edge(n, m) && LiveIn(g, within, m, v);
    var p :| LivePath(g, within, v, p) && p[0] == m;
    assert LivePath(g, within, v, [n] + p);
  }

  /** The path sets solve in = use + (out - def), out = union of in over the successors. */
  lemma LivenessEquations(g: FlowGraph, within: iset<nat>, n: nat, v: Name)
    requires g.Valid() && n < |g.succ| && n in within
    ensures LiveIn(g, within, n, v) <==> v in g.use[n] || (LiveOut(g, within, n, v) && g.def[n] != Some(v))
  {
    if v in g.use[n] {
      UseIsLive(g, within, n, v);
    } else if LiveOut(g, within, n, v) && g.def[n] != Some(v) {
      LiveOutIsLiveIn(g, within, n, v);
    } else if LiveIn(g, within, n, v) {
      var p :| LivePath(g, within, v, p) && p[0] == n;
      assert |p| > 1;
      assert g.Edge(p[0], p[1]);
      assert LivePath(g, within, v, p[1..]);
    }
  }

  /** `ins` and `outs` contain at least what the equations ask for at every node of `within`. */
  ghost predicate Closed(g: FlowGraph, within: iset<nat>, ins: seq<seq<Name>>, outs: seq<seq<Name>>)
    requires g.Valid() && |ins| == |g.succ| && |outs| == |g.succ|
  {
    forall n: nat :: n < |g.succ| && n in within ==> NodeClosed(g, ins, outs, n)
  }

  ghost predicate NodeClosed(g: FlowGraph, ins: seq<seq<Name>>, outs: seq<seq<Name>>, n: nat)
    requires g.Valid() && |ins| == |g.succ| && |outs| == |g.succ| && n < |g.succ|
  {
    && (forall v :: v in g.use[n] ==> v in ins[n])
    && (forall v :: v in outs[n] && g.def[n] != Some(v) ==> v in ins[n])
    && (forall m: nat, v :: g.Edge(n, m) && v in ins[m] ==> v in outs[n])
  }

  /** The path sets are the least solution: whatever is closed contains them. */
  lemma {:induction false} ClosedContainsPath(g: FlowGraph, within: iset<nat>, ins: seq<seq<Name>>,
                                              outs: seq<seq<Name>>, v: Name, p: seq<nat>)
    requires g.Valid() && |ins| == |g.succ| && |outs| == |g.succ|
    requires Closed(g, within, ins, outs) && LivePath(g, within, v, p)
    ensures v in ins[p[0]]
  {
    assert g.Node(p[0]) && p[0] in within;
    assert NodeClosed(g, ins, outs, p[0]);
    if |p| > 1 {
      assert g.Edge(p[0], p[1]);
      assert LivePath(g, within, v, p[1..]);
      ClosedContainsPath(g, within, ins, outs, v, p[1..]);
    }
  }

  /** The lists hold exactly the path sets on `within`. */
  ghost predicate Exact(g: FlowGraph, within: iset<nat>, ins: seq<seq<Name>>, outs: seq<seq<Name>>)
    requires g.Valid() && |ins| == |g.succ| && |outs| == |g.succ|
  {
    && (forall n: nat, v :: n < |g.succ| && n in within ==> (v in ins[n] <==> LiveIn(g, within, n, v)))
    && (forall n: nat, v :: n < |g.succ| && n in within ==> (v in outs[n] <==> LiveOut(g, within, n, v)))
  }

  /** The lists hold nothing that is not live, and nothing at all outside `within`. */
  ghost predicate Sound(g: FlowGraph, within: iset<nat>, ins: seq<seq<Name>>, outs: seq<seq<Name>>)
    requires g.Valid() && |ins| == |g.succ| && |outs| == |g.succ|
  {
    && (forall n: nat, v :: n < |g.succ| && v in ins[n] ==> LiveIn(g, within, n, v))
    && (forall n: nat, v :: n < |g.succ| && v in outs[n] ==> LiveOut(g, within, n, v))
  }

  lemma LiveInWithin(g: FlowGraph, within: iset<nat>, n: nat, v: Name)
    requires g.Valid() && LiveIn(g, within, n, v)
    ensures n < |g.succ| && n in within && v in g.Universe()
  {
    var p :| LivePath(g, within, v, p) && p[0] == n;
    var last := p[|p| - 1];
    assert g.Node(p[0]) && g.Node(last);
    assert last < |g.use| && v in g.use[last];
  }

  /** Sound and closed together are exact. */
  lemma SoundAndClosedIsExact(g: FlowGraph, within: iset<nat>, ins: seq<seq<Name>>, outs: seq<seq<Name>>)
    requires g.Valid() && |ins| == |g.succ| && |outs| == |g.succ|
    requires Sound(g, within, ins, outs) && Closed(g, within, ins, outs)
    ensures Exact(g, within, ins, outs)
  {
    forall n: nat, v | n < |g.succ| && LiveIn(g, within, n, v)
      ensures v in ins[n]
    {
      var p :| LivePath(g, within, v, p) && p[0] == n;
      ClosedContainsPath(g, within, ins, outs, v, p);
    }
    forall n: nat, v | n < |g.succ| && n in within && LiveOut(g, within, n, v)
      ensures v in outs[n]
    {
      var m: nat :| g.Edge(n, m) && LiveIn(g, within, m, v);
      LiveInWithin(g, within, m, v);
      assert v in ins[m];
      assert NodeClosed(g, ins, outs, n);
    }
  }

  /** What is not in the lists yet; it shrinks whenever a pass adds something. */
  ghost function Missing(g: FlowGraph, ins: seq<seq<Name>>, outs: seq<seq<Name>>): set<(bool, nat, Name)>
    requires g.Valid() && |ins| == |g.succ| && |outs| == |g.succ|
  {
    (set n: nat, v | n < |g.succ| && v in g.Universe() && v !in ins[n] :: (false, n, v)) +
    (set n: nat, v | n < |g.succ| && v in g.Universe() && v !in outs[n] :: (true, n, v))
  }

  lemma MissingShrinks(g: FlowGraph, ins: seq<seq<Name>>, outs: seq<seq<Name>>, n: nat, v: Name)
    requires g.Valid() && |ins| == |g.succ| && |outs| == |g.succ| && n < |g.succ| && v in g.Universe()
    ensures v !in ins[n] ==> Missing(g, ins[n := ins[n] + [v]], outs) < Missing(g, ins, outs)
    ensures v !in outs[n] ==> Missing(g, ins, outs[n := outs[n] + [v]]) < Missing(g, ins, outs)
  {
    var all := Missing(g, ins, outs);
    if v !in ins[n] {
      assert (false, n, v) in all && (false, n, v) !in Missing(g, ins[n := ins[n] + [v]], outs);
    }
    if v !in outs[n] {
      assert (true, n, v) in all && (true, n, v) !in Missing(g, ins, outs[n := outs[n] + [v]]);
    }
  }

  /** The in and out lists of a graph's nodes while a liveness loop fills them. */
  class LiveSets {
    const g: FlowGraph
    /** The nodes the loop is meant to reach. */
    ghost const within: iset<nat>
    const ins: array<seq<Name>>
    const outs: array<seq<Name>>

    ghost predicate Valid()
      reads ins, outs
    {
      && g.Valid() && ins.Length == |g.succ| && outs.Length == |g.succ| && ins != outs
      && Sound(g, within, ins[..], outs[..])
      && (forall n :: 0 <= n < ins.Length ==> Distinct(ins[n]) && Distinct(outs[n]))
    }

    ghost function Lacking(): set<(bool, nat, Name)>
      requires g.Valid() && ins.Length == |g.succ| && outs.Length == |g.succ|
      reads ins, outs
    {
      Missing(g, ins[..], outs[..])
    }

    constructor (g: FlowGraph, ghost within: iset<nat>)
      requires g.Valid()
      ensures Valid() && this.g == g && this.within == within
      ensures forall n :: 0 <= n < ins.Length ==> ins[n] == [] && outs[n] == []
      ensures fresh(ins) && fresh(outs)
    {
      this.g, this.within := g, within;
      ins := new seq<Name>[|g.succ|](_ => []);
      outs := new seq<Name>[|g.succ|](_ => []);
    }

    /** Appends `v` to the in list of `n` unless it is there; says whether it was appended. */
    method AddIn(n: nat, v: Name) returns (added: bool)
      requires Valid() && n < |g.succ| && LiveIn(g, within, n, v)
      modifies ins
      ensures Valid()
      ensures added <==> v !in old(ins[n])
      ensures ins[..] == if added then old(ins[..])[n := old(ins[n]) + [v]] else old(ins[..])
      ensures added ==> Lacking() < old(Lacking())
    {
      var i := 0;
      while i < |ins[n]|
        invariant 0 <= i <= |ins[n]| && v !in ins[n][..i]
      {
        if ins[n][i] == v {
          return false;
        }
        i := i + 1;
      }
      LiveInWithin(g, within, n, v);
      MissingShrinks(g, ins[..], outs[..], n, v);
      ins[n] := ins[n] + [v];
      assert ins[..] == old(ins[..])[n := old(ins[n]) + [v]];
      return true;
    }

    /** Appends `v` to the out list of `n` unless it is there; says whether it was appended. */
    method AddOut(n: nat, v: Name) returns (added: bool)
      requires Valid() && n < |g.succ| && LiveOut(g, within, n, v)
      modifies outs
      ensures Valid()
      ensures added <==> v !in old(outs[n])
      ensures outs[..] == if added then old(outs[..])[n := old(outs[n]) + [v]] else old(outs[..])
      ensures added ==> Lacking() < old(Lacking())
    {
      var i := 0;
      while i < |outs[n]|
        invariant 0 <= i <= |outs[n]| && v !in outs[n][..i]
      {
        if outs[n][i] == v {
          return false;
        }
        i := i + 1;
      }
      ghost var m: nat :| g.Edge(n, m) && LiveIn(g, within, m, v);
      LiveInWithin(g, within, m, v);
      MissingShrinks(g, ins[..], outs[..], n, v);
      outs[n] := outs[n] + [v];
      assert outs[..] == old(outs[..])[n := old(outs[n]) + [v]];
      return true;
    }
  }
}
