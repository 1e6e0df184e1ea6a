/** The source-level liveness loop of cfg.c: cfg_calculate_liveness. */
module SourceLiveness {
  import opened Wrappers
  import opened Liveness

  /** Nothing more to add around node `n`: to its own in list, or to its predecessors' out lists. */
  ghost predicate Settled(g: FlowGraph, ins: seq<seq<Name>>, outs: seq<seq<Name>>, n: nat)
    requires g.Valid() && |ins| == |g.succ| && |outs| == |g.succ| && n < |g.succ|
  {
    && (forall v :: v in outs[n] && g.def[n] != Some(v) ==> v in ins[n])
    && (forall p, v :: p in g.pred[n] && v in ins[n] ==> v in outs[p])
  }

  /** in(n) starts as use(n). */
  method AddUses(s: LiveSets, n: nat)
    requires s.Valid() && n < |s.g.succ| && s.within == All(s.g)
    modifies s.ins
    ensures s.Valid()
    ensures forall v :: v in s.g.use[n] ==> v in s.ins[n]
    ensures forall m, v :: 0 <= m < s.ins.Length && v in old(s.ins[m]) ==> v in s.ins[m]
  {
    var j := 0;
    while j < |s.g.use[n]|
      invariant 0 <= j <= |s.g.use[n]| && s.Valid()
      invariant forall v :: v in s.g.use[n][..j] ==> v in s.ins[n]
      invariant forall m, v :: 0 <= m < s.ins.Length && v in old(s.ins[m]) ==> v in s.ins[m]
    {
      assert s.g.Node(n);
      UseIsLive(s.g, s.within, n, s.g.use[n][j]);
      var _ := s.AddIn(n, s.g.use[n][j]);
      j := j + 1;
    }
  }

  /** Copies out(n) without def(n) into in(n). */
  method OutToIn(s: LiveSets, n: nat) returns (changed: bool)
    requires s.Valid() && n < |s.g.succ| && s.within == All(s.g)
    modifies s.ins
    ensures s.Valid()
    ensures changed ==> s.Lacking() < old(s.Lacking())
    ensures !changed ==> s.ins[..] == old(s.ins[..])
    ensures forall m, v :: 0 <= m < s.ins.Length && v in old(s.ins[m]) ==> v in s.ins[m]
    ensures forall v :: v in s.outs[n] && s.g.def[n] != Some(v) ==> v in s.ins[n]
  {
    hide Missing, LivePath;
    changed := false;
    var j := 0;
    while j < |s.outs[n]|
      invariant 0 <= j <= |s.outs[n]| && s.Valid()
      invariant changed ==> s.Lacking() < old(s.Lacking())
      invariant !changed ==> s.ins[..] == old(s.ins[..])
      invariant forall m, v :: 0 <= m < s.ins.Length && v in old(s.ins[m]) ==> v in s.ins[m]
      invariant forall v :: v in s.outs[n][..j] && s.g.def[n] != Some(v) ==> v in s.ins[n]
    {
      if s.g.def[n] != Some(s.outs[n][j]) {
        assert s.g.Node(n);
        LiveOutIsLiveIn(s.g, s.within, n, s.outs[n][j]);
        var added := s.AddIn(n, s.outs[n][j]);
        if added {
          changed := true;
        }
      }
      j := j + 1;
    }
  }

  /** Copies in(n) into out(p) for one predecessor `p` of `n`. */
  method InToOut(s: LiveSets, n: nat, p: nat) returns (changed: bool)
    requires s.Valid() && n < |s.g.succ| && p in s.g.pred[n]
    modifies s.outs
    ensures s.Valid()
    ensures changed ==> s.Lacking() < old(s.Lacking())
    ensures !changed ==> s.outs[..] == old(s.outs[..])
    ensures forall m, v :: 0 <= m < s.outs.Length && v in old(s.outs[m]) ==> v in s.outs[m]
    ensures forall v :: v in s.ins[n] ==> v in s.outs[p]
  {
    hide Missing, LivePath;
    changed := false;
    var k := 0;
    while k < |s.ins[n]|
      invariant 0 <= k <= |s.ins[n]| && s.Valid()
      invariant changed ==> s.Lacking() < old(s.Lacking())
      invariant !changed ==> s.outs[..] == old(s.outs[..])
      invariant forall m, v :: 0 <= m < s.outs.Length && v in old(s.outs[m]) ==> v in s.outs[m]
      invariant forall v :: v in s.ins[n][..k] ==> v in s.outs[p]
    {
      assert s.g.Edge(p, n) && LiveIn(s.g, s.within, n, s.ins[n][k]);
      var added := s.AddOut(p, s.ins[n][k]);
      if added {
        changed := true;
      }
      k := k + 1;
    }
  }

  /** One node's turn in a pass. */
  method VisitNode(s: LiveSets, n: nat) returns (changed: bool)
    requires s.Valid() && n < |s.g.succ| && s.within == All(s.g)
    modifies s.ins, s.outs
    ensures s.Valid()
    ensures changed ==> s.Lacking() < old(s.Lacking())
    ensures !changed ==> s.ins[..] == old(s.ins[..]) && s.outs[..] == old(s.outs[..])
    ensures !changed ==> Settled(s.g, s.ins[..], s.outs[..], n)
    ensures forall m, v :: 0 <= m < s.ins.Length && v in old(s.ins[m]) ==> v in s.ins[m]
  {
    changed := OutToIn(s, n);
    var j := 0;
    while j < |s.g.pred[n]|
      invariant 0 <= j <= |s.g.pred[n]| && s.Valid()
      invariant changed ==> s.Lacking() < old(s.Lacking())
      invariant !changed ==> s.ins[..] == old(s.ins[..]) && s.outs[..] == old(s.outs[..])
      invariant forall m, v :: 0 <= m < s.ins.Length && v in old(s.ins[m]) ==> v in s.ins[m]
      invariant !changed ==> forall v :: v in s.outs[n] && s.g.def[n] != Some(v) ==> v in s.ins[n]
      invariant !changed ==> forall p, v :: p in s.g.pred[n][..j] && v in s.ins[n] ==> v in s.outs[p]
    {
      var added := InToOut(s, n, s.g.pred[n][j]);
      if added {
        changed := true;
      }
      j := j + 1;
    }
  }

  /** Repeats passes over all nodes until one changes nothing. The lists then hold exactly the
      names some path reads before redefining them, which is the least solution of the equations. */
  method CalculateLiveness(s: LiveSets)
    requires s.Valid() && s.within == All(s.g)
    modifies s.ins, s.outs
    ensures s.Valid()
    ensures Exact(s.g, All(s.g), s.ins[..], s.outs[..])
  {
    var n := |s.g.succ|;
    var i := 0;
    while i < n
      invariant 0 <= i <= n && s.Valid()
      invariant forall m: nat, v :: m < i && v in s.g.use[m] ==> v in s.ins[m]
    {
      AddUses(s, i);
      i := i + 1;
    }
    var changed := true;
    while changed
      invariant s.Valid()
      invariant forall m: nat, v :: m < n && v in s.g.use[m] ==> v in s.ins[m]
      invariant !changed ==> forall m: nat :: m < n ==> Settled(s.g, s.ins[..], s.outs[..], m)
      decreases s.Lacking(), changed
    {
      changed := Pass(s);
    }
    SettledIsClosed(s.g, s.ins[..], s.outs[..]);
    SoundAndClosedIsExact(s.g, s.within, s.ins[..], s.outs[..]);
  }

  /** One pass over the nodes in order. */
  method Pass(s: LiveSets) returns (changed: bool)
    requires s.Valid() && s.within == All(s.g)
    modifies s.ins, s.outs
    ensures s.Valid()
    ensures changed ==> s.Lacking() < old(s.Lacking())
    ensures !changed ==> s.ins[..] == old(s.ins[..]) && s.outs[..] == old(s.outs[..])
    ensures !changed ==> forall m: nat :: m < |s.g.succ| ==> Settled(s.g, s.ins[..], s.outs[..], m)
    ensures forall m, v :: 0 <= m < s.ins.Length && v in old(s.ins[m]) ==> v in s.ins[m]
  {
    changed := false;
    var i := 0;
    while i < |s.g.succ|
      invariant 0 <= i <= |s.g.succ| && s.Valid()
      invariant changed ==> s.Lacking() < old(s.Lacking())
      invariant !changed ==> s.ins[..] == old(s.ins[..]) && s.outs[..] == old(s.outs[..])
      invariant !changed ==> forall m: nat :: m < i ==> Settled(s.g, s.ins[..], s.outs[..], m)
      invariant forall m, v :: 0 <= m < s.ins.Length && v in old(s.ins[m]) ==> v in s.ins[m]
    {
      var added := VisitNode(s, i);
      if added {
        changed := true;
      }
      i := i + 1;
    }
  }

  lemma SettledIsClosed(g: FlowGraph, ins: seq<seq<Name>>, outs: seq<seq<Name>>)
    requires g.Valid() && |ins| == |g.succ| && |outs| == |g.succ|
    requires forall m: nat, v :: m < |g.succ| && v in g.use[m] ==> v in ins[m]
    requires forall m: nat :: m < |g.succ| ==> Settled(g, ins, outs, m)
    ensures Closed(g, All(g), ins, outs)
  {
    forall n: nat | n < |g.succ|
      ensures NodeClosed(g, ins, outs, n)
    {
      assert Settled(g, ins, outs, n);
      forall m: nat, v | g.Edge(n, m) && v in ins[m]
        ensures v in outs[n]
      {
        assert n in g.pred[m] && Settled(g, ins, outs, m);
      }
    }
  }
}
