/** When an edited instruction list runs like the list it was made from. */
module Simulation {
  import opened Liveness
  import opened Mir

  /** Where the nodes of a list are after an edit: `entry[q]` is where execution that was at node `q` goes
      on, `place[q]` where the node itself is. Nodes put before `q` lie between the two. */
  datatype Layout = Layout(entry: seq<nat>, place: seq<nat>)

  /** Every node is still there, behind the nodes put before it, and its jump now enters where its
      target's nodes begin. */
  ghost predicate LaidOut(was: seq<Node>, now: seq<Node>, l: Layout) {
    && |l.entry| == |was| + 1 && |l.place| == |was|
    && l.entry[0] == 0 && l.entry[|was|] == |now|
    && forall q :: 0 <= q < |was| ==> NodeLaidOut(was, now, l, q)
  }

  ghost predicate NodeLaidOut(was: seq<Node>, now: seq<Node>, l: Layout, q: nat)
    requires |l.entry| == |was| + 1 && |l.place| == |was| && q < |was|
  {
    && l.entry[q] <= l.place[q] < l.entry[q + 1] <= |now|
    && now[l.place[q]].id == was[q].id
    && now[l.place[q]].jump.Some? == was[q].jump.Some?
    && (was[q].jump.Some? ==> Target(now, now[l.place[q]]) == l.entry[Target(was, was[q])])
  }

  /** For control flow the node at `place[q]` is what the node at `q` was, it still reads something if it
      did, and the nodes put around it go on to the next. */
  ghost predicate FlowKept(was: seq<Node>, now: seq<Node>, l: Layout, q: nat)
    requires |l.entry| == |was| + 1 && |l.place| == |was| && q < |was|
  {
    && l.entry[q] <= l.place[q] < l.entry[q + 1] <= |now|
    && (HasSource(was[q].instr) ==> HasSource(now[l.place[q]].instr))
    && (var o, o' := was[q].instr.opcode, now[l.place[q]].instr.opcode; o == o' || (Straight(o) && Straight(o')))
    && forall p :: l.entry[q] <= p < l.entry[q + 1] && p != l.place[q] ==> Straight(now[p].instr.opcode)
  }

  ghost predicate KeepsFlow(was: seq<Node>, now: seq<Node>, l: Layout) {
    && |l.entry| == |was| + 1 && |l.place| == |was|
    && l.entry[0] == 0 && l.entry[|was|] == |now|
    && forall q: nat :: q < |was| ==> FlowKept(was, now, l, q)
  }

  /** Two runs agree on memory, calls, arguments received and every name but the registers from `bound` on. */
  ghost predicate Agree(s: State, t: State, bound: nat) {
    && t.mem == s.mem && t.received == s.received && t.calls == s.calls
    && forall n: Name :: n.Var? || n.num < bound ==> Get(t.env, n) == Get(s.env, n)
  }

  ghost predicate Corresponds(entry: seq<nat>, bound: nat, s: State, t: State) {
    s.pos < |entry| && t.pos == entry[s.pos] && Agree(s, t, bound)
  }

  ghost predicate Matching(entry: seq<nat>, bound: nat, a: Outcome, b: Outcome) {
    match a
    case Running(s) => b.Running? && Corresponds(entry, bound, s, b.s)
    case _ => b == a
  }

  ghost predicate StepMatched(ctx: Context, was: seq<Node>, now: seq<Node>, entry: seq<nat>, bound: nat,
                              s: State, t: State) {
    exists j: nat :: j > 0 && Matching(entry, bound, Step(ctx, was, s), Run(ctx, now, t, j))
  }

  /** Every step of the old list is some steps of the new one. */
  ghost predicate Simulates(was: seq<Node>, now: seq<Node>, entry: seq<nat>, bound: nat) {
    && |entry| == |was| + 1
    && forall ctx: Context, s: State, t: State :: Corresponds(entry, bound, s, t) ==>
         StepMatched(ctx, was, now, entry, bound, s, t)
  }

  /** Any number of steps of the old list is at least as many of the new one. */
  lemma {:induction false} RunMatched(ctx: Context, was: seq<Node>, now: seq<Node>, entry: seq<nat>, bound: nat,
                                      s: State, t: State, k: nat) returns (j: nat)
    requires Simulates(was, now, entry, bound) && Corresponds(entry, bound, s, t)
    ensures Matching(entry, bound, Run(ctx, was, s, k), Run(ctx, now, t, j))
    ensures Run(ctx, was, s, k).Running? ==> j >= k
    ensures k > 0 ==> j > 0
    decreases k
  {
    j := 0;
    if k > 0 {
      assert StepMatched(ctx, was, now, entry, bound, s, t);
      var i: nat :| i > 0 && Matching(entry, bound, Step(ctx, was, s), Run(ctx, now, t, i));
      j := i;
      var o := Step(ctx, was, s);
      if o.Running? {
        var m := Run(ctx, now, t, i).s;
        var rest := RunMatched(ctx, was, now, entry, bound, o.s, m, k - 1);
        RunThen(ctx, now, t, i, rest);
        j := i + rest;
      }
    }
  }

  /** Both lists end, and end the same way, or neither does. */
  lemma EndsTheSame(ctx: Context, was: seq<Node>, now: seq<Node>, entry: seq<nat>, bound: nat, s: State, t: State,
                    o: Outcome)
    requires Simulates(was, now, entry, bound) && Corresponds(entry, bound, s, t) && !o.Running?
    ensures Reaches(ctx, was, s, o) <==> Reaches(ctx, now, t, o)
  {
    if k: nat :| Run(ctx, was, s, k) == o {
      var j := RunMatched(ctx, was, now, entry, bound, s, t, k);
      assert Run(ctx, now, t, j) == o;
    }
    if j: nat :| Run(ctx, now, t, j) == o {
      NewEndsFirst(ctx, was, now, entry, bound, s, t, j);
      assert Run(ctx, was, s, j + 1) == o;
    }
  }

  lemma NewEndsFirst(ctx: Context, was: seq<Node>, now: seq<Node>, entry: seq<nat>, bound: nat, s: State, t: State,
                     j: nat)
    requires Simulates(was, now, entry, bound) && Corresponds(entry, bound, s, t)
    requires !Run(ctx, now, t, j).Running?
    ensures Run(ctx, was, s, j + 1) == Run(ctx, now, t, j)
  {
    var i := RunMatched(ctx, was, now, entry, bound, s, t, j + 1);
    OutcomesMeet(ctx, now, t, i, j);
    var a := Run(ctx, was, s, j + 1);
    if a.Running? {
      assert false;
    }
  }

  /** Layouts of two edits one after the other. */
  function Then(a: Layout, b: Layout): (l: Layout)
    requires forall q :: 0 <= q < |a.entry| ==> a.entry[q] < |b.entry|
    requires forall q :: 0 <= q < |a.place| ==> a.place[q] < |b.place|
    ensures |l.entry| == |a.entry| && |l.place| == |a.place|
    ensures forall q :: 0 <= q < |a.entry| ==> l.entry[q] == b.entry[a.entry[q]]
    ensures forall q :: 0 <= q < |a.place| ==> l.place[q] == b.place[a.place[q]]
  {
    Layout(seq(|a.entry|, q requires 0 <= q < |a.entry| => b.entry[a.entry[q]]),
           seq(|a.place|, q requires 0 <= q < |a.place| => b.place[a.place[q]]))
  }

  lemma SimulatesThen(x: seq<Node>, y: seq<Node>, z: seq<Node>, a: seq<nat>, b: seq<nat>, c: seq<nat>, m: nat, n: nat)
    requires Simulates(x, y, a, m) && Simulates(y, z, b, n) && m <= n
    requires |c| == |a| && forall q :: 0 <= q < |a| ==> a[q] < |b| && c[q] == b[a[q]]
    ensures Simulates(x, z, c, m)
  {
    forall ctx: Context, s: State, t: State | Corresponds(c, m, s, t)
      ensures StepMatched(ctx, x, z, c, m, s, t)
    {
      var mid := t.(pos := a[s.pos]);
      assert Corresponds(a, m, s, mid) && Corresponds(b, n, mid, t);
      assert StepMatched(ctx, x, y, a, m, s, mid);
      var i: nat :| i > 0 && Matching(a, m, Step(ctx, x, s), Run(ctx, y, mid, i));
      var j := RunMatched(ctx, y, z, b, n, mid, t, i);
      assert Matching(c, m, Step(ctx, x, s), Run(ctx, z, t, j));
    }
  }

  lemma {:induction false} EntriesGrow(x: seq<Node>, y: seq<Node>, l: Layout, p: nat, q: nat)
    requires LaidOut(x, y, l) && p <= q <= |x|
    ensures l.entry[p] <= l.entry[q] <= |y|
    decreases q - p
  {
    if p < q {
      assert NodeLaidOut(x, y, l, p);
      EntriesGrow(x, y, l, p + 1, q);
    } else if q > 0 {
      assert NodeLaidOut(x, y, l, q - 1);
    }
  }

  lemma LaidOutThen(x: seq<Node>, y: seq<Node>, z: seq<Node>, a: Layout, b: Layout)
    requires LaidOut(x, y, a) && LaidOut(y, z, b)
    ensures forall q :: 0 <= q < |a.entry| ==> a.entry[q] < |b.entry|
    ensures forall q :: 0 <= q < |a.place| ==> a.place[q] < |b.place|
    ensures LaidOut(x, z, Then(a, b))
  {
    forall q | 0 <= q < |a.entry|
      ensures a.entry[q] < |b.entry|
    {
      EntriesGrow(x, y, a, q, |x|);
    }
    forall q | 0 <= q < |a.place|
      ensures a.place[q] < |b.place|
    {
      assert NodeLaidOut(x, y, a, q);
    }
    var c := Then(a, b);
    forall q: nat | q < |x|
      ensures NodeLaidOut(x, z, c, q)
    {
      NodeLaidOutThen(x, y, z, a, b, q);
    }
  }

  lemma NodeLaidOutThen(x: seq<Node>, y: seq<Node>, z: seq<Node>, a: Layout, b: Layout, q: nat)
    requires LaidOut(x, y, a) && LaidOut(y, z, b) && q < |x|
    requires forall q :: 0 <= q < |a.entry| ==> a.entry[q] < |b.entry|
    requires forall q :: 0 <= q < |a.place| ==> a.place[q] < |b.place|
    ensures NodeLaidOut(x, z, Then(a, b), q)
  {
    assert NodeLaidOut(x, y, a, q) && NodeLaidOut(y, z, b, a.place[q]);
    EntriesGrow(y, z, b, a.entry[q], a.place[q]);
    EntriesGrow(y, z, b, a.place[q] + 1, a.entry[q + 1]);
  }

  /** The old node that the node at `p` of the new list belongs to. */
  lemma {:induction false} Owner(was: seq<Node>, now: seq<Node>, l: Layout, p: nat, lo: nat, hi: nat) returns (q: nat)
    requires KeepsFlow(was, now, l) && lo < hi <= |was| && l.entry[lo] <= p < l.entry[hi]
    ensures lo <= q < hi && l.entry[q] <= p < l.entry[q + 1]
    decreases hi - lo
  {
    assert FlowKept(was, now, l, lo);
    if p < l.entry[lo + 1] {
      q := lo;
    } else {
      q := Owner(was, now, l, p, lo + 1, hi);
    }
  }

  lemma {:induction false} EntriesAscend(was: seq<Node>, now: seq<Node>, l: Layout, p: nat, q: nat)
    requires KeepsFlow(was, now, l) && p <= q <= |was|
    ensures l.entry[p] <= l.entry[q] <= |now|
    decreases q - p
  {
    if p < q {
      assert FlowKept(was, now, l, p);
      EntriesAscend(was, now, l, p + 1, q);
    } else if q > 0 {
      assert FlowKept(was, now, l, q - 1);
    }
  }

  lemma KeepsFlowThen(x: seq<Node>, y: seq<Node>, z: seq<Node>, a: Layout, b: Layout)
    requires KeepsFlow(x, y, a) && KeepsFlow(y, z, b)
    requires forall q :: 0 <= q < |a.entry| ==> a.entry[q] < |b.entry|
    requires forall q :: 0 <= q < |a.place| ==> a.place[q] < |b.place|
    ensures KeepsFlow(x, z, Then(a, b))
  {
    hide FlowKept;
    forall q: nat | q < |x|
      ensures FlowKept(x, z, Then(a, b), q)
    {
      FlowKeptThen(x, y, z, a, b, q);
    }
  }

  lemma FlowKeptThen(x: seq<Node>, y: seq<Node>, z: seq<Node>, a: Layout, b: Layout, q: nat)
    requires KeepsFlow(x, y, a) && KeepsFlow(y, z, b) && q < |x|
    requires forall q :: 0 <= q < |a.entry| ==> a.entry[q] < |b.entry|
    requires forall q :: 0 <= q < |a.place| ==> a.place[q] < |b.place|
    ensures FlowKept(x, z, Then(a, b), q)
  {
    hide KeepsFlow;
    FlowAt(x, y, a, q);
    var from, at, to := a.entry[q], a.place[q], a.entry[q + 1];
    FlowAt(y, z, b, at);
    EntriesAscend(y, z, b, from, at);
    EntriesAscend(y, z, b, at + 1, to);
    forall p: nat | b.entry[from] <= p < b.entry[to] && p != b.place[at]
      ensures Straight(z[p].instr.opcode)
    {
      var r := Owner(y, z, b, p, from, to);
      FlowAt(y, z, b, r);
    }
  }

  lemma FlowAt(was: seq<Node>, now: seq<Node>, l: Layout, q: nat)
    requires KeepsFlow(was, now, l) && q < |was|
    ensures |l.entry| == |was| + 1 && |l.place| == |was| && FlowKept(was, now, l, q)
  {
  }
}
