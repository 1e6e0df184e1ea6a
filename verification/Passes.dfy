/** mir_munge, mir_munge_pointers, mir_fold_constants and mir_rhs_constants of mir.c: walks over the list
    that edit it in place and preserve every run. */
module Passes {
  import opened Wrappers
  import opened Mir
  import opened MirList
  import opened Simulation
  import opened Lowering

  // ----- Forms of instructions -----

  predicate Deref(op: Operand) {
    op.Loc? && op.indirect
  }

  /** What the generator emits: only instructions with a source or a destination dereference one, and a
      call's result goes to a register. */
  predicate Formed(i: Instr) {
    match i.opcode
    case Nop | Label | Begin | End | Jump => !Deref(i.op0) && !Deref(i.op1) && !Deref(i.op2)
    case If | Return | PushArg => !Deref(i.op2)
    case Receive => !Deref(i.op0) && !Deref(i.op1)
    case Move => !Deref(i.op1) && !i.op0.Absent?
    case Call => !Deref(i.op1) && !Deref(i.op2)
    case _ => true
  }

  /** Parameters arrive in registers, and only registers move to what a pointer refers to. */
  predicate Munged(i: Instr) {
    match i.opcode
    case Receive => !Deref(i.op2)
    case Move => Deref(i.op2) ==> i.op0.Loc? && !i.op0.indirect
    case _ => true
  }

  /** No operand is dereferenced outside the loads and stores. */
  predicate Direct(i: Instr) {
    IsMemoryOp(i.opcode) ||
    (&& !Deref(i.op0) && !Deref(i.op1) && !Deref(i.op2)
     && (i.opcode.Call? ==> forall k :: 0 <= k < |i.args| ==> !Deref(i.args[k])))
  }

  predicate Folded(i: Instr) {
    (i.opcode.Add? || i.opcode.Mul?) ==> !(i.op0.Const? && i.op1.Const?)
  }

  /** A constant in an addition or subtraction is on the right. */
  predicate RightHanded(i: Instr) {
    && (i.opcode.Add? ==> !i.op0.Const? || i.op1.Const?)
    && (i.opcode.Sub? ==> !i.op0.Const?)
  }

  /** What the generator emits for the structured fragment, and what the passes make of that: nothing is
      dereferenced, and only computing instructions have a destination. */
  predicate Settled(i: Instr) {
    && i.args == [] && !Deref(i.op0) && !Deref(i.op1) && !Deref(i.op2)
    && match i.opcode
       case Move | Add | Sub | Mul | Eql | Neq | Lss | Leq | Gtr | Geq | Receive => true
       case If => !i.op2.Loc?
       case Label | Begin | End | Jump | Return => i.op2.Absent?
       case _ => false
  }

  /** What no pass has anything left to do with. */
  predicate Finished(i: Instr) {
    Settled(i) && Folded(i) && RightHanded(i)
  }

  ghost predicate AllIn(nodes: seq<Node>, from: nat, to: nat, p: Instr -> bool) {
    from <= to <= |nodes| && forall q :: from <= q < to ==> p(nodes[q].instr)
  }

  ghost predicate Every(nodes: seq<Node>, p: Instr -> bool) {
    AllIn(nodes, 0, |nodes|, p)
  }

  // ----- What a pass promises about the list -----

  /** Every node is still there, its jumps enter at what was put before their targets, what was put in only
      goes on to the next node, and every step of the old list is some steps of the new one. */
  ghost predicate Refines(was: seq<Node>, now: seq<Node>, l: Layout, bound: nat) {
    LaidOut(was, now, l) && KeepsFlow(was, now, l) && Simulates(was, now, l.entry, bound)
  }

  lemma RefinesSelf(nodes: seq<Node>, bound: nat)
    requires AllBelow(nodes, bound)
    ensures Refines(nodes, nodes, Same(|nodes|), bound)
  {
    var l := Same(|nodes|);
    forall ctx: Context, s: State, t: State | Corresponds(l.entry, bound, s, t)
      ensures StepMatched(ctx, nodes, nodes, l.entry, bound, s, t)
    {
      if s.pos < |nodes| {
        SameStep(ctx, nodes, nodes, l.entry, bound, t.pos, s, t);
      }
      assert Matching(l.entry, bound, Step(ctx, nodes, s), Run(ctx, nodes, t, 1));
    }
  }

  lemma RefinesThen(x: seq<Node>, y: seq<Node>, z: seq<Node>, a: Layout, b: Layout, m: nat, n: nat) returns (l: Layout)
    requires Refines(x, y, a, m) && Refines(y, z, b, n) && m <= n
    ensures Refines(x, z, l, m)
  {
    LaidOutThen(x, y, z, a, b);
    KeepsFlowThen(x, y, z, a, b);
    l := Then(a, b);
    SimulatesThen(x, y, z, a.entry, b.entry, l.entry, m, n);
  }

  /** A list starts with a label and ends with END. */
  ghost predicate Framed(nodes: seq<Node>) {
    |nodes| > 0 && nodes[0].instr.opcode.Label? && nodes[|nodes| - 1].instr.opcode.End?
  }

  /** The instruction at `p` has become two. */
  ghost predicate Widened(was: seq<Node>, now: seq<Node>, p: nat, a: Instr, b: Instr) {
    && |now| == |was| + 1 && p < |was| && now[p].instr == a && now[p + 1].instr == b
    && (forall q :: 0 <= q < p ==> now[q].instr == was[q].instr)
    && forall q :: p < q < |was| ==> now[q + 1].instr == was[q].instr
  }

  /** The instruction at `p` has become those from `p` up to `next`. */
  ghost predicate Advanced(was: seq<Node>, now: seq<Node>, p: nat, next: nat) {
    && p < |was| && p < next <= |now| && |now| == |was| + (next - p - 1)
    && (forall q :: 0 <= q < p ==> now[q].instr == was[q].instr)
    && forall q :: p < q < |was| ==> now[q + (next - p - 1)].instr == was[q].instr
  }

  lemma WidenedAll(was: seq<Node>, now: seq<Node>, p: nat, a: Instr, b: Instr, from: nat, to: nat, holds: Instr -> bool)
    requires Widened(was, now, p, a, b) && AllIn(was, from, to, holds) && from <= p < to && holds(a) && holds(b)
    ensures AllIn(now, from, to + 1, holds)
  {
    forall q | from <= q < to + 1
      ensures holds(now[q].instr)
    {
      if q < p {
        assert now[q].instr == was[q].instr;
      } else if q > p + 1 {
        assert now[(q - 1) + 1].instr == was[q - 1].instr;
      }
    }
  }

  lemma WidenedStart(was: seq<Node>, now: seq<Node>, p: nat, a: Instr, b: Instr, holds: Instr -> bool)
    requires Widened(was, now, p, a, b) && AllIn(was, 0, p, holds) && holds(a) && holds(b)
    ensures AllIn(now, 0, p + 2, holds)
  {
  }

  lemma WidenedIsAdvanced(was: seq<Node>, now: seq<Node>, p: nat, a: Instr, b: Instr)
    requires Widened(was, now, p, a, b)
    ensures Advanced(was, now, p, p + 2)
  {
  }

  lemma AdvancedThen(x: seq<Node>, y: seq<Node>, z: seq<Node>, p: nat, m: nat, n: nat)
    requires Advanced(x, y, p, m + 1) && Advanced(y, z, m, n)
    ensures Advanced(x, z, p, n)
  {
    forall q | p < q < |x|
      ensures z[q + (n - p - 1)].instr == x[q].instr
    {
      assert y[q + (m - p)].instr == x[q].instr;
      assert z[q + (m - p) + (n - m - 1)].instr == y[q + (m - p)].instr;
    }
  }

  /** What held in front of the edit still does. */
  lemma AdvancedAll(y: seq<Node>, z: seq<Node>, p: nat, m: nat, n: nat, to: nat, holds: Instr -> bool)
    requires Advanced(y, z, m, n) && AllIn(y, p, m, holds) && AllIn(z, m, to, holds)
    ensures AllIn(z, p, to, holds)
  {
  }

  /** What held behind it does, too. */
  lemma AdvancedRest(y: seq<Node>, z: seq<Node>, m: nat, n: nat, holds: Instr -> bool)
    requires Advanced(y, z, m, n) && AllIn(y, m + 1, |y|, holds)
    ensures AllIn(z, n, |z|, holds)
  {
    forall q | n <= q < |z|
      ensures holds(z[q].instr)
    {
      assert z[(q - (n - m - 1)) + (n - m - 1)].instr == y[q - (n - m - 1)].instr;
    }
  }

  /** What folding makes of one instruction. */
  ghost predicate FoldsTo(i: Instr, j: Instr) {
    if (i.opcode.Add? || i.opcode.Mul?) && i.op0.Const? && i.op1.Const? then
      var v := if i.opcode.Add? then i.op0.val + i.op1.val else i.op0.val * i.op1.val;
      && j.opcode.Move? && j.op0.Const? && j.op1.Absent? && j.op2 == i.op2
      && FitsWord(j.op0.val) && (v - j.op0.val) % 4294967296 == 0 && (FitsWord(v) ==> j.op0.val == v)
    else j == i
  }

  /** The first `p` instructions are folded, and the others are as they were. */
  ghost predicate FoldedUpTo(a: seq<Node>, b: seq<Node>, p: nat) {
    && |a| == |b|
    && (forall k :: 0 <= k < |a| ==> a[k].id == b[k].id && a[k].jump == b[k].jump)
    && (forall k :: 0 <= k < p && k < |a| ==> FoldsTo(a[k].instr, b[k].instr))
    && (forall k :: p <= k < |a| ==> a[k] == b[k])
  }

  lemma FoldedAt(a: seq<Node>, b: seq<Node>, c: seq<Node>, p: nat)
    requires FoldedUpTo(a, b, p) && p < |b| && |c| == |b|
    requires c == Replaced(b, p, c[p].instr) && FoldsTo(b[p].instr, c[p].instr)
    ensures FoldedUpTo(a, c, p + 1)
  {
    hide FoldsTo;
  }

  lemma FoldedOver(a: seq<Node>, b: seq<Node>, p: nat)
    requires FoldedUpTo(a, b, p) && p < |b|
    requires var i := b[p].instr; !((i.opcode.Add? || i.opcode.Mul?) && i.op0.Const? && i.op1.Const?)
    ensures FoldedUpTo(a, b, p + 1)
  {
  }

  class Lowerer {
    const list: List
    /** The next temporary register (mir_alloc_reg). */
    var temps: nat

    ghost predicate Valid()
      reads this, list
    {
      list.Valid() && Framed(list.nodes) && AllBelow(list.nodes, temps)
    }

    constructor (list: List, temps: nat)
      requires list.Valid() && Framed(list.nodes) && AllBelow(list.nodes, temps)
      ensures Valid() && this.list == list && this.temps == temps
    {
      this.list, this.temps := list, temps;
    }

    /** Changes an instruction to one that does the same. */
    method Replace(p: nat, instr: Instr)
      requires Valid() && p < |list.nodes| && SameEffect(list.nodes[p].instr, instr) && Below(instr, temps)
      requires instr.opcode.Label? || !list.nodes[p].instr.opcode.Label?
      requires HasSource(list.nodes[p].instr) ==> HasSource(instr)
      modifies list
      ensures Valid() && list.nodes == Replaced(old(list.nodes), p, instr)
      ensures Refines(old(list.nodes), list.nodes, Same(|list.nodes|), temps)
    {
      hide WellLinked, Refines, SameEffect, Framed, AllBelow;
      ReplaceEdit(list.nodes, p, instr, temps);
      list.SetInstr(p, instr);
    }

    /** Puts a source of the instruction at `p` in a fresh register first, by a load or a MOVE, and moves
        the label there. */
    method PutBefore(p: nat, slot: Slot, load: bool)
      requires Valid() && 0 < p < |list.nodes| && HasSlot(list.nodes[p].instr, slot)
      requires load ==> Deref(At(list.nodes[p].instr, slot))
      modifies this, list
      ensures Valid() && temps == old(temps) + 1
      ensures Refines(old(list.nodes), list.nodes, Grown(|old(list.nodes)|, p, true), old(temps))
      ensures var i := old(list.nodes)[p].instr;
        var put := if load then Plain(RegLoad, Undereferenced(At(i, slot)), Absent, Temp(old(temps)))
          else Plain(Move, At(i, slot), Absent, Temp(old(temps)));
        Widened(old(list.nodes), list.nodes, p, put, Subst(i, slot, Temp(old(temps))))
    {
      var reg := temps;
      temps := temps + 1;
      var instr := list.nodes[p].instr;
      var op := At(instr, slot);
      var put :=
        if load then Plain(RegLoad, Undereferenced(op), Absent, Temp(reg)) else Plain(Move, op, Absent, Temp(reg));
      ghost var was, n := list.nodes, Node(list.nextId, put, None);
      FreshId(was, list.blank, list.nextId, list.inLinks);
      hide WellLinked, Refines, AllBelow, Fresh, UniqueIds, Framed, Widened;
      PrefixEdit(was, p, n, slot, reg);
      list.Insert(p, put);
      list.MoveLabel(p + 1, p);
      list.SetInstr(p + 1, Subst(instr, slot, Temp(reg)));
    }

    /** Lets the instruction at `p` compute into a fresh register and stores that behind it. */
    method StoreAfter(p: nat)
      requires Valid() && p < |list.nodes|
      requires Computes(list.nodes[p].instr.opcode) && Deref(list.nodes[p].instr.op2)
      modifies this, list
      ensures Valid() && temps == old(temps) + 1
      ensures Refines(old(list.nodes), list.nodes, Grown(|old(list.nodes)|, p, false), old(temps))
      ensures var i := old(list.nodes)[p].instr;
        Widened(old(list.nodes), list.nodes, p, i.(op2 := Temp(old(temps))),
          Plain(RegStore, Temp(old(temps)), Absent, Undereferenced(i.op2)))
    {
      var reg := temps;
      temps := temps + 1;
      var instr := list.nodes[p].instr;
      var store := Plain(RegStore, Temp(reg), Absent, Undereferenced(instr.op2));
      ghost var was, n := list.nodes, Node(list.nextId, store, None);
      FreshId(was, list.blank, list.nextId, list.inLinks);
      EndIsLast(was, p);
      hide WellLinked, Refines, AllBelow, Fresh, UniqueIds, Framed, Widened;
      SuffixEdit(was, p, n, reg);
      list.Insert(p + 1, store);
      list.SetInstr(p, instr.(op2 := Temp(reg)));
    }

    // ----- The passes -----

    /** An addition or multiplication of two constants becomes a MOVE. */
    method FoldAt(p: nat)
      requires Valid() && p < |list.nodes| && AllIn(list.nodes, 0, p, Folded)
      requires var i := list.nodes[p].instr; (i.opcode.Add? || i.opcode.Mul?) && i.op0.Const? && i.op1.Const?
      modifies list
      ensures Valid() && |list.nodes| == |old(list.nodes)|
      ensures Refines(old(list.nodes), list.nodes, Same(|list.nodes|), temps)
      ensures AllIn(list.nodes, 0, p + 1, Folded) && KeepsForms(old(list.nodes), list.nodes)
      ensures FoldsTo(old(list.nodes)[p].instr, list.nodes[p].instr)
      ensures list.nodes == Replaced(old(list.nodes), p, list.nodes[p].instr)
    {
      hide WellLinked, LaidOut, KeepsFlow, Simulates, AllBelow, Effect, Refines, FoldsTo, Wrap, SameEffect;
      var i := list.nodes[p].instr;
      var v := if i.opcode.Add? then i.op0.val + i.op1.val else i.op0.val * i.op1.val;
      var move := i.(opcode := Move, op0 := Const(Wrap(v)), op1 := Absent);
      FoldIsMove(i, move);
      BelowAt(list.nodes, p, temps);
      Replace(p, move);
    }

    /** mir_fold_constants: additions and multiplications of two constants become MOVEs of their value, the
        integer sum or product whenever that fits a word. */
    method FoldConstants() returns (ghost l: Layout)
      requires Valid()
      modifies list
      ensures Valid() && Refines(old(list.nodes), list.nodes, l, temps)
      ensures Every(list.nodes, Folded) && KeepsForms(old(list.nodes), list.nodes)
      ensures Every(old(list.nodes), Folded) ==> list.nodes == old(list.nodes)
      ensures FoldedUpTo(old(list.nodes), list.nodes, |list.nodes|)
    {
      RefinesSelf(list.nodes, temps);
      l := Same(|list.nodes|);
      var p := 0;
      hide WellLinked, LaidOut, KeepsFlow, Simulates, AllBelow, Refines, Framed, FoldsTo, Replaced;
      while p < |list.nodes|
        invariant 0 <= p <= |list.nodes| && Valid() && Refines(old(list.nodes), list.nodes, l, temps)
        invariant AllIn(list.nodes, 0, p, Folded) && KeepsForms(old(list.nodes), list.nodes)
        invariant Every(old(list.nodes), Folded) ==> list.nodes == old(list.nodes)
        invariant FoldedUpTo(old(list.nodes), list.nodes, p)
      {
        var i := list.nodes[p].instr;
        if (i.opcode.Add? || i.opcode.Mul?) && i.op0.Const? && i.op1.Const? {
          ghost var before := list.nodes;
          FoldAt(p);
          FoldedAt(old(list.nodes), before, list.nodes, p);
          KeepsFormsThen(old(list.nodes), before, list.nodes);
          l := RefinesThen(old(list.nodes), before, list.nodes, l, Same(|before|), temps, temps);
        } else {
          AllInOneMore(list.nodes, 0, p, Folded);
          FoldedOver(old(list.nodes), list.nodes, p);
        }
        p := p + 1;
      }
    }

    /** A subtraction from a constant gets the constant from a register. */
    method SubFromRegister(p: nat)
      requires Valid() && 0 < p < |list.nodes| && AllIn(list.nodes, 0, p, RightHanded)
      requires var i := list.nodes[p].instr; i.opcode.Sub? && i.op0.Const?
      modifies this, list
      ensures Valid() && old(temps) <= temps && |list.nodes| == |old(list.nodes)| + 1
      ensures Refines(old(list.nodes), list.nodes, Grown(|old(list.nodes)|, p, true), old(temps))
      ensures AllIn(list.nodes, 0, p + 2, RightHanded) && KeepsForms(old(list.nodes), list.nodes)
    {
      hide WellLinked, LaidOut, KeepsFlow, Simulates, AllBelow, Effect, Every, AllIn;
      ghost var before := list.nodes;
      PutBefore(p, First, false);
      ghost var a, b := list.nodes[p].instr, list.nodes[p + 1].instr;
      WidenedStart(before, list.nodes, p, a, b, RightHanded);
      KeptIfHeld(before, list.nodes, p, a, b, Direct);
      KeptIfHeld(before, list.nodes, p, a, b, Folded);
      KeptIfHeld(before, list.nodes, p, a, b, Settled);
    }

    /** A constant on the left of an addition changes sides. */
    method SwapOperands(p: nat)
      requires Valid() && p < |list.nodes| && AllIn(list.nodes, 0, p, RightHanded)
      requires var i := list.nodes[p].instr; i.opcode.Add? && i.op0.Const?
      modifies list
      ensures Valid() && |list.nodes| == |old(list.nodes)|
      ensures Refines(old(list.nodes), list.nodes, Same(|list.nodes|), temps)
      ensures AllIn(list.nodes, 0, p + 1, RightHanded) && KeepsForms(old(list.nodes), list.nodes)
    {
      hide WellLinked, LaidOut, KeepsFlow, Simulates, AllBelow, Effect, Refines;
      var i := list.nodes[p].instr;
      SwapIsSame(i);
      BelowAt(list.nodes, p, temps);
      Replace(p, i.(op0 := i.op1, op1 := i.op0));
    }

    /** mir_rhs_constants: a constant on the left of + changes sides, on the left of - it goes through a register. */
    method RhsConstants() returns (ghost l: Layout)
      requires Valid()
      modifies this, list
      ensures Valid() && Refines(old(list.nodes), list.nodes, l, old(temps))
      ensures Every(list.nodes, RightHanded) && KeepsForms(old(list.nodes), list.nodes)
      ensures old(temps) <= temps
      ensures Every(old(list.nodes), Finished) ==> list.nodes == old(list.nodes)
    {
      hide WellLinked, LaidOut, KeepsFlow, Simulates, AllBelow, Refines;
      RefinesSelf(list.nodes, temps);
      l := Same(|list.nodes|);
      var p := 0;
      while p < |list.nodes|
        invariant 0 <= p <= |list.nodes| && Valid() && old(temps) <= temps
        invariant Refines(old(list.nodes), list.nodes, l, old(temps))
        invariant AllIn(list.nodes, 0, p, RightHanded) && KeepsForms(old(list.nodes), list.nodes)
        invariant Every(old(list.nodes), Finished) ==> list.nodes == old(list.nodes)
        decreases |list.nodes| - p
      {
        var i := list.nodes[p].instr;
        ghost var before, t := list.nodes, temps;
        if i.opcode.Add? && i.op0.Const? {
          SwapOperands(p);
          KeepsFormsThen(old(list.nodes), before, list.nodes);
          l := RefinesThen(old(list.nodes), before, list.nodes, l, Same(|before|), old(temps), t);
          p := p + 1;
        } else if i.opcode.Sub? && i.op0.Const? {
          SubFromRegister(p);
          KeepsFormsThen(old(list.nodes), before, list.nodes);
          l := RefinesThen(old(list.nodes), before, list.nodes, l, Grown(|before|, p, true), old(temps), t);
          p := p + 2;
        } else {
          AllInOneMore(list.nodes, 0, p, RightHanded);
          p := p + 1;
        }
      }
    }

    /** A MOVE through a pointer gets its value from a register. */
    method MoveFromRegister(p: nat)
      requires Valid() && 0 < p < |list.nodes| && AllIn(list.nodes, 0, p, Munged) && Every(list.nodes, Formed)
      requires var i := list.nodes[p].instr; i.opcode.Move? && Deref(i.op2)
      modifies this, list
      ensures Valid() && old(temps) <= temps && |list.nodes| == |old(list.nodes)| + 1
      ensures Refines(old(list.nodes), list.nodes, Grown(|old(list.nodes)|, p, true), old(temps))
      ensures AllIn(list.nodes, 0, p + 2, Munged) && Every(list.nodes, Formed)
    {
      ghost var before := list.nodes;
      assert Formed(before[p].instr);
      hide WellLinked, LaidOut, KeepsFlow, Simulates, AllBelow, Effect, Every, AllIn;
      PutBefore(p, First, false);
      ghost var a, b := list.nodes[p].instr, list.nodes[p + 1].instr;
      assert Formed(a) && Formed(b) && Munged(a) && Munged(b);
      WidenedStart(before, list.nodes, p, a, b, Munged);
      KeptByWidening(before, list.nodes, p, a, b, Formed);
    }

    /** A parameter is received in the register itself. */
    method ReceiveDirectly(p: nat)
      requires Valid() && p < |list.nodes| && list.nodes[p].instr.opcode.Receive?
      requires AllIn(list.nodes, 0, p, Munged) && Every(list.nodes, Formed)
      modifies list
      ensures Valid() && |list.nodes| == |old(list.nodes)|
      ensures Refines(old(list.nodes), list.nodes, Same(|list.nodes|), temps)
      ensures AllIn(list.nodes, 0, p + 1, Munged) && Every(list.nodes, Formed)
      ensures Direct(old(list.nodes)[p].instr) ==> list.nodes == old(list.nodes)
    {
      hide WellLinked, LaidOut, KeepsFlow, Simulates, AllBelow, Effect, Refines;
      var i := list.nodes[p].instr;
      ReceiveIsSame(i);
      BelowAt(list.nodes, p, temps);
      Replace(p, i.(op2 := Undereferenced(i.op2)));
    }

    /** mir_munge, without its ADDR case: parameters are received directly, and a MOVE through a pointer
        takes its source from a register. */
    method Munge() returns (ghost l: Layout)
      requires Valid() && Every(list.nodes, Formed)
      modifies this, list
      ensures Valid() && old(temps) <= temps && Refines(old(list.nodes), list.nodes, l, old(temps))
      ensures Every(list.nodes, Formed) && Every(list.nodes, Munged)
      ensures Every(old(list.nodes), Direct) ==> list.nodes == old(list.nodes)
    {
      hide WellLinked, LaidOut, KeepsFlow, Simulates, AllBelow, Effect, Refines;
      RefinesSelf(list.nodes, temps);
      l := Same(|list.nodes|);
      var p := 0;
      while p < |list.nodes|
        invariant 0 <= p <= |list.nodes| && Valid() && old(temps) <= temps
        invariant Refines(old(list.nodes), list.nodes, l, old(temps))
        invariant AllIn(list.nodes, 0, p, Munged) && Every(list.nodes, Formed)
        invariant Every(old(list.nodes), Direct) ==> list.nodes == old(list.nodes)
        decreases |list.nodes| - p
      {
        var i := list.nodes[p].instr;
        ghost var before, t := list.nodes, temps;
        if i.opcode.Receive? {
          ReceiveDirectly(p);
          l := RefinesThen(old(list.nodes), before, list.nodes, l, Same(|before|), old(temps), t);
          p := p + 1;
        } else if i.opcode.Move? && Deref(i.op2) && (i.op0.Const? || Deref(i.op0)) {
          MoveFromRegister(p);
          l := RefinesThen(old(list.nodes), before, list.nodes, l, Grown(|before|, p, true), old(temps), t);
          p := p + 2;
        } else {
          p := p + 1;
        }
      }
    }

    /** mir_munge_pointers, without its ADDR case: every dereferenced operand becomes a load or a store. */
    method MungePointers() returns (ghost l: Layout)
      requires Valid() && Every(list.nodes, Formed) && Every(list.nodes, Munged)
      modifies this, list
      ensures Valid() && old(temps) <= temps && Refines(old(list.nodes), list.nodes, l, old(temps))
      ensures Every(list.nodes, Direct)
      ensures Every(old(list.nodes), Direct) ==> list.nodes == old(list.nodes)
    {
      hide WellLinked, LaidOut, KeepsFlow, Simulates, AllBelow, Effect, Formed, Munged, Direct;
      RefinesSelf(list.nodes, temps);
      l := Same(|list.nodes|);
      var p := 0;
      while p < |list.nodes|
        invariant 0 <= p <= |list.nodes| && Valid() && old(temps) <= temps
        invariant Refines(old(list.nodes), list.nodes, l, old(temps))
        invariant AllIn(list.nodes, 0, p, Direct)
        invariant AllIn(list.nodes, p, |list.nodes|, Formed) && AllIn(list.nodes, p, |list.nodes|, Munged)
        invariant Every(old(list.nodes), Direct) ==> list.nodes == old(list.nodes)
        decreases |list.nodes| - p
      {
        ghost var before, t := list.nodes, temps;
        var next, step := MungePointersAt(p);
        hide Advanced;
        AdvancedAll(before, list.nodes, 0, p, next, next, Direct);
        AdvancedRest(before, list.nodes, p, next, Formed);
        AdvancedRest(before, list.nodes, p, next, Munged);
        AdvancedLess(before, list.nodes, p, next);
        l := RefinesThen(old(list.nodes), before, list.nodes, l, step, old(temps), t);
        p := next;
      }
    }

    /** One instruction of mir_munge_pointers. Returns the position behind what it became. */
    method MungePointersAt(p: nat) returns (next: nat, ghost l: Layout)
      requires Valid() && p < |list.nodes| && Formed(list.nodes[p].instr) && Munged(list.nodes[p].instr)
      modifies this, list
      ensures Valid() && old(temps) <= temps && Refines(old(list.nodes), list.nodes, l, old(temps))
      ensures Advanced(old(list.nodes), list.nodes, p, next) && AllIn(list.nodes, p, next, Direct)
      ensures Direct(old(list.nodes)[p].instr) ==> list.nodes == old(list.nodes)
    {
      hide WellLinked, LaidOut, KeepsFlow, Simulates, AllBelow, Effect;
      var i := list.nodes[p].instr;
      if IsMemoryOp(i.opcode) {
        RefinesSelf(list.nodes, temps);
        next, l := p + 1, Same(|list.nodes|);
      } else if i.opcode.Call? {
        next, l := MungeCall(p);
      } else if i.opcode.Move? {
        next, l := MungeMove(p);
      } else {
        next, l := MungeOther(p);
      }
    }

    /** Puts a load before the instruction at `p` when one of its sources is dereferenced. Returns the
        instruction's new position. */
    method LoadSource(p: nat, slot: Slot) returns (next: nat, ghost l: Layout)
      requires Valid() && p < |list.nodes|
      requires var i := list.nodes[p].instr;
        Deref(Source(i, slot)) ==> HasSlot(i, slot) && !i.opcode.Label?
      modifies this, list
      ensures Valid() && old(temps) <= temps && Refines(old(list.nodes), list.nodes, l, old(temps))
      ensures Advanced(old(list.nodes), list.nodes, p, next + 1) && AllIn(list.nodes, p, next, Direct)
      ensures p <= next < |list.nodes|
      ensures list.nodes[next].instr == Loaded(old(list.nodes)[p].instr, slot, old(temps))
      ensures !Deref(Source(old(list.nodes)[p].instr, slot)) ==> list.nodes == old(list.nodes) && next == p
    {
      hide WellLinked, LaidOut, KeepsFlow, Simulates, AllBelow, Effect;
      var i := list.nodes[p].instr;
      if Deref(Source(i, slot)) {
        l := Grown(|list.nodes|, p, true);
        PutBefore(p, slot, true);
        next := p + 1;
        WidenedIsAdvanced(old(list.nodes), list.nodes, p, list.nodes[p].instr, list.nodes[next].instr);
        hide Advanced;
      } else {
        RefinesSelf(list.nodes, temps);
        next, l := p, Same(|list.nodes|);
      }
    }

    /** Clears the flag on a call's callee. */
    method NameCallee(p: nat) returns (ghost l: Layout)
      requires Valid() && p < |list.nodes| && Formed(list.nodes[p].instr) && list.nodes[p].instr.opcode.Call?
      modifies list
      ensures Valid() && Refines(old(list.nodes), list.nodes, l, temps)
      ensures p < |list.nodes| && Advanced(old(list.nodes), list.nodes, p, p + 1) && AllIn(list.nodes, p, p, Direct)
      ensures DirectUpTo(list.nodes[p].instr, |old(list.nodes)[p].instr.args|, 0)
      ensures Direct(old(list.nodes)[p].instr) ==> list.nodes == old(list.nodes)
    {
      hide WellLinked, LaidOut, KeepsFlow, Simulates, AllBelow, Effect;
      var i := list.nodes[p].instr;
      CalleeIsSame(i);
      BelowAt(list.nodes, p, temps);
      Replace(p, i.(op0 := Undereferenced(i.op0)));
      l := Same(|list.nodes|);
    }

    /** A call: its callee is named directly and its dereferenced arguments are loaded. */
    method MungeCall(p: nat) returns (next: nat, ghost l: Layout)
      requires Valid() && p < |list.nodes| && Formed(list.nodes[p].instr) && list.nodes[p].instr.opcode.Call?
      modifies this, list
      ensures Valid() && old(temps) <= temps && Refines(old(list.nodes), list.nodes, l, old(temps))
      ensures Advanced(old(list.nodes), list.nodes, p, next) && AllIn(list.nodes, p, next, Direct)
      ensures Direct(old(list.nodes)[p].instr) ==> list.nodes == old(list.nodes)
    {
      hide *;
      ghost var x := list.nodes;
      var n := |list.nodes[p].instr.args|;
      l := NameCallee(p);
      next := p;
      var k := 0;
      while k < n
        invariant 0 <= k <= n && p <= next < |list.nodes| && Valid() && old(temps) <= temps
        invariant Refines(x, list.nodes, l, old(temps))
        invariant Advanced(x, list.nodes, p, next + 1) && AllIn(list.nodes, p, next, Direct)
        invariant DirectUpTo(list.nodes[next].instr, n, k)
        invariant Direct(x[p].instr) ==> list.nodes == x && next == p
      {
        ghost var before, t, m := list.nodes, temps, next;
        ghost var step;
        ArgIsSlot(list.nodes[next].instr, n, k);
        DirectArg(list.nodes[next].instr, k);
        next, step := LoadSource(next, Arg(k));
        LoadedArg(before[m].instr, n, k, t);
        AdvancedThen(x, before, list.nodes, p, m, next + 1);
        AdvancedAll(before, list.nodes, p, m, next + 1, next, Direct);
        l := RefinesThen(x, before, list.nodes, l, step, old(temps), t);
        k := k + 1;
      }
      CallIsDirect(list.nodes[next].instr, n);
      AllInOneMore(list.nodes, p, next, Direct);
      next := next + 1;
    }

    method MungeMove(p: nat) returns (next: nat, ghost l: Layout)
      requires Valid() && p < |list.nodes| && Formed(list.nodes[p].instr) && Munged(list.nodes[p].instr)
      requires list.nodes[p].instr.opcode.Move?
      modifies this, list
      ensures Valid() && old(temps) <= temps && Refines(old(list.nodes), list.nodes, l, old(temps))
      ensures Advanced(old(list.nodes), list.nodes, p, next) && AllIn(list.nodes, p, next, Direct)
      ensures Direct(old(list.nodes)[p].instr) ==> list.nodes == old(list.nodes)
    {
      hide WellLinked, LaidOut, KeepsFlow, Simulates, AllBelow, Effect;
      var i := list.nodes[p].instr;
      l := Same(|list.nodes|);
      next := p + 1;
      if Deref(i.op0) {
        l := Grown(|list.nodes|, p, true);
        PutBefore(p, First, true);
        next := p + 2;
      } else if Deref(i.op2) {
        MoveIsStore(i);
        BelowAt(list.nodes, p, temps);
        Replace(p, i.(opcode := RegStore, op2 := Undereferenced(i.op2)));
      } else {
        RefinesSelf(list.nodes, temps);
      }
    }

    /** Stores the result of the instruction at `p` when it goes through a pointer. */
    method StoreResult(p: nat) returns (next: nat, ghost l: Layout)
      requires Valid() && p < |list.nodes|
      requires var i := list.nodes[p].instr;
        !i.opcode.Call? && !Deref(i.op0) && !Deref(i.op1) && (Deref(i.op2) ==> Computes(i.opcode))
      modifies this, list
      ensures Valid() && old(temps) <= temps && Refines(old(list.nodes), list.nodes, l, old(temps))
      ensures Advanced(old(list.nodes), list.nodes, p, next) && AllIn(list.nodes, p, next, Direct)
      ensures Direct(old(list.nodes)[p].instr) ==> list.nodes == old(list.nodes)
    {
      hide WellLinked, LaidOut, KeepsFlow, Simulates, AllBelow, Effect;
      if Deref(list.nodes[p].instr.op2) {
        l := Grown(|list.nodes|, p, false);
        StoreAfter(p);
        next := p + 2;
        WidenedIsAdvanced(old(list.nodes), list.nodes, p, list.nodes[p].instr, list.nodes[p + 1].instr);
        hide Advanced;
      } else {
        RefinesSelf(list.nodes, temps);
        next, l := p + 1, Same(|list.nodes|);
      }
    }

    /** Loads for both sources, and a store when the result goes through a pointer. */
    method MungeOther(p: nat) returns (next: nat, ghost l: Layout)
      requires Valid() && p < |list.nodes| && Formed(list.nodes[p].instr) && Munged(list.nodes[p].instr)
      requires var o := list.nodes[p].instr.opcode; !o.Move? && !o.Call? && !IsMemoryOp(o)
      modifies this, list
      ensures Valid() && old(temps) <= temps && Refines(old(list.nodes), list.nodes, l, old(temps))
      ensures Advanced(old(list.nodes), list.nodes, p, next) && AllIn(list.nodes, p, next, Direct)
      ensures Direct(old(list.nodes)[p].instr) ==> list.nodes == old(list.nodes)
    {
      hide *;
      ghost var x, i := list.nodes, list.nodes[p].instr;
      LoadedFirst(i, temps);
      DirectSources(i);
      ghost var step;
      next, l := LoadSource(p, First);
      ghost var y, t, m := list.nodes, temps, next;
      LoadedSecond(y[m].instr, t);
      next, step := LoadSource(next, Second);
      l := RefinesThen(x, y, list.nodes, l, step, old(temps), t);
      AdvancedThen(x, y, list.nodes, p, m, next + 1);
      AdvancedAll(y, list.nodes, p, m, next + 1, next, Direct);
      y, t, m := list.nodes, temps, next;
      next, step := StoreResult(next);
      l := RefinesThen(x, y, list.nodes, l, step, old(temps), t);
      AdvancedThen(x, y, list.nodes, p, m, next);
      AdvancedAll(y, list.nodes, p, m, next, next, Direct);
    }

    /** The modelled passes in the order the compiler runs them. */
    method Lower() returns (ghost l: Layout)
      requires Valid() && Every(list.nodes, Formed)
      modifies this, list
      ensures Valid() && Refines(old(list.nodes), list.nodes, l, old(temps))
      ensures Every(list.nodes, Direct) && Every(list.nodes, Folded) && Every(list.nodes, RightHanded)
      ensures Every(old(list.nodes), Settled) ==> Every(list.nodes, Settled)
      ensures Every(old(list.nodes), Finished) ==> list.nodes == old(list.nodes)
      ensures old(temps) <= temps
    {
      SettledIsDirect(list.nodes);
      hide *;
      ghost var n0, t0 := list.nodes, temps;
      l := Munge();
      ghost var n1, t1 := list.nodes, temps;
      ghost var step := MungePointers();
      l := RefinesThen(n0, n1, list.nodes, l, step, t0, t1);
      ghost var n2, t2 := list.nodes, temps;
      step := FoldConstants();
      l := RefinesThen(n0, n2, list.nodes, l, step, t0, t2);
      ghost var n3 := list.nodes;
      step := RhsConstants();
      l := RefinesThen(n0, n3, list.nodes, l, step, t0, t2);
    }
  }

  lemma SettledIsDirect(nodes: seq<Node>)
    ensures Every(nodes, Settled) ==> Every(nodes, Direct)
    ensures Every(nodes, Finished) ==> Every(nodes, Direct) && Every(nodes, Folded)
  {
  }

  /** A call whose callee, and arguments before the `k`th, are direct. */
  predicate DirectUpTo(i: Instr, n: nat, k: nat) {
    && i.opcode.Call? && |i.args| == n && !Deref(i.op0) && !Deref(i.op1) && !Deref(i.op2) && k <= n
    && forall a :: 0 <= a < k ==> !Deref(i.args[a])
  }

  /** What held of every instruction still does. */
  ghost predicate KeepsForms(was: seq<Node>, now: seq<Node>) {
    && (Every(was, Direct) ==> Every(now, Direct))
    && (Every(was, Folded) ==> Every(now, Folded))
    && (Every(was, Settled) ==> Every(now, Settled))
  }

  lemma KeepsFormsThen(x: seq<Node>, y: seq<Node>, z: seq<Node>)
    requires KeepsForms(x, y) && KeepsForms(y, z)
    ensures KeepsForms(x, z)
  {
  }

  lemma KeptIfHeld(was: seq<Node>, now: seq<Node>, p: nat, a: Instr, b: Instr, holds: Instr -> bool)
    requires Widened(was, now, p, a, b) && (holds(was[p].instr) ==> holds(a) && holds(b))
    ensures Every(was, holds) ==> Every(now, holds)
  {
    if Every(was, holds) {
      WidenedAll(was, now, p, a, b, 0, |was|, holds);
    }
  }

  lemma KeptByWidening(was: seq<Node>, now: seq<Node>, p: nat, a: Instr, b: Instr, holds: Instr -> bool)
    requires Widened(was, now, p, a, b) && holds(a)
    requires holds(was[p].instr) ==> holds(b)
    ensures Every(was, holds) ==> Every(now, holds)
  {
    if Every(was, holds) {
      WidenedAll(was, now, p, a, b, 0, |was|, holds);
    }
  }

  lemma AdvancedLess(was: seq<Node>, now: seq<Node>, p: nat, next: nat)
    requires Advanced(was, now, p, next)
    ensures p < next <= |now| && |now| - next < |was| - p
  {
  }

  lemma AllInOneMore(nodes: seq<Node>, from: nat, to: nat, holds: Instr -> bool)
    requires AllIn(nodes, from, to, holds) && to < |nodes| && holds(nodes[to].instr)
    ensures AllIn(nodes, from, to + 1, holds)
  {
  }

  /** A source operand, `Absent` when there is no such argument. */
  function Source(i: Instr, slot: Slot): Operand {
    match slot
    case First => i.op0
    case Second => i.op1
    case Arg(k) => if k < |i.args| then i.args[k] else Absent
  }

  /** The instruction behind the load of a source, if that needs one. */
  function Loaded(i: Instr, slot: Slot, r: nat): Instr
    requires Deref(Source(i, slot)) ==> HasSlot(i, slot)
  {
    if Deref(Source(i, slot)) then Subst(i, slot, Temp(r)) else i
  }

  lemma ArgIsSlot(i: Instr, n: nat, k: nat)
    requires DirectUpTo(i, n, k) && k < n
    ensures HasSlot(i, Arg(k)) && !i.opcode.Label?
  {
  }

  lemma DirectArg(i: Instr, k: nat)
    requires i.opcode.Call?
    ensures Direct(i) ==> !Deref(Source(i, Arg(k)))
  {
  }

  lemma LoadedArg(i: Instr, n: nat, k: nat, r: nat)
    requires DirectUpTo(i, n, k) && k < n && HasSlot(i, Arg(k))
    ensures DirectUpTo(Loaded(i, Arg(k), r), n, k + 1)
  {
  }

  lemma CallIsDirect(i: Instr, n: nat)
    requires DirectUpTo(i, n, n)
    ensures Direct(i)
  {
  }

  lemma DirectSources(i: Instr)
    requires !IsMemoryOp(i.opcode)
    ensures Direct(i) ==> !Deref(Source(i, First)) && !Deref(Source(i, Second))
  {
  }

  lemma LoadedFirst(i: Instr, r: nat)
    requires Formed(i) && Munged(i) && !i.opcode.Move? && !i.opcode.Call? && !IsMemoryOp(i.opcode)
    ensures Deref(Source(i, First)) ==> HasSlot(i, First) && !i.opcode.Label?
    ensures var j := Loaded(i, First, r);
      && !j.opcode.Call? && !Deref(j.op0) && (Deref(Source(j, Second)) ==> HasSlot(j, Second) && !j.opcode.Label?)
      && (Deref(j.op2) ==> Computes(j.opcode))
  {
  }

  lemma LoadedSecond(i: Instr, r: nat)
    requires Deref(Source(i, Second)) ==> HasSlot(i, Second)
    ensures var j := Loaded(i, Second, r);
      j.opcode == i.opcode && j.op0 == i.op0 && !Deref(j.op1) && j.op2 == i.op2
  {
  }

  // ----- Replacements that change nothing -----

  lemma BelowAt(nodes: seq<Node>, p: nat, bound: nat)
    requires AllBelow(nodes, bound) && p < |nodes|
    ensures Below(nodes[p].instr, bound)
  {
  }

  lemma FoldIsMove(i: Instr, move: Instr)
    requires (i.opcode.Add? || i.opcode.Mul?) && i.op0.Const? && i.op1.Const?
    requires var v := if i.opcode.Add? then i.op0.val + i.op1.val else i.op0.val * i.op1.val;
      move == i.(opcode := Move, op0 := Const(Wrap(v)), op1 := Absent)
    ensures SameEffect(i, move) && FoldsTo(i, move)
  {
  }

  lemma SwapIsSame(i: Instr)
    requires i.opcode.Add?
    ensures SameEffect(i, i.(op0 := i.op1, op1 := i.op0))
  {
  }

  lemma ReceiveIsSame(i: Instr)
    requires i.opcode.Receive?
    ensures SameEffect(i, i.(op2 := Undereferenced(i.op2)))
  {
  }

  lemma CalleeIsSame(i: Instr)
    requires i.opcode.Call?
    ensures SameEffect(i, i.(op0 := Undereferenced(i.op0)))
  {
  }

  lemma MoveIsStore(i: Instr)
    requires i.opcode.Move? && Deref(i.op2)
    ensures SameEffect(i, i.(opcode := RegStore, op2 := Undereferenced(i.op2)))
  {
  }

  // ----- The edits seen as changes of instructions -----

  lemma FreshId(nodes: seq<Node>, blank: nat, nextId: nat, inLinks: map<nat, nat>)
    requires WellLinked(nodes, blank, nextId, inLinks)
    ensures Fresh(nodes, nextId) && UniqueIds(nodes)
  {
    assert nextId !in Ids(nodes) + {blank};
  }

  lemma EndIsLast(nodes: seq<Node>, p: nat)
    requires Framed(nodes) && p < |nodes| && !nodes[p].instr.opcode.End?
    ensures p + 1 < |nodes|
  {
  }

  /** All there is to say about an instruction replaced. */
  lemma ReplaceEdit(nodes: seq<Node>, p: nat, instr: Instr, bound: nat)
    requires p < |nodes| && Framed(nodes) && AllBelow(nodes, bound)
    requires SameEffect(nodes[p].instr, instr) && Below(instr, bound)
    requires instr.opcode.Label? || !nodes[p].instr.opcode.Label?
    requires HasSource(nodes[p].instr) ==> HasSource(instr)
    ensures Refines(nodes, Replaced(nodes, p, instr), Same(|nodes|), bound)
    ensures Framed(Replaced(nodes, p, instr)) && AllBelow(Replaced(nodes, p, instr), bound)
  {
    ReplacedLaidOut(nodes, p, instr);
    ReplacedKeepsFlow(nodes, p, instr);
    ReplaceSimulates(nodes, p, instr, bound);
    hide LaidOut, KeepsFlow, Simulates;
  }

  /** All there is to say about a source put in a register first. */
  lemma PrefixEdit(nodes: seq<Node>, p: nat, n: Node, slot: Slot, bound: nat)
    requires 0 < p < |nodes| && UniqueIds(nodes) && Fresh(nodes, n.id) && Framed(nodes) && AllBelow(nodes, bound)
    requires HasSlot(nodes[p].instr, slot) && PutsIn(n.instr, At(nodes[p].instr, slot), bound)
    ensures var after := Prefixed(nodes, p, n, Subst(nodes[p].instr, slot, Temp(bound)));
      && Refines(nodes, after, Grown(|nodes|, p, true), bound)
      && Framed(after) && AllBelow(after, bound + 1)
      && Widened(nodes, after, p, n.instr, Subst(nodes[p].instr, slot, Temp(bound)))
  {
    PrefixedLaidOut(nodes, p, n, Subst(nodes[p].instr, slot, Temp(bound)));
    SubstHasSource(nodes[p].instr, slot, bound);
    PrefixedKeepsFlow(nodes, p, n, Subst(nodes[p].instr, slot, Temp(bound)));
    PrefixSimulates(nodes, p, n, slot, bound);
    PrefixedInstrs(nodes, p, n, slot, bound);
    hide Prefixed, LaidOut, KeepsFlow, Simulates, Framed, AllBelow, Widened;
  }

  lemma SubstHasSource(i: Instr, slot: Slot, r: nat)
    requires HasSlot(i, slot)
    ensures HasSource(Subst(i, slot, Temp(r)))
  {
    if slot.Arg? {
      assert Subst(i, slot, Temp(r)).args[slot.k].Loc?;
    }
  }

  /** All there is to say about a result stored from a register. */
  lemma SuffixEdit(nodes: seq<Node>, p: nat, n: Node, bound: nat)
    requires p + 1 < |nodes| && Fresh(nodes, n.id) && Framed(nodes) && AllBelow(nodes, bound)
    requires Computes(nodes[p].instr.opcode) && Deref(nodes[p].instr.op2)
    requires n.instr == Plain(RegStore, Temp(bound), Absent, Undereferenced(nodes[p].instr.op2))
    ensures var after := Suffixed(nodes, p, n, nodes[p].instr.(op2 := Temp(bound)));
      && Refines(nodes, after, Grown(|nodes|, p, false), bound)
      && Framed(after) && AllBelow(after, bound + 1)
      && Widened(nodes, after, p, nodes[p].instr.(op2 := Temp(bound)), n.instr)
  {
    BelowAt(nodes, p, bound);
    SuffixedLaidOut(nodes, p, n, nodes[p].instr.(op2 := Temp(bound)));
    SuffixedKeepsFlow(nodes, p, n, nodes[p].instr.(op2 := Temp(bound)));
    SuffixSimulates(nodes, p, n, bound);
    SuffixedInstrs(nodes, p, n, bound);
    hide Suffixed, LaidOut, KeepsFlow, Simulates, Framed, AllBelow, Widened;
  }

  lemma PrefixedInstrs(nodes: seq<Node>, p: nat, n: Node, slot: Slot, bound: nat)
    requires 0 < p < |nodes| && Framed(nodes) && AllBelow(nodes, bound)
    requires HasSlot(nodes[p].instr, slot) && PutsIn(n.instr, At(nodes[p].instr, slot), bound)
    ensures var after := Prefixed(nodes, p, n, Subst(nodes[p].instr, slot, Temp(bound)));
      && Framed(after) && AllBelow(after, bound + 1)
      && Widened(nodes, after, p, n.instr, Subst(nodes[p].instr, slot, Temp(bound)))
  {
    var j := Subst(nodes[p].instr, slot, Temp(bound));
    var after := Prefixed(nodes, p, n, j);
    assert after[p].instr == n.instr && after[p + 1].instr == j;
    forall q: nat | q < |nodes| && q != p
      ensures after[if q < p then q else q + 1].instr == nodes[q].instr
    {
      PrefixedAt(nodes, p, n, j, q);
    }
    hide Prefixed;
    WidenedBelow(nodes, after, p, n.instr, j, bound);
  }

  lemma SuffixedInstrs(nodes: seq<Node>, p: nat, n: Node, bound: nat)
    requires p < |nodes| && Framed(nodes) && AllBelow(nodes, bound) && Below(n.instr, bound + 1)
    requires Computes(nodes[p].instr.opcode)
    ensures var after := Suffixed(nodes, p, n, nodes[p].instr.(op2 := Temp(bound)));
      && Framed(after) && AllBelow(after, bound + 1)
      && Widened(nodes, after, p, nodes[p].instr.(op2 := Temp(bound)), n.instr)
  {
    var j := nodes[p].instr.(op2 := Temp(bound));
    var after := Suffixed(nodes, p, n, j);
    forall q: nat | q < |nodes| && q != p
      ensures after[if q < p then q else q + 1].instr == nodes[q].instr
    {
      assert Inserted(nodes, p + 1, n)[if q < p then q else q + 1] == nodes[q];
    }
    WidenedBelow(nodes, after, p, j, n.instr, bound);
  }

  lemma WidenedBelow(nodes: seq<Node>, after: seq<Node>, p: nat, a: Instr, b: Instr, bound: nat)
    requires Widened(nodes, after, p, a, b) && AllBelow(nodes, bound) && Below(a, bound + 1) && Below(b, bound + 1)
    ensures AllBelow(after, bound + 1)
  {
    forall q | 0 <= q < |after|
      ensures Below(after[q].instr, bound + 1)
    {
      if q < p {
        assert after[q].instr == nodes[q].instr;
      } else if q > p + 1 {
        assert after[q].instr == nodes[q - 1].instr;
      }
    }
  }
}
