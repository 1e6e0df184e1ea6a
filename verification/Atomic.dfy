/** Atomic blocks over scalar history variables (history.c): what the generator records and emits, and
    what a block does to the histories. */
module Atomic {
  import opened Sequences
  import opened History
  import opened Wrappers
  import opened Source

  /** A right-hand side; `Past(x, k)` is the value x had `k` assignments ago (x:k). */
  datatype Value = Lit(n: int) | Past(x: nat, k: nat) | Calc(op: ArithOp, l: Value, r: Value)

  datatype Statement =
    | Set(x: nat, v: Value)
    | When(cond: Value, body: seq<Statement>)
    | Block(body: seq<Statement>)

  /** What is stored: a value, or the copy variable of a history variable. */
  datatype Src = FromValue(v: Value) | FromCopy(x: nat)

  datatype Instr =
    | MoveToCopy(x: nat, src: Src)   // a MOVE to x's copy variable
    | PushEntry(x: nat, src: Src)    // a store that makes a history entry
    | Guarded(cond: Value, code: seq<Instr>)   // an IF whose jump leads behind the code

  // ----- What the code does -----

  /** The histories of the variables, each with its current value first, and the copy variables. */
  datatype State = State(hist: map<nat, seq<int>>, copy: map<nat, int>)

  function ValueOf(v: Value, hist: map<nat, seq<int>>): int {
    match v
    case Lit(n) => n
    case Past(x, k) => if x in hist && k < |hist[x]| then hist[x][k] else 0
    case Calc(op, l, r) => Calculate(op, ValueOf(l, hist), ValueOf(r, hist))
  }

  function Read(src: Src, s: State): int {
    match src
    case FromValue(v) => ValueOf(v, s.hist)
    case FromCopy(x) => if x in s.copy then s.copy[x] else 0
  }

  function Do(i: Instr, s: State): State
    decreases i, 0
  {
    match i
    case MoveToCopy(x, src) => s.(copy := s.copy[x := Read(src, s)])
    case PushEntry(x, src) =>
      if x in s.hist && |s.hist[x]| > 0 then s.(hist := s.hist[x := Push(s.hist[x], Read(src, s))]) else s
    case Guarded(cond, code) =>
      if ValueOf(cond, s.hist) != 0 then DoAll(code, s) else s
  }

  function DoAll(code: seq<Instr>, s: State): State
    decreases code, 0
  {
    if code == [] then s else DoAll(code[1..], Do(code[0], s))
  }

  lemma {:induction false} DoConcat(a: seq<Instr>, b: seq<Instr>, s: State)
    ensures DoAll(a + b, s) == DoAll(b, DoAll(a, s))
    decreases |a|
  {
    if a == [] {
      assert a + b == b;
    } else {
      assert (a + b)[1..] == a[1..] + b;
      DoConcat(a[1..], b, Do(a[0], s));
    }
  }

  // ----- What the generator emits -----

  /** mark_atomic_modified: every variable is listed once, behind those listed before. */
  function Marked(modified: seq<nat>, x: nat): (r: seq<nat>)
    ensures modified <= r && x in r && |r| <= |modified| + 1
  {
    if x in modified then modified else modified + [x]
  }

  /** Storing the copy of a listed variable. Inside another block that only moves it to itself. */
  function StoreCopy(x: nat, nested: bool): Instr {
    if nested then MoveToCopy(x, FromCopy(x)) else PushEntry(x, FromCopy(x))
  }

  function Flush(modified: seq<nat>, nested: bool): (code: seq<Instr>)
    ensures |code| == |modified| && forall i :: 0 <= i < |code| ==> code[i] == StoreCopy(modified[i], nested)
  {
    seq(|modified|, i requires 0 <= i < |modified| => StoreCopy(modified[i], nested))
  }

  datatype Emitted = Emitted(code: seq<Instr>, modified: seq<nat>)

  function Gen(s: Statement, counter: nat, modified: seq<nat>): Emitted
    decreases s, 0
  {
    match s
    case Set(x, v) =>
      if counter > 0 then Emitted([MoveToCopy(x, FromValue(v))], Marked(modified, x))
      else Emitted([PushEntry(x, FromValue(v))], modified)
    case When(cond, body) =>
      var inner := GenAll(body, counter, modified);
      Emitted([Guarded(cond, inner.code)], inner.modified)
    case Block(body) =>
      var inner := GenAll(body, counter + 1, []);
      Emitted(inner.code + Flush(inner.modified, counter > 0), inner.modified)
  }

  function GenAll(ss: seq<Statement>, counter: nat, modified: seq<nat>): Emitted
    decreases ss, 0
  {
    if ss == [] then Emitted([], modified)
    else
      var a := Gen(ss[0], counter, modified);
      var b := GenAll(ss[1..], counter, a.modified);
      Emitted(a.code + b.code, b.modified)
  }

  /** The static state of history.c and the code emitted so far. */
  class Generator {
    var atomicCounter: nat
    var atomicModified: seq<nat>
    var code: seq<Instr>

    constructor ()
      ensures atomicCounter == 0 && atomicModified == [] && code == []
    {
      atomicCounter, atomicModified, code := 0, [], [];
    }

    /** history_enter_atomic: clears the list, also when it is an outer block's. */
    method EnterAtomic()
      modifies this
      ensures atomicCounter == old(atomicCounter) + 1 && atomicModified == [] && code == old(code)
    {
      atomicCounter := atomicCounter + 1;
      atomicModified := [];
    }

    method MarkAtomicModified(x: nat)
      modifies this`atomicModified
      ensures atomicModified ==
        if atomicCounter == 0 then old(atomicModified) else Marked(old(atomicModified), x)
    {
      if atomicCounter == 0 {
        return;
      }
      var i := 0;
      while i < |atomicModified|
        invariant 0 <= i <= |atomicModified| && x !in atomicModified[..i]
        invariant atomicModified == old(atomicModified)
      {
        if atomicModified[i] == x {
          return;
        }
        i := i + 1;
      }
      atomicModified := atomicModified + [x];
    }

    /** history_store for a scalar: inside a block only the copy variable is assigned. */
    method HistoryStore(x: nat, src: Src)
      modifies this`atomicModified, this`code
      ensures atomicModified == if atomicCounter == 0 then old(atomicModified) else Marked(old(atomicModified), x)
      ensures code == old(code) + [if atomicCounter > 0 then MoveToCopy(x, src) else PushEntry(x, src)]
    {
      if atomicCounter > 0 {
        MarkAtomicModified(x);
        code := code + [MoveToCopy(x, src)];
        return;
      }
      code := code + [PushEntry(x, src)];
    }

    /** history_exit_atomic: stores the copy of every modified variable. */
    method ExitAtomic()
      requires atomicCounter > 0
      modifies this
      ensures atomicCounter == old(atomicCounter) - 1 && atomicModified == old(atomicModified)
      ensures code == old(code) + Flush(atomicModified, atomicCounter > 0)
    {
      atomicCounter := atomicCounter - 1;
      ghost var flush := Flush(atomicModified, atomicCounter > 0);
      var i := 0;
      while i < |atomicModified|
        invariant 0 <= i <= |atomicModified| && atomicModified == old(atomicModified)
        invariant atomicCounter == old(atomicCounter) - 1 && code == old(code) + flush[..i]
      {
        HistoryStore(atomicModified[i], FromCopy(atomicModified[i]));
        i := i + 1;
      }
    }

    /** parse_statement, for assignments to history variables, IFs and atomic blocks. */
    method ParseStatement(s: Statement)
      modifies this
      ensures atomicCounter == old(atomicCounter)
      ensures var g := Gen(s, old(atomicCounter), old(atomicModified));
        code == old(code) + g.code && atomicModified == g.modified
      decreases s, 0
    {
      match s {
        case Set(x, v) =>
          HistoryStore(x, FromValue(v));
        case When(cond, body) =>
          var before := code;
          code := [];
          ghost var inner := GenAll(body, atomicCounter, atomicModified);
          ParseBlock(body);
          assert code == inner.code;
          code := before + [Guarded(cond, code)];
        case Block(body) =>
          EnterAtomic();
          ParseBlock(body);
          ExitAtomic();
      }
    }

    method ParseBlock(ss: seq<Statement>)
      modifies this
      ensures atomicCounter == old(atomicCounter)
      ensures var g := GenAll(ss, old(atomicCounter), old(atomicModified));
        code == old(code) + g.code && atomicModified == g.modified
      decreases ss, 0
    {
      ghost var all := GenAll(ss, atomicCounter, atomicModified);
      var i := 0;
      while i < |ss|
        invariant 0 <= i <= |ss| && atomicCounter == old(atomicCounter)
        invariant code + GenAll(ss[i..], atomicCounter, atomicModified).code == old(code) + all.code
        invariant GenAll(ss[i..], atomicCounter, atomicModified).modified == all.modified
      {
        assert ss[i..][1..] == ss[i + 1..];
        ghost var was := code;
        ghost var a := Gen(ss[i], atomicCounter, atomicModified);
        ParseStatement(ss[i]);
        assert was + (a.code + GenAll(ss[i + 1..], atomicCounter, a.modified).code)
          == (was + a.code) + GenAll(ss[i + 1..], atomicCounter, a.modified).code;
        i := i + 1;
      }
    }
  }

  // ----- What a block is for -----

  /** The last value assigned to `x` when the conditions read the histories `h`. */
  function LastSet(s: Statement, h: map<nat, seq<int>>, x: nat): Option<Value>
    decreases s, 0
  {
    match s
    case Set(y, v) => if x == y then Some(v) else None
    case When(cond, body) => if ValueOf(cond, h) != 0 then LastOf(body, h, x) else None
    case Block(body) => LastOf(body, h, x)
  }

  function LastOf(ss: seq<Statement>, h: map<nat, seq<int>>, x: nat): Option<Value>
    decreases ss, 0
  {
    if ss == [] then None
    else
      var later := LastOf(ss[1..], h, x);
      if later.Some? then later else LastSet(ss[0], h, x)
  }

  /** `x` is assigned somewhere in the text. */
  predicate Assigns(s: Statement, x: nat)
    decreases s, 0
  {
    match s
    case Set(y, _) => x == y
    case When(_, body) => AssignsAny(body, x)
    case Block(body) => AssignsAny(body, x)
  }

  predicate AssignsAny(ss: seq<Statement>, x: nat)
    decreases ss, 0
  {
    ss != [] && (Assigns(ss[0], x) || AssignsAny(ss[1..], x))
  }

  /** The variables that are still listed when a block ends: a nested block forgets those before it, and an
      IF lists what its body assigns whether or not it is taken. */
  function Listed(s: Statement, before: set<nat>): set<nat>
    decreases s, 0
  {
    match s
    case Set(x, _) => before + {x}
    case When(_, body) => ListedAll(body, before)
    case Block(body) => ListedAll(body, {})
  }

  function ListedAll(ss: seq<Statement>, before: set<nat>): set<nat>
    decreases ss, 0
  {
    if ss == [] then before else ListedAll(ss[1..], Listed(ss[0], before))
  }

  function SetOf(m: seq<nat>): set<nat> {
    set x | x in m
  }

  lemma {:induction false} ModifiedIsListed(s: Statement, counter: nat, modified: seq<nat>)
    requires counter > 0 && Distinct(modified)
    ensures Distinct(Gen(s, counter, modified).modified)
    ensures SetOf(Gen(s, counter, modified).modified) == Listed(s, SetOf(modified))
    decreases s, 0
  {
    match s
    case Set(x, _) =>
    case When(_, body) =>
      AllModifiedAreListed(body, counter, modified);
    case Block(body) =>
      assert SetOf([]) == {};
      AllModifiedAreListed(body, counter + 1, []);
  }

  lemma {:induction false} AllModifiedAreListed(ss: seq<Statement>, counter: nat, modified: seq<nat>)
    requires counter > 0 && Distinct(modified)
    ensures Distinct(GenAll(ss, counter, modified).modified)
    ensures SetOf(GenAll(ss, counter, modified).modified) == ListedAll(ss, SetOf(modified))
    decreases ss, 0
  {
    if ss != [] {
      ModifiedIsListed(ss[0], counter, modified);
      AllModifiedAreListed(ss[1..], counter, Gen(ss[0], counter, modified).modified);
    }
  }

  /** `t` has the histories of `s`, and the copies of the variables that were assigned hold the last values, all
      computed from those histories. */
  ghost predicate Copied(s: State, t: State, last: nat -> Option<Value>) {
    && t.hist == s.hist
    && forall x: nat :: Read(FromCopy(x), t) ==
         if last(x).Some? then ValueOf(last(x).value, s.hist) else Read(FromCopy(x), s)
  }

  lemma {:induction false} SelfMoves(modified: seq<nat>, s: State)
    ensures DoAll(Flush(modified, true), s).hist == s.hist
    ensures forall x: nat :: Read(FromCopy(x), DoAll(Flush(modified, true), s)) == Read(FromCopy(x), s)
    decreases |modified|
  {
    if modified != [] {
      var code := Flush(modified, true);
      assert code[1..] == Flush(modified[1..], true);
      SelfMoves(modified[1..], Do(code[0], s));
    }
  }

  lemma DoOne(i: Instr, s: State)
    ensures DoAll([i], s) == Do(i, s)
  {
    assert [i][1..] == [] && DoAll([], Do(i, s)) == Do(i, s);
  }

  /** Inside a block code only fills copies. */
  lemma {:induction false} InsideCopies(c: Statement, counter: nat, modified: seq<nat>, s: State)
    requires counter > 0
    ensures Copied(s, DoAll(Gen(c, counter, modified).code, s), (x: nat) => LastSet(c, s.hist, x))
    decreases c, 0
  {
    match c
    case Set(x, v) =>
      DoOne(MoveToCopy(x, FromValue(v)), s);
    case When(cond, body) =>
      DoOne(Guarded(cond, GenAll(body, counter, modified).code), s);
      InsideCopiesAll(body, counter, modified, s);
    case Block(body) =>
      var inner := GenAll(body, counter + 1, []);
      DoConcat(inner.code, Flush(inner.modified, true), s);
      InsideCopiesAll(body, counter + 1, [], s);
      SelfMoves(inner.modified, DoAll(inner.code, s));
  }

  lemma {:induction false} InsideCopiesAll(ss: seq<Statement>, counter: nat, modified: seq<nat>, s: State)
    requires counter > 0
    ensures Copied(s, DoAll(GenAll(ss, counter, modified).code, s), (x: nat) => LastOf(ss, s.hist, x))
    decreases ss, 0
  {
    if ss != [] {
      var a := Gen(ss[0], counter, modified);
      var b := GenAll(ss[1..], counter, a.modified);
      DoConcat(a.code, b.code, s);
      InsideCopies(ss[0], counter, modified, s);
      InsideCopiesAll(ss[1..], counter, a.modified, DoAll(a.code, s));
    }
  }

  /** Storing the copies gives every listed variable one entry and touches no other. */
  lemma {:induction false} FlushPushes(modified: seq<nat>, s: State)
    requires Distinct(modified) && forall x :: x in modified ==> x in s.hist && |s.hist[x]| > 0
    ensures var t := DoAll(Flush(modified, false), s);
      && t.hist.Keys == s.hist.Keys
      && forall x :: x in s.hist ==>
           t.hist[x] == if x in modified then Push(s.hist[x], Read(FromCopy(x), s)) else s.hist[x]
    decreases |modified|
  {
    if modified != [] {
      var code := Flush(modified, false);
      assert code[1..] == Flush(modified[1..], false);
      var m := Do(code[0], s);
      forall x | x in modified[1..]
        ensures x != modified[0] && x in m.hist && |m.hist[x]| > 0
      {
        var i :| 0 <= i < |modified| - 1 && modified[1..][i] == x;
        assert modified[i + 1] == x;
      }
      FlushPushes(modified[1..], m);
      assert modified[0] !in modified[1..];
    }
  }

  /** Every variable assigned has a history, and every history has at least its current value. */
  ghost predicate Declared(body: seq<Statement>, s: State) {
    && (forall x :: AssignsAny(body, x) ==> x in s.hist)
    && forall x :: x in s.hist ==> |s.hist[x]| > 0
  }

  /** The last value a block assigned to `x`, or what is left in the copy when it assigned none. */
  function CopyAfter(body: seq<Statement>, s: State, x: nat): int {
    var last := LastOf(body, s.hist, x);
    if last.Some? then ValueOf(last.value, s.hist) else Read(FromCopy(x), s)
  }

  /** An atomic block, nested blocks and IFs and all, gives every variable listed at its end exactly one
      new history entry, the last value assigned to it or, when every assignment to it was skipped, the
      stale value of its copy, and leaves every other history alone. All reads inside see the histories
      from before the block. */
  lemma AtomicBlock(body: seq<Statement>, modified: seq<nat>, s: State)
    requires Declared(body, s)
    ensures var t := DoAll(Gen(Block(body), 0, modified).code, s);
      && t.hist.Keys == s.hist.Keys
      && forall x :: x in s.hist ==>
           t.hist[x] == if x in ListedAll(body, {}) then Push(s.hist[x], CopyAfter(body, s, x)) else s.hist[x]
  {
    var inner := GenAll(body, 1, []);
    DoConcat(inner.code, Flush(inner.modified, false), s);
    InsideCopiesAll(body, 1, [], s);
    assert SetOf([]) == {};
    AllModifiedAreListed(body, 1, []);
    forall x
      ensures x in inner.modified <==> x in ListedAll(body, {})
      ensures x in inner.modified ==> AssignsAny(body, x)
    {
      assert x in inner.modified <==> x in SetOf(inner.modified);
      ListedIsAssigned(body, {}, x);
    }
    FlushPushes(inner.modified, DoAll(inner.code, s));
  }

  lemma {:induction false} ListedIsAssigned(ss: seq<Statement>, before: set<nat>, x: nat)
    ensures x in ListedAll(ss, before) ==> x in before || AssignsAny(ss, x)
    decreases ss, 0
  {
    if ss != [] {
      ListedIsAssigned(ss[1..], Listed(ss[0], before), x);
      if ss[0].Block? {
        ListedIsAssigned(ss[0].body, {}, x);
      } else if ss[0].When? {
        ListedIsAssigned(ss[0].body, before, x);
      }
    }
  }

  /** What a block is for: one entry, the last value assigned, for every variable it assigned. */
  ghost predicate OneEntryEach(body: seq<Statement>, s: State, t: State, x: nat)
    requires x in s.hist && |s.hist[x]| > 0 && x in t.hist
  {
    var last := LastOf(body, s.hist, x);
    t.hist[x] == if last.Some? then Push(s.hist[x], ValueOf(last.value, s.hist)) else s.hist[x]
  }

  /** Nothing but `v`, so that another entry `v` changes nothing. */
  ghost predicate Steady(h: seq<int>, v: int) {
    forall k :: 0 <= k < |h| ==> h[k] == v
  }

  lemma {:induction false} SteadyUpTo(h: seq<int>, v: int, k: nat)
    requires |h| > 0 && Push(h, v) == h && k < |h|
    ensures h[k] == v
  {
    assert h[k] == Push(h, v)[k];
    if k > 0 {
      SteadyUpTo(h, v, k - 1);
    }
  }

  lemma PushSteady(h: seq<int>, v: int)
    requires |h| > 0
    ensures Push(h, v) == h <==> Steady(h, v)
  {
    if Push(h, v) == h {
      forall k | 0 <= k < |h|
        ensures h[k] == v
      {
        SteadyUpTo(h, v, k);
      }
    }
  }

  /** A variable gets what the block is for exactly when it is listed if and only if it was assigned -
      no IF around all its assignments was skipped, no nested block forgot it - or one entry more or less
      does not show. */
  lemma BlockDoesItsJob(body: seq<Statement>, modified: seq<nat>, s: State, x: nat)
    requires Declared(body, s) && x in s.hist
    ensures var t := DoAll(Gen(Block(body), 0, modified).code, s);
      && x in t.hist
      && (OneEntryEach(body, s, t, x) <==>
            (x in ListedAll(body, {}) <==> LastOf(body, s.hist, x).Some?) || Steady(s.hist[x], CopyAfter(body, s, x)))
  {
    AtomicBlock(body, modified, s);
    PushSteady(s.hist[x], CopyAfter(body, s, x));
    hide Gen, DoAll, LastOf, ListedAll, Declared, Push, Read;
  }

  predicate Flat(ss: seq<Statement>) {
    forall i :: 0 <= i < |ss| ==> ss[i].Set?
  }

  lemma {:induction false} FlatListsAll(ss: seq<Statement>, before: set<nat>, x: nat)
    requires Flat(ss)
    ensures x in ListedAll(ss, before) <==> x in before || AssignsAny(ss, x)
    ensures forall h: map<nat, seq<int>> :: LastOf(ss, h, x).Some? <==> AssignsAny(ss, x)
  {
    if ss != [] {
      assert forall i :: 0 <= i < |ss[1..]| ==> ss[1..][i] == ss[i + 1];
      FlatListsAll(ss[1..], Listed(ss[0], before), x);
    }
  }

  /** A block of assignments alone adds exactly one entry for every variable assigned in it. */
  lemma FlatBlock(body: seq<Statement>, modified: seq<nat>, s: State)
    requires Flat(body) && Declared(body, s)
    ensures var t := DoAll(Gen(Block(body), 0, modified).code, s);
      t.hist.Keys == s.hist.Keys && forall x :: x in s.hist ==> OneEntryEach(body, s, t, x)
  {
    AtomicBlock(body, modified, s);
    forall x | x in s.hist
      ensures OneEntryEach(body, s, DoAll(Gen(Block(body), 0, modified).code, s), x)
    {
      FlatListsAll(body, {}, x);
      BlockDoesItsJob(body, modified, s, x);
    }
  }

  /** An IF that is not taken gives every variable assigned in it an entry all the same: the stale copy. */
  lemma SkippedIfPushesCopies(cond: Value, body: seq<Statement>, modified: seq<nat>, s: State, x: nat)
    requires Flat(body) && Declared(body, s) && ValueOf(cond, s.hist) == 0 && AssignsAny(body, x)
    ensures var t := DoAll(Gen(Block([When(cond, body)]), 0, modified).code, s);
      && x in t.hist && x in s.hist && t.hist[x] == Push(s.hist[x], Read(FromCopy(x), s))
      && LastOf([When(cond, body)], s.hist, x).None?
  {
    var block := [When(cond, body)];
    assert block[1..] == [];
    forall y
      ensures AssignsAny(block, y) ==> AssignsAny(body, y)
    {
      assert !AssignsAny(block[1..], y) && Assigns(block[0], y) == AssignsAny(body, y);
    }
    AtomicBlock(block, modified, s);
    FlatListsAll(body, {}, x);
    assert ListedAll(block[1..], Listed(block[0], {})) == Listed(block[0], {}) == ListedAll(body, {});
    assert x in ListedAll(block, {});
    assert LastOf(block[1..], s.hist, x).None? && LastSet(block[0], s.hist, x).None?;
    assert CopyAfter(block, s, x) == Read(FromCopy(x), s);
  }

  /** A nested block loses exactly the assignments made before it that neither it nor what follows
      repeats: those variables get no entry. */
  lemma NestedBlockForgets(before: seq<Statement>, inner: seq<Statement>, after: seq<Statement>, modified: seq<nat>,
                           s: State)
    requires Flat(before) && Flat(inner) && Flat(after) && Declared(before + [Block(inner)] + after, s)
    ensures var body := before + [Block(inner)] + after;
      var t := DoAll(Gen(Block(body), 0, modified).code, s);
      && t.hist.Keys == s.hist.Keys
      && forall x :: x in s.hist ==>
           t.hist[x] ==
             if AssignsAny(inner, x) || AssignsAny(after, x) then Push(s.hist[x], CopyAfter(inner + after, s, x))
             else s.hist[x]
  {
    var body := before + [Block(inner)] + after;
    AtomicBlock(body, modified, s);
    forall x
      ensures x in ListedAll(body, {}) <==> AssignsAny(inner, x) || AssignsAny(after, x)
      ensures AssignsAny(inner, x) || AssignsAny(after, x) ==>
        LastOf(body, s.hist, x) == LastOf(inner + after, s.hist, x)
    {
      NestedLists(before, inner, after, s.hist, x);
    }
  }

  lemma NestedLists(before: seq<Statement>, inner: seq<Statement>, after: seq<Statement>, h: map<nat, seq<int>>, x: nat)
    requires Flat(before) && Flat(inner) && Flat(after)
    ensures var body := before + [Block(inner)] + after;
      && (x in ListedAll(body, {}) <==> AssignsAny(inner, x) || AssignsAny(after, x))
      && (AssignsAny(inner, x) || AssignsAny(after, x) ==> LastOf(body, h, x) == LastOf(inner + after, h, x))
  {
    assert [Block(inner)][1..] == [];
    ListedConcat(before + [Block(inner)], after, {});
    ListedConcat(before, [Block(inner)], {});
    FlatListsAll(inner, {}, x);
    FlatListsAll(after, ListedAll(inner, {}), x);
    LastConcat(before + [Block(inner)], after, h, x);
    LastConcat(before, [Block(inner)], h, x);
    LastConcat(inner, after, h, x);
    assert LastOf([Block(inner)], h, x) == LastOf(inner, h, x);
    hide Flat, Assigns, AssignsAny, LastOf, LastSet, ListedAll;
  }

  lemma {:induction false} LastConcat(a: seq<Statement>, b: seq<Statement>, h: map<nat, seq<int>>, x: nat)
    ensures LastOf(a + b, h, x) == if LastOf(b, h, x).Some? then LastOf(b, h, x) else LastOf(a, h, x)
    decreases |a|
  {
    if a == [] {
      assert a + b == b;
    } else {
      assert (a + b)[1..] == a[1..] + b;
      LastConcat(a[1..], b, h, x);
    }
  }

  lemma {:induction false} ListedConcat(a: seq<Statement>, b: seq<Statement>, before: set<nat>)
    ensures ListedAll(a + b, before) == ListedAll(b, ListedAll(a, before))
    decreases |a|
  {
    if a == [] {
      assert a + b == b;
    } else {
      assert (a + b)[1..] == a[1..] + b;
      ListedConcat(a[1..], b, Listed(a[0], before));
    }
  }
}
