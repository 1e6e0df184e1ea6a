/** What statements over history variables mean, blocks or not, and that the emitted code does that
    (history.c, README.md:93-118). */
module HistoryStatements {
  import opened Wrappers
  import Mir
  import Source
  import opened History
  import opened Atomic

  // ----- Meaning -----

  /** The histories, each with its current value first, and what every variable's copy holds. */
  datatype Memory = Memory(hist: map<nat, seq<int>>, copy: nat -> int)

  function Entered(h: seq<int>, v: int): seq<int> {
    if h == [] then h else Push(h, v)
  }

  /** An assignment outside a block makes an entry. A block leaves the last value assigned to each variable
      in its copy and makes one entry from the copy of every variable listed at its end. */
  function After(c: Statement, m: Memory): Memory
    decreases c, 0
  {
    match c
    case Set(x, v) =>
      if x in m.hist then m.(hist := m.hist[x := Entered(m.hist[x], ValueOf(v, m.hist))]) else m
    case When(cond, body) =>
      if ValueOf(cond, m.hist) != 0 then AfterAll(body, m) else m
    case Block(body) =>
      var copy := (x: nat) => CopyOf(body, m, x);
      Memory(
        map x | x in m.hist :: if x in ListedAll(body, {}) then Entered(m.hist[x], copy(x)) else m.hist[x], copy)
  }

  function CopyOf(body: seq<Statement>, m: Memory, x: nat): int {
    var last := LastOf(body, m.hist, x);
    if last.Some? then ValueOf(last.value, m.hist) else m.copy(x)
  }

  function AfterAll(ss: seq<Statement>, m: Memory): Memory
    decreases ss, 0
  {
    if ss == [] then m else AfterAll(ss[1..], After(ss[0], m))
  }

  /** `s` is a state of the running code with the memory `m`. */
  ghost predicate Remembers(s: State, m: Memory) {
    s.hist == m.hist && forall x: nat :: Read(FromCopy(x), s) == m.copy(x)
  }

  // ----- The emitted code -----

  /** Outside a block an assignment is one entry in one history: its value goes in front, the oldest value
      goes, and no other history and no copy changes. */
  lemma AssignmentMakesEntry(x: nat, v: Value, modified: seq<nat>, s: State)
    requires x in s.hist && |s.hist[x]| > 0
    ensures var t := DoAll(Gen(Set(x, v), 0, modified).code, s);
      && t.copy == s.copy && t.hist.Keys == s.hist.Keys
      && |t.hist[x]| == |s.hist[x]| && t.hist[x][0] == ValueOf(v, s.hist)
      && (forall k :: 1 <= k < |s.hist[x]| ==> t.hist[x][k] == s.hist[x][k - 1])
      && forall y :: y in s.hist && y != x ==> t.hist[y] == s.hist[y]
  {
    DoOne(PushEntry(x, FromValue(v)), s);
  }

  /** A block on the way outside: AtomicBlock for the histories, and what it leaves in the copies. */
  lemma BlockMeans(body: seq<Statement>, modified: seq<nat>, s: State, m: Memory)
    requires Declared(body, s) && Remembers(s, m)
    ensures Remembers(DoAll(Gen(Block(body), 0, modified).code, s), After(Block(body), m))
  {
    var inner := GenAll(body, 1, []);
    var code := Flush(inner.modified, false);
    DoConcat(inner.code, code, s);
    InsideCopiesAll(body, 1, [], s);
    AtomicBlock(body, modified, s);
    var t := DoAll(inner.code, s);
    FlushKeepsCopies(inner.modified, t);
    var u := DoAll(Gen(Block(body), 0, modified).code, s);
    forall x: nat
      ensures Read(FromCopy(x), u) == CopyOf(body, m, x) == CopyAfter(body, s, x)
    {
    }
  }

  lemma {:induction false} FlushKeepsCopies(modified: seq<nat>, s: State)
    ensures DoAll(Flush(modified, false), s).copy == s.copy
    decreases |modified|
  {
    if modified != [] {
      var code := Flush(modified, false);
      assert code[1..] == Flush(modified[1..], false);
      FlushKeepsCopies(modified[1..], Do(code[0], s));
    }
  }

  /** The code of a statement outside any block does what the statement means. */
  lemma {:induction false} StatementMeans(c: Statement, modified: seq<nat>, s: State, m: Memory)
    requires Declared([c], s) && Remembers(s, m)
    ensures Remembers(DoAll(Gen(c, 0, modified).code, s), After(c, m))
    decreases c, 0
  {
    assert [c][1..] == [];
    match c
    case Set(x, v) =>
      DoOne(PushEntry(x, FromValue(v)), s);
    case When(cond, body) =>
      DoOne(Guarded(cond, GenAll(body, 0, modified).code), s);
      SameDeclared(body, [c], s);
      StatementsMean(body, modified, s, m);
    case Block(body) =>
      SameDeclared(body, [c], s);
      BlockMeans(body, modified, s, m);
  }

  /** So does that of assignments, IFs and blocks one after the other. */
  lemma {:induction false} StatementsMean(ss: seq<Statement>, modified: seq<nat>, s: State, m: Memory)
    requires Declared(ss, s) && Remembers(s, m)
    ensures Remembers(DoAll(GenAll(ss, 0, modified).code, s), AfterAll(ss, m))
    decreases ss, 0
  {
    if ss != [] {
      var a := Gen(ss[0], 0, modified);
      var b := GenAll(ss[1..], 0, a.modified);
      DoConcat(a.code, b.code, s);
      SameDeclared([ss[0]], ss, s);
      StatementMeans(ss[0], modified, s, m);
      var t := DoAll(a.code, s);
      KeepsHistories(ss[0], m);
      StatementsMean(ss[1..], a.modified, t, After(ss[0], m));
    }
  }

  lemma SameDeclared(a: seq<Statement>, b: seq<Statement>, s: State)
    requires Declared(b, s) && forall x :: AssignsAny(a, x) ==> AssignsAny(b, x)
    ensures Declared(a, s)
  {
  }

  /** No statement adds a history or changes how many values one keeps. */
  lemma {:induction false} KeepsHistories(c: Statement, m: Memory)
    ensures var t := After(c, m); t.hist.Keys == m.hist.Keys && forall x :: x in m.hist ==> |t.hist[x]| == |m.hist[x]|
    decreases c, 0
  {
    if c.When? {
      AllKeepHistories(c.body, m);
    }
  }

  lemma {:induction false} AllKeepHistories(ss: seq<Statement>, m: Memory)
    ensures var t := AfterAll(ss, m);
      t.hist.Keys == m.hist.Keys && forall x :: x in m.hist ==> |t.hist[x]| == |m.hist[x]|
    decreases ss, 0
  {
    if ss != [] {
      KeepsHistories(ss[0], m);
      AllKeepHistories(ss[1..], After(ss[0], m));
    }
  }

  // ----- Reading the past -----

  function Assignments(x: nat, vs: seq<int>): (r: seq<Statement>)
    ensures |r| == |vs| && forall i :: 0 <= i < |vs| ==> r[i] == Set(x, Lit(vs[i]))
  {
    seq(|vs|, i requires 0 <= i < |vs| => Set(x, Lit(vs[i])))
  }

  /** After any assignments, reading the past of depth `k` gives the value assigned `k` assignments ago, or
      when there were not as many, an entry from before. */
  lemma {:induction false} PastIsRead(x: nat, vs: seq<int>, k: nat, modified: seq<nat>, s: State)
    requires x in s.hist && k < |s.hist[x]|
    ensures ValueOf(Past(x, k), DoAll(GenAll(Assignments(x, vs), 0, modified).code, s).hist) ==
      if k < |vs| then vs[|vs| - 1 - k] else s.hist[x][k - |vs|]
    decreases |vs|
  {
    if vs != [] {
      var ss := Assignments(x, vs);
      assert ss[1..] == Assignments(x, vs[1..]);
      var a := Gen(ss[0], 0, modified);
      DoConcat(a.code, GenAll(ss[1..], 0, a.modified).code, s);
      AssignmentMakesEntry(x, Lit(vs[0]), modified, s);
      PastIsRead(x, vs[1..], k, modified, DoAll(a.code, s));
    }
  }

  function Countdown(x: nat, n: nat): (r: seq<Statement>)
    ensures |r| == n && forall i :: 0 <= i < n ==> r[i] == Set(x, Calc(Source.Minus, Past(x, 0), Lit(1)))
  {
    seq(n, _ => Set(x, Calc(Source.Minus, Past(x, 0), Lit(1))))
  }

  /** Counting down `n` times from the current value leaves the numbers passed on the way in the history,
      the last one first. */
  lemma {:induction false} CountsDown(x: nat, n: nat, k: nat, modified: seq<nat>, s: State)
    requires x in s.hist && k < |s.hist[x]| && Mir.FitsWord(s.hist[x][0]) && Mir.FitsWord(s.hist[x][0] - n)
    ensures ValueOf(Past(x, k), DoAll(GenAll(Countdown(x, n), 0, modified).code, s).hist) ==
      if k <= n then s.hist[x][0] - n + k else s.hist[x][k - n]
    decreases n
  {
    if n > 0 {
      var ss := Countdown(x, n);
      assert ss[1..] == Countdown(x, n - 1);
      var a := Gen(ss[0], 0, modified);
      DoConcat(a.code, GenAll(ss[1..], 0, a.modified).code, s);
      AssignmentMakesEntry(x, Calc(Source.Minus, Past(x, 0), Lit(1)), modified, s);
      CountsDown(x, n - 1, k, modified, DoAll(a.code, s));
    }
  }
}
