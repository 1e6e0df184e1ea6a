/** Building the interference graph: regalloc.c's ig_build_graph, ig_add_sym_reg and ig_add_link. */
module Interference {
  import opened Wrappers
  import opened Sequences
  import opened Liveness
  import Colouring

  /** One function's graph with the liveness computed for it. */
  datatype FuncLiveness = FuncLiveness(g: FlowGraph, ins: seq<seq<Name>>, outs: seq<seq<Name>>) {
    ghost predicate Valid() {
      g.Valid() && |ins| == |g.succ| && |outs| == |g.succ|
    }
  }

  /** The ordered pairs of different names node `l` makes interfere. */
  ghost predicate NodeInterferes(f: FuncLiveness, l: nat, x: Name, y: Name)
    requires f.Valid() && l < |f.g.succ|
  {
    && x != y
    && (|| (f.g.def[l] == Some(x) && y in f.outs[l])
        || (f.g.def[l] == Some(y) && x in f.outs[l])
        || (x in f.outs[l] && y in f.outs[l])
        || (x in f.ins[l] && y in f.ins[l]))
  }

  /** Some node of some function makes `x` and `y` interfere. */
  ghost predicate Interferes(fs: seq<FuncLiveness>, x: Name, y: Name)
    requires forall i :: 0 <= i < |fs| ==> fs[i].Valid()
  {
    exists i: nat, l: nat :: i < |fs| && l < |fs[i].g.succ| && NodeInterferes(fs[i], l, x, y)
  }

  /** Some node of some function defines or uses `v`. */
  ghost predicate Occurs(fs: seq<FuncLiveness>, v: Name)
    requires forall i :: 0 <= i < |fs| ==> fs[i].Valid()
  {
    exists i: nat, l: nat :: i < |fs| && l < |fs[i].g.succ| && OccursAt(fs[i], l, v)
  }

  ghost predicate OccursAt(f: FuncLiveness, l: nat, v: Name)
    requires f.Valid() && l < |f.g.succ|
  {
    f.g.def[l] == Some(v) || v in f.g.use[l]
  }

  // ----- The numbering of the names -----

  function WithName(names: seq<Name>, v: Name): seq<Name> {
    if v in names then names else names + [v]
  }

  function WithNames(names: seq<Name>, vs: seq<Name>): seq<Name> {
    if vs == [] then names else WithName(WithNames(names, vs[..|vs| - 1]), vs[|vs| - 1])
  }

  /** A node adds its definition and then its uses. */
  function NodeNames(f: FuncLiveness, l: nat, names: seq<Name>): seq<Name>
    requires f.Valid() && l < |f.g.succ|
  {
    WithNames(if f.g.def[l].Some? then WithName(names, f.g.def[l].value) else names, f.g.use[l])
  }

  function FuncNames(f: FuncLiveness, n: nat, names: seq<Name>): seq<Name>
    requires f.Valid() && n <= |f.g.succ|
  {
    if n == 0 then names else NodeNames(f, n - 1, FuncNames(f, n - 1, names))
  }

  /** The names of the first `n` functions, numbered in the order in which they first occur. */
  function ProgramNames(fs: seq<FuncLiveness>, n: nat): seq<Name>
    requires n <= |fs| && forall i :: 0 <= i < |fs| ==> fs[i].Valid()
  {
    if n == 0 then [] else FuncNames(fs[n - 1], |fs[n - 1].g.succ|, ProgramNames(fs, n - 1))
  }

  lemma {:induction false} WithNamesStay(names: seq<Name>, vs: seq<Name>)
    ensures names <= WithNames(names, vs)
  {
    if vs != [] {
      WithNamesStay(names, vs[..|vs| - 1]);
    }
  }

  lemma {:induction false} FuncNamesStay(f: FuncLiveness, n: nat, names: seq<Name>)
    requires f.Valid() && n <= |f.g.succ|
    ensures names <= FuncNames(f, n, names)
  {
    if n > 0 {
      FuncNamesStay(f, n - 1, names);
      var before := FuncNames(f, n - 1, names);
      var defined := if f.g.def[n - 1].Some? then WithName(before, f.g.def[n - 1].value) else before;
      WithNamesStay(defined, f.g.use[n - 1]);
    }
  }

  /** What comes later in the program changes no name's number. */
  lemma {:induction false} NumbersStay(fs: seq<FuncLiveness>, n: nat, m: nat)
    requires n <= m <= |fs| && forall i :: 0 <= i < |fs| ==> fs[i].Valid()
    ensures ProgramNames(fs, n) <= ProgramNames(fs, m)
    decreases m - n
  {
    hide FuncNames;
    if n < m {
      NumbersStay(fs, n, m - 1);
      FuncNamesStay(fs[m - 1], |fs[m - 1].g.succ|, ProgramNames(fs, m - 1));
    }
  }

  /** One of the first `n` nodes defines or uses `v`. */
  ghost predicate OccursIn(f: FuncLiveness, n: nat, v: Name)
    requires f.Valid() && n <= |f.g.succ|
  {
    exists l: nat :: l < n && OccursAt(f, l, v)
  }

  class InterferenceGraph {
    var symReg: seq<Name>
    var links: array2<bool>
    /** The pairs linked so far. */
    ghost var pairs: iset<(Name, Name)>

    ghost predicate Valid()
      reads this, links
    {
      && Distinct(symReg)
      && links.Length0 == |symReg| && links.Length1 == |symReg|
      && (forall i: nat, j: nat :: i < |symReg| && j < |symReg| ==>
            (links[i, j] <==> (symReg[i], symReg[j]) in pairs))
      && (forall x, y :: (x, y) in pairs ==> x != y && (y, x) in pairs)
    }

    constructor ()
      ensures Valid() && symReg == [] && pairs == iset{}
      ensures fresh(links)
    {
      symReg := [];
      links := new bool[0, 0]((_, _) => false);
      pairs := iset{};
    }

    /** Adds a symbolic register unless it is there. */
    method AddSymReg(v: Name)
      requires Distinct(symReg)
      modifies this`symReg
      ensures Distinct(symReg) && symReg == WithName(old(symReg), v)
      ensures forall x :: x in symReg <==> x in old(symReg) || x == v
    {
      var i := 0;
      while i < |symReg|
        invariant 0 <= i <= |symReg| && v !in symReg[..i]
      {
        if symReg[i] == v {
          return;
        }
        i := i + 1;
      }
      symReg := symReg + [v];
    }

    /** Links two names. `false` is the compiler error for a name without symbolic register. */
    method AddLink(x: Name, y: Name) returns (ok: bool)
      requires Valid()
      modifies this`pairs, links
      ensures Valid()
      ensures ok <==> x == y || (x in symReg && y in symReg)
      ensures pairs == if ok && x != y then old(pairs) + iset{(x, y), (y, x)} else old(pairs)
    {
      if x == y {
        return true;
      }
      var index1, index2 := -1, -1;
      var i := 0;
      while i < |symReg|
        invariant 0 <= i <= |symReg|
        invariant -1 <= index1 < i && -1 <= index2 < i
        invariant if index1 == -1 then x !in symReg[..i] else symReg[index1] == x
        invariant if index2 == -1 then y !in symReg[..i] else symReg[index2] == y
      {
        if symReg[i] == x {
          index1 := i;
        } else if symReg[i] == y {
          index2 := i;
        }
        i := i + 1;
      }
      if index1 == -1 || index2 == -1 {
        return false;
      }
      links[index1, index2] := true;
      links[index2, index1] := true;
      pairs := pairs + iset{(x, y), (y, x)};
      return true;
    }

    /** Links `x` with every name of `ys`. */
    method LinkTo(x: Name, ys: seq<Name>) returns (ok: bool)
      requires Valid()
      modifies this`pairs, links
      ensures Valid()
      ensures ok <==> forall y :: y in ys && x != y ==> x in symReg && y in symReg
      ensures ok ==> forall a, b :: (a, b) in pairs <==>
        (a, b) in old(pairs) || (a != b && ((a == x && b in ys) || (b == x && a in ys)))
    {
      var j := 0;
      while j < |ys|
        invariant 0 <= j <= |ys| && Valid()
        invariant forall y :: y in ys[..j] && x != y ==> x in symReg && y in symReg
        invariant forall a, b :: (a, b) in pairs <==>
          (a, b) in old(pairs) || (a != b && ((a == x && b in ys[..j]) || (b == x && a in ys[..j])))
      {
        assert ys[..j + 1] == ys[..j] + [ys[j]];
        var linked := AddLink(x, ys[j]);
        if !linked {
          assert ys[j] in ys;
          return false;
        }
        j := j + 1;
      }
      assert ys[..j] == ys;
      return true;
    }

    /** Links the names of `ys` with each other. */
    method LinkAll(ys: seq<Name>) returns (ok: bool)
      requires Valid()
      modifies this`pairs, links
      ensures Valid()
      ensures ok <==> forall a, b :: a in ys && b in ys && a != b ==> a in symReg && b in symReg
      ensures ok ==> forall a, b :: (a, b) in pairs <==> (a, b) in old(pairs) || (a != b && a in ys && b in ys)
    {
      var j := 0;
      while j < |ys|
        invariant 0 <= j <= |ys| && Valid()
        invariant forall a, b :: a in ys[..j] && b in ys && a != b ==> a in symReg && b in symReg
        invariant forall a, b :: (a, b) in pairs <==>
          ((a, b) in old(pairs) || (a != b && ((a in ys[..j] && b in ys) || (b in ys[..j] && a in ys))))
      {
        assert ys[..j + 1] == ys[..j] + [ys[j]];
        var linked := LinkTo(ys[j], ys);
        if !linked {
          assert ys[j] in ys;
          return false;
        }
        j := j + 1;
      }
      return true;
    }

    /** The interferences of one node. */
    method LinkNode(f: FuncLiveness, l: nat) returns (ok: bool)
      requires Valid() && f.Valid() && l < |f.g.succ|
      modifies this`pairs, links
      ensures Valid()
      ensures ok <==> forall a, b :: NodeInterferes(f, l, a, b) ==> a in symReg && b in symReg
      ensures ok ==> forall a, b :: (a, b) in pairs <==> (a, b) in old(pairs) || NodeInterferes(f, l, a, b)
    {
      ok := true;
      if f.g.def[l].Some? && |f.outs[l]| > 0 {
        ghost var d := f.g.def[l].value;
        assert forall y :: y in f.outs[l] && d != y ==> NodeInterferes(f, l, d, y);
        ok := LinkTo(f.g.def[l].value, f.outs[l]);
        if !ok {
          return;
        }
      }
      assert forall a, b :: a != b && ((a in f.outs[l] && b in f.outs[l]) || (a in f.ins[l] && b in f.ins[l])) ==>
        NodeInterferes(f, l, a, b);
      ok := LinkAll(f.outs[l]);
      if !ok {
        return;
      }
      ok := LinkAll(f.ins[l]);
    }

    /** The interferences of one function. */
    method LinkFunc(f: FuncLiveness) returns (ok: bool)
      requires Valid() && f.Valid()
      modifies this`pairs, links
      ensures Valid()
      ensures ok <==> forall a, b, l: nat :: l < |f.g.succ| && NodeInterferes(f, l, a, b) ==> a in symReg && b in symReg
      ensures ok ==> forall a, b :: (a, b) in pairs <==>
        (a, b) in old(pairs) || exists l: nat :: l < |f.g.succ| && NodeInterferes(f, l, a, b)
    {
      var l := 0;
      while l < |f.g.succ|
        invariant 0 <= l <= |f.g.succ| && Valid()
        invariant forall a, b, k: nat :: k < l && NodeInterferes(f, k, a, b) ==> a in symReg && b in symReg
        invariant forall a, b :: (a, b) in pairs <==>
          (a, b) in old(pairs) || exists k: nat :: k < l && NodeInterferes(f, k, a, b)
      {
        ok := LinkNode(f, l);
        if !ok {
          return;
        }
        l := l + 1;
      }
      return true;
    }

    /** The names of one node. */
    method AddNode(f: FuncLiveness, l: nat)
      requires Distinct(symReg) && f.Valid() && l < |f.g.succ|
      modifies this`symReg
      ensures Distinct(symReg) && symReg == NodeNames(f, l, old(symReg))
      ensures forall v :: v in symReg <==> v in old(symReg) || OccursAt(f, l, v)
    {
      hide WithName, WithNames;
      if f.g.def[l].Some? {
        AddSymReg(f.g.def[l].value);
      }
      AddAll(f.g.use[l]);
    }

    /** All names one function defines or uses. */
    method AddNames(f: FuncLiveness)
      requires Distinct(symReg) && f.Valid()
      modifies this`symReg
      ensures Distinct(symReg) && symReg == FuncNames(f, |f.g.succ|, old(symReg))
      ensures forall v :: v in symReg <==> v in old(symReg) || OccursIn(f, |f.g.succ|, v)
    {
      hide NodeNames, OccursAt;
      var l := 0;
      while l < |f.g.succ|
        invariant 0 <= l <= |f.g.succ| && Distinct(symReg) && symReg == FuncNames(f, l, old(symReg))
        invariant forall v :: v in symReg <==> v in old(symReg) || OccursIn(f, l, v)
      {
        AddNode(f, l);
        l := l + 1;
      }
    }

    method AddAll(vs: seq<Name>)
      requires Distinct(symReg)
      modifies this`symReg
      ensures Distinct(symReg) && symReg == WithNames(old(symReg), vs)
      ensures forall v :: v in symReg <==> v in old(symReg) || v in vs
    {
      var k := 0;
      while k < |vs|
        invariant 0 <= k <= |vs| && Distinct(symReg) && symReg == WithNames(old(symReg), vs[..k])
        invariant forall v :: v in symReg <==> v in old(symReg) || v in vs[..k]
      {
        assert vs[..k + 1][..k] == vs[..k];
        AddSymReg(vs[k]);
        k := k + 1;
      }
      assert vs[..k] == vs;
    }

    /** All names the program defines or uses. */
    method CollectNames(fs: seq<FuncLiveness>)
      requires symReg == []
      requires forall i :: 0 <= i < |fs| ==> fs[i].Valid()
      modifies this`symReg
      ensures Distinct(symReg) && symReg == ProgramNames(fs, |fs|)
      ensures forall v :: v in symReg <==> Occurs(fs, v)
    {
      var i := 0;
      while i < |fs|
        invariant 0 <= i <= |fs| && Distinct(symReg) && symReg == ProgramNames(fs, i)
        invariant forall v :: v in symReg <==>
          exists j: nat :: j < i && OccursIn(fs[j], |fs[j].g.succ|, v)
      {
        AddNames(fs[i]);
        i := i + 1;
      }
    }

    /** All interferences of the program. */
    method LinkFuncs(fs: seq<FuncLiveness>) returns (ok: bool)
      requires Valid() && pairs == iset{}
      requires forall i :: 0 <= i < |fs| ==> fs[i].Valid()
      modifies this`pairs, links
      ensures Valid()
      ensures ok <==> forall x, y :: Interferes(fs, x, y) ==> x in symReg && y in symReg
      ensures ok ==> forall x, y :: (x, y) in pairs <==> Interferes(fs, x, y)
    {
      var i := 0;
      while i < |fs|
        invariant 0 <= i <= |fs| && Valid()
        invariant forall x, y, j: nat, l: nat :: j < i && l < |fs[j].g.succ| && NodeInterferes(fs[j], l, x, y) ==>
          x in symReg && y in symReg
        invariant forall x, y :: (x, y) in pairs <==>
          exists j: nat, l: nat :: j < i && l < |fs[j].g.succ| && NodeInterferes(fs[j], l, x, y)
      {
        ok := LinkFunc(fs[i]);
        if !ok {
          ghost var a, b, l: nat :|
            l < |fs[i].g.succ| && NodeInterferes(fs[i], l, a, b) && !(a in symReg && b in symReg);
          assert Interferes(fs, a, b);
          return;
        }
        i := i + 1;
      }
      return true;
    }

    /** Builds the graph of a whole program: `false` when a link names something that never occurs. */
    method Build(fs: seq<FuncLiveness>) returns (ok: bool)
      requires Valid() && symReg == [] && pairs == iset{}
      requires forall i :: 0 <= i < |fs| ==> fs[i].Valid()
      modifies this
      ensures Valid() && symReg == ProgramNames(fs, |fs|)
      ensures forall v :: v in symReg <==> Occurs(fs, v)
      ensures ok <==> forall x, y :: Interferes(fs, x, y) ==> Occurs(fs, x) && Occurs(fs, y)
      ensures ok ==> forall x, y :: (x, y) in pairs <==> Interferes(fs, x, y)
    {
      CollectNames(fs);
      links := new bool[|symReg|, |symReg|]((_, _) => false);
      ok := LinkFuncs(fs);
    }

    function Row(i: nat): (r: seq<bool>)
      reads this, links
      requires links.Length0 == |symReg| && links.Length1 == |symReg| && i < |symReg|
      ensures |r| == |symReg| && forall j :: 0 <= j < |r| ==> r[j] == links[i, j]
    {
      seq(|symReg|, j requires 0 <= j < links.Length1 && i < links.Length0 reads this, links => links[i, j])
    }

    /** The links as a matrix over the symbolic registers. */
    function Matrix(): (g: Colouring.Graph)
      reads this, links
      requires Valid()
      ensures g.Valid() && g.n == |symReg|
      ensures forall i: nat, j: nat :: i < |symReg| && j < |symReg| ==>
        (g.Linked(i, j) <==> (symReg[i], symReg[j]) in pairs)
    {
      var rows := seq(|symReg|, i requires 0 <= i < |symReg| && Valid() reads this, links => Row(i));
      assert forall i: nat, j: nat :: i < |symReg| && j < |symReg| ==> rows[i][j] == links[i, j];
      Colouring.Graph(|symReg|, rows)
    }
  }
}
