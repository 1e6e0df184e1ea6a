/** The instruction list the generator appends to and the lowering passes edit (mir.c). */
module MirList {
  import opened Wrappers
  import opened Mir

  /** How many nodes jump to `id`. */
  function JumpsTo(nodes: seq<Node>, id: nat): nat {
    if nodes == [] then 0
    else JumpsTo(nodes[..|nodes| - 1], id) + (if nodes[|nodes| - 1].jump == Some(id) then 1 else 0)
  }

  function Hit(n: Node, id: nat): nat {
    if n.jump == Some(id) then 1 else 0
  }

  lemma JumpsToPush(nodes: seq<Node>, n: Node, id: nat)
    ensures JumpsTo(nodes + [n], id) == JumpsTo(nodes, id) + Hit(n, id)
  {
    assert (nodes + [n])[..|nodes|] == nodes;
  }

  lemma {:induction false} JumpsToConcat(a: seq<Node>, b: seq<Node>, id: nat)
    ensures JumpsTo(a + b, id) == JumpsTo(a, id) + JumpsTo(b, id)
    decreases |b|
  {
    if b == [] {
      assert a + b == a;
    } else {
      var c := b[..|b| - 1];
      assert a + b == (a + c) + [b[|b| - 1]] && b == c + [b[|b| - 1]];
      JumpsToConcat(a, c, id);
      JumpsToPush(a + c, b[|b| - 1], id);
    }
  }

  lemma JumpsToSplit(nodes: seq<Node>, i: nat, id: nat)
    requires i < |nodes|
    ensures JumpsTo(nodes, id) == JumpsTo(nodes[..i], id) + Hit(nodes[i], id) + JumpsTo(nodes[i + 1..], id)
  {
    assert nodes == nodes[..i] + [nodes[i]] + nodes[i + 1..];
    JumpsToPush(nodes[..i], nodes[i], id);
    JumpsToConcat(nodes[..i] + [nodes[i]], nodes[i + 1..], id);
  }

  lemma JumpsToUpdate(nodes: seq<Node>, i: nat, n: Node, id: nat)
    requires i < |nodes|
    ensures JumpsTo(nodes[i := n], id) + Hit(nodes[i], id) == JumpsTo(nodes, id) + Hit(n, id)
  {
    JumpsToSplit(nodes, i, id);
    JumpsToSplit(nodes[i := n], i, id);
    assert nodes[i := n][..i] == nodes[..i] && nodes[i := n][i + 1..] == nodes[i + 1..];
  }

  lemma JumpsToInsert(nodes: seq<Node>, i: nat, n: Node, id: nat)
    requires i <= |nodes|
    ensures JumpsTo(nodes[..i] + [n] + nodes[i..], id) == JumpsTo(nodes, id) + Hit(n, id)
  {
    assert nodes == nodes[..i] + nodes[i..];
    JumpsToConcat(nodes[..i], nodes[i..], id);
    JumpsToPush(nodes[..i], n, id);
    JumpsToConcat(nodes[..i] + [n], nodes[i..], id);
  }

  lemma NoJumps(nodes: seq<Node>, id: nat)
    ensures JumpsTo(nodes, id) == 0 <==> forall i :: 0 <= i < |nodes| ==> nodes[i].jump != Some(id)
  {
    if nodes != [] {
      NoJumps(nodes[..|nodes| - 1], id);
    }
  }

  /** The identities of the nodes. */
  ghost function Ids(nodes: seq<Node>): set<nat> {
    set i | 0 <= i < |nodes| :: nodes[i].id
  }

  /** Identities are unique and older than the next one, and the blank node has its own. */
  ghost predicate Identified(nodes: seq<Node>, blank: nat, nextId: nat) {
    && UniqueIds(nodes) && blank < nextId && blank !in Ids(nodes)
    && forall i :: 0 <= i < |nodes| ==> nodes[i].id < nextId
  }

  /** in_links exists for every node and the blank one, and jumps go to those. */
  ghost predicate Covered(nodes: seq<Node>, blank: nat, inLinks: map<nat, nat>) {
    && inLinks.Keys == Ids(nodes) + {blank}
    && forall i :: 0 <= i < |nodes| && nodes[i].jump.Some? ==> nodes[i].jump.value in inLinks
  }

  /** in_links is the number of jumps. */
  ghost predicate Counted(nodes: seq<Node>, inLinks: map<nat, nat>) {
    forall id :: id in inLinks ==> inLinks[id] == JumpsTo(nodes, id)
  }

  /** A list whose identities are sound and whose jump bookkeeping agrees with its jumps. */
  ghost predicate WellLinked(nodes: seq<Node>, blank: nat, nextId: nat, inLinks: map<nat, nat>) {
    Identified(nodes, blank, nextId) && Covered(nodes, blank, inLinks) && Counted(nodes, inLinks)
  }

  /** No jump goes to an identity that has not been given out. */
  lemma UnknownIsFree(nodes: seq<Node>, blank: nat, nextId: nat, inLinks: map<nat, nat>)
    requires Identified(nodes, blank, nextId) && Covered(nodes, blank, inLinks)
    ensures nextId !in Ids(nodes) && nextId !in inLinks && JumpsTo(nodes, nextId) == 0
  {
    assert nextId !in Ids(nodes) + {blank};
    NoJumps(nodes, nextId);
  }

  lemma AppendIds(nodes: seq<Node>, n: Node)
    ensures Ids(nodes + [n]) == Ids(nodes) + {n.id}
  {
    var after := nodes + [n];
    assert after[|nodes|].id == n.id;
    assert forall i :: 0 <= i < |nodes| ==> after[i].id == nodes[i].id;
  }

  lemma AppendCounted(nodes: seq<Node>, n: Node, inLinks: map<nat, nat>, id: nat)
    requires Counted(nodes, inLinks) && n.jump.None? && JumpsTo(nodes, id) == 0
    ensures Counted(nodes + [n], inLinks[id := 0])
  {
    forall k
      ensures JumpsTo(nodes + [n], k) == JumpsTo(nodes, k)
    {
      JumpsToPush(nodes, n, k);
    }
  }

  lemma AppendLinked(nodes: seq<Node>, blank: nat, nextId: nat, inLinks: map<nat, nat>, instr: Instr)
    requires WellLinked(nodes, blank, nextId, inLinks)
    ensures WellLinked(nodes + [Node(blank, instr, None)], nextId, nextId + 1, inLinks[nextId := 0])
  {
    var n := Node(blank, instr, None);
    UnknownIsFree(nodes, blank, nextId, inLinks);
    AppendIds(nodes, n);
    AppendCounted(nodes, n, inLinks, nextId);
    hide Counted, JumpsTo;
    assert nodes[..] + [n] == nodes + [n];
    assert Identified(nodes + [n], nextId, nextId + 1) by {
      hide Covered;
    }
    assert Covered(nodes + [n], nextId, inLinks[nextId := 0]) by {
      hide Identified, UniqueIds;
    }
  }

  lemma JumpCounted(nodes: seq<Node>, inLinks: map<nat, nat>, src: nat, dest: nat)
    requires Counted(nodes, inLinks) && src < |nodes| && nodes[src].jump.None? && dest in inLinks
    ensures Counted(nodes[src := nodes[src].(jump := Some(dest))], inLinks[dest := inLinks[dest] + 1])
  {
    forall id
      ensures JumpsTo(nodes[src := nodes[src].(jump := Some(dest))], id) ==
        JumpsTo(nodes, id) + (if id == dest then 1 else 0)
    {
      JumpsToUpdate(nodes, src, nodes[src].(jump := Some(dest)), id);
    }
  }

  lemma SetJumpLinked(nodes: seq<Node>, blank: nat, nextId: nat, inLinks: map<nat, nat>, src: nat, dest: nat)
    requires WellLinked(nodes, blank, nextId, inLinks)
    requires src < |nodes| && nodes[src].jump.None? && dest in inLinks
    ensures WellLinked(nodes[src := nodes[src].(jump := Some(dest))], blank, nextId, inLinks[dest := inLinks[dest] + 1])
  {
    JumpCounted(nodes, inLinks, src, dest);
    SameIds(nodes, nodes[src := nodes[src].(jump := Some(dest))]);
    hide Counted, JumpsTo, UniqueIds, Ids;
  }

  lemma SameIds(a: seq<Node>, b: seq<Node>)
    requires |a| == |b| && forall i :: 0 <= i < |a| ==> a[i].id == b[i].id
    ensures Ids(a) == Ids(b)
    ensures UniqueIds(a) ==> UniqueIds(b)
  {
    forall id | id in Ids(a) || id in Ids(b)
      ensures id in Ids(a) && id in Ids(b)
    {
      var i :| 0 <= i < |a| && a[i].id == id;
      assert b[i].id == id;
    }
  }

  class List {
    var nodes: seq<Node>
    /** The allocated node behind the tail, which the next instruction goes into. */
    var blank: nat
    var nextId: nat
    /** in_links of every node, the blank one included. */
    var inLinks: map<nat, nat>

    ghost predicate Valid()
      reads this
    {
      WellLinked(nodes, blank, nextId, inLinks)
    }

    /** An empty list: only the blank node. */
    constructor ()
      ensures Valid() && nodes == [] && blank == 0 && nextId == 1
    {
      nodes, blank, nextId, inLinks := [], 0, 1, map[0 := 0];
    }

    /** mir_add_to_tail: the blank node takes the instruction and a new blank one follows it. */
    method AddToTail(instr: Instr)
      requires Valid()
      modifies this
      ensures Valid()
      ensures nodes == old(nodes) + [Node(old(blank), instr, None)]
      ensures blank == old(nextId) && nextId == old(nextId) + 1
    {
      AppendLinked(nodes, blank, nextId, inLinks, instr);
      nodes := nodes + [Node(blank, instr, None)];
      blank := nextId;
      nextId := nextId + 1;
      inLinks := inLinks[blank := 0];
    }

    /** mir_set_jump, for a node that does not jump yet. */
    method SetJump(src: nat, dest: nat)
      requires Valid() && src < |nodes| && nodes[src].jump.None? && dest in inLinks
      modifies this`nodes, this`inLinks
      ensures Valid()
      ensures nodes == old(nodes)[src := old(nodes)[src].(jump := Some(dest))]
    {
      SetJumpLinked(nodes, blank, nextId, inLinks, src, dest);
      nodes := nodes[src := nodes[src].(jump := Some(dest))];
      inLinks := inLinks[dest := inLinks[dest] + 1];
    }

    /** Changing an instruction in place. */
    method SetInstr(p: nat, instr: Instr)
      requires Valid() && p < |nodes|
      modifies this`nodes
      ensures Valid()
      ensures nodes == old(nodes)[p := old(nodes)[p].(instr := instr)]
    {
      SetInstrLinked(nodes, blank, nextId, inLinks, p, instr);
      nodes := nodes[p := nodes[p].(instr := instr)];
    }

    /** mir_add_instr behind a node that is not the tail: a fresh node before the one at `p`. */
    method Insert(p: nat, instr: Instr)
      requires Valid() && 0 < p < |nodes|
      modifies this
      ensures Valid() && blank == old(blank) && nextId == old(nextId) + 1
      ensures nodes == Inserted(old(nodes), p, Node(old(nextId), instr, None))
    {
      InsertLinked(nodes, blank, nextId, inLinks, p, instr);
      nodes := Inserted(nodes, p, Node(nextId, instr, None));
      inLinks := inLinks[nextId := 0];
      nextId := nextId + 1;
    }

    /** mir_move_label: every jump to the node at `src` goes to the one at `dest` instead. */
    method MoveLabel(src: nat, dest: nat)
      requires Valid() && src < |nodes| && dest < |nodes| && src != dest
      modifies this`nodes, this`inLinks
      ensures Valid()
      ensures nodes == Redirected(old(nodes), old(nodes)[src].id, old(nodes)[dest].id)
    {
      ghost var was := nodes;
      var from, to := nodes[src].id, nodes[dest].id;
      DifferentIds(nodes, blank, nextId, inLinks, src, dest);
      hide UniqueIds, Ids, JumpsTo, Redirect;
      if inLinks[from] == 0 {
        NothingToRedirect(nodes, from, to);
        return;
      }
      RedirectJumps(from, to);
      assert nodes == Redirected(was, from, to);
      RedirectedLinked(was, blank, nextId, old(inLinks), inLinks, from, to);
      hide WellLinked;
      inLinks := inLinks[from := 0];
    }

    /** The walk over the list: redirects the jumps and counts them at their new node. */
    method RedirectJumps(from: nat, to: nat)
      requires from != to && to in inLinks
      requires forall id :: id in inLinks ==> inLinks[id] == JumpsTo(nodes, id)
      modifies this`nodes, this`inLinks
      ensures |nodes| == |old(nodes)| && inLinks.Keys == old(inLinks.Keys)
      ensures forall k :: 0 <= k < |nodes| ==> nodes[k] == Redirect(old(nodes)[k], from, to)
      ensures forall id :: id in inLinks && id != from ==> inLinks[id] == JumpsTo(nodes, id)
    {
      hide JumpsTo;
      var i := 0;
      while i < |nodes|
        invariant 0 <= i <= |nodes| == |old(nodes)|
        invariant forall k :: 0 <= k < i ==> nodes[k] == Redirect(old(nodes)[k], from, to)
        invariant forall k :: i <= k < |nodes| ==> nodes[k] == old(nodes)[k]
        invariant inLinks.Keys == old(inLinks.Keys) && to in inLinks
        invariant forall id :: id in inLinks && id != from ==> inLinks[id] == JumpsTo(nodes, id)
      {
        if nodes[i].jump == Some(from) {
          MovedJump(nodes, i, from, to);
          nodes := nodes[i := nodes[i].(jump := Some(to))];
          inLinks := inLinks[to := inLinks[to] + 1];
        }
        i := i + 1;
      }
    }

    /** mir_label_nodes: numbers the nodes with incoming jumps. */
    method LabelNodes() returns (labels: map<nat, nat>)
      requires Valid()
      ensures forall id :: id in labels ==> JumpsTo(nodes, id) > 0
      ensures forall i :: 0 <= i < |nodes| ==> (nodes[i].id in labels <==> JumpsTo(nodes, nodes[i].id) > 0)
      ensures forall a, b :: a in labels && b in labels && a != b ==> labels[a] != labels[b]
    {
      AllCounted(nodes, blank, nextId, inLinks);
      hide WellLinked;
      labels := map[];
      var next := 1;
      var i := 0;
      while i < |nodes|
        invariant 0 <= i <= |nodes| && Labelled(nodes, i, labels, next)
      {
        LabelNext(nodes, i, labels, next);
        hide Labelled, JumpsTo;
        if inLinks[nodes[i].id] > 0 {
          labels := labels[nodes[i].id := next];
          next := next + 1;
        }
        i := i + 1;
      }
    }

    /** mir_emit: appends an instruction, or turns a comparison at the tail into the IF being emitted.
        Returns the position of the node. */
    method Emit(opcode: Opcode, op0: Operand, op1: Operand, op2: Operand) returns (p: nat)
      requires Valid()
      modifies this
      ensures Valid()
      ensures nodes == Emitted(old(nodes), old(blank), opcode, op0, op1, op2)
      ensures |nodes| > 0 && p == |nodes| - 1
      ensures if |nodes| == |old(nodes)| then blank == old(blank) && nextId == old(nextId)
        else blank == old(nextId) && nextId == old(nextId) + 1
    {
      if opcode.If? && |nodes| > 0 && IsCompare(nodes[|nodes| - 1].instr.opcode) {
        var tail := nodes[|nodes| - 1].instr;
        SetInstr(|nodes| - 1, tail.(op2 := Const(CompareCode(tail.opcode)), opcode := If));
      } else {
        AddToTail(Plain(opcode, op0, op1, op2));
      }
      p := |nodes| - 1;
    }
  }

  /** The list after emitting an instruction at its tail. */
  function Emitted(nodes: seq<Node>, blank: nat, opcode: Opcode, op0: Operand, op1: Operand, op2: Operand)
    : (r: seq<Node>)
  {
    if opcode.If? && |nodes| > 0 && IsCompare(nodes[|nodes| - 1].instr.opcode) then
      var tail := nodes[|nodes| - 1];
      nodes[|nodes| - 1 :=
        tail.(instr := tail.instr.(op2 := Const(CompareCode(tail.instr.opcode)), opcode := If))]
    else
      nodes + [Node(blank, Plain(opcode, op0, op1, op2), None)]
  }

  /** A node with its jump to `from` replaced by one to `to`. */
  function Redirect(n: Node, from: nat, to: nat): Node {
    if n.jump == Some(from) then n.(jump := Some(to)) else n
  }

  function Redirected(nodes: seq<Node>, from: nat, to: nat): (r: seq<Node>)
    ensures |r| == |nodes| && forall i :: 0 <= i < |nodes| ==> r[i] == Redirect(nodes[i], from, to)
  {
    seq(|nodes|, i requires 0 <= i < |nodes| => Redirect(nodes[i], from, to))
  }

  /** Of the nodes before `i`, those some jump goes to have labels, all different and below the next one. */
  ghost predicate Labelled(nodes: seq<Node>, i: nat, labels: map<nat, nat>, next: nat) {
    && i <= |nodes|
    && (forall id :: id in labels ==> JumpsTo(nodes, id) > 0 && labels[id] < next)
    && (forall k :: 0 <= k < i ==> (nodes[k].id in labels <==> JumpsTo(nodes, nodes[k].id) > 0))
    && (forall a, b :: a in labels && b in labels && a != b ==> labels[a] != labels[b])
  }

  lemma LabelNext(nodes: seq<Node>, i: nat, labels: map<nat, nat>, next: nat)
    requires Labelled(nodes, i, labels, next) && i < |nodes|
    ensures JumpsTo(nodes, nodes[i].id) > 0 ==> Labelled(nodes, i + 1, labels[nodes[i].id := next], next + 1)
    ensures JumpsTo(nodes, nodes[i].id) == 0 ==> Labelled(nodes, i + 1, labels, next)
  {
    hide JumpsTo;
  }

  lemma AllCounted(nodes: seq<Node>, blank: nat, nextId: nat, inLinks: map<nat, nat>)
    requires WellLinked(nodes, blank, nextId, inLinks)
    ensures forall i :: 0 <= i < |nodes| ==>
      nodes[i].id in inLinks && inLinks[nodes[i].id] == JumpsTo(nodes, nodes[i].id)
  {
    forall i | 0 <= i < |nodes|
      ensures nodes[i].id in inLinks
    {
      assert nodes[i].id in Ids(nodes);
    }
  }

  lemma DifferentIds(nodes: seq<Node>, blank: nat, nextId: nat, inLinks: map<nat, nat>, i: nat, j: nat)
    requires WellLinked(nodes, blank, nextId, inLinks) && i < |nodes| && j < |nodes| && i != j
    ensures nodes[i].id in inLinks && nodes[j].id in inLinks && nodes[i].id != nodes[j].id
  {
    assert nodes[i].id in Ids(nodes) && nodes[j].id in Ids(nodes);
  }

  lemma NothingToRedirect(nodes: seq<Node>, from: nat, to: nat)
    requires JumpsTo(nodes, from) == 0
    ensures Redirected(nodes, from, to) == nodes
  {
    NoJumps(nodes, from);
  }

  lemma RedirectedLinked(nodes: seq<Node>, blank: nat, nextId: nat, inLinks: map<nat, nat>, counted: map<nat, nat>,
                         from: nat, to: nat)
    requires WellLinked(nodes, blank, nextId, inLinks) && from != to && to in inLinks && from in inLinks
    requires counted.Keys == inLinks.Keys
    requires forall id :: id in counted && id != from ==> counted[id] == JumpsTo(Redirected(nodes, from, to), id)
    ensures WellLinked(Redirected(nodes, from, to), blank, nextId, counted[from := 0])
  {
    var r := Redirected(nodes, from, to);
    NoJumpsLeft(nodes, from, to);
    CountedBut(r, counted, from);
    RedirectedIds(nodes, from, to, blank, nextId);
    RedirectedCovered(nodes, blank, inLinks, counted, from, to);
    hide Identified, Covered, Counted, Redirected, JumpsTo;
  }

  lemma CountedBut(nodes: seq<Node>, counted: map<nat, nat>, id: nat)
    requires JumpsTo(nodes, id) == 0 && forall k :: k in counted && k != id ==> counted[k] == JumpsTo(nodes, k)
    ensures Counted(nodes, counted[id := 0])
  {
    hide JumpsTo;
  }

  lemma RedirectedCovered(nodes: seq<Node>, blank: nat, inLinks: map<nat, nat>, counted: map<nat, nat>,
                          from: nat, to: nat)
    requires Covered(nodes, blank, inLinks) && counted.Keys == inLinks.Keys && from in inLinks && to in inLinks
    ensures Covered(Redirected(nodes, from, to), blank, counted[from := 0])
  {
    RedirectedTargets(nodes, inLinks, from, to);
    SameIds(nodes, Redirected(nodes, from, to));
    hide Ids, Redirected, Redirect;
    assert counted[from := 0].Keys == inLinks.Keys;
  }

  lemma RedirectedIds(nodes: seq<Node>, from: nat, to: nat, blank: nat, nextId: nat)
    requires Identified(nodes, blank, nextId)
    ensures Ids(Redirected(nodes, from, to)) == Ids(nodes) && Identified(Redirected(nodes, from, to), blank, nextId)
  {
    SameIds(nodes, Redirected(nodes, from, to));
    hide UniqueIds, Ids;
  }

  lemma NoJumpsLeft(nodes: seq<Node>, from: nat, to: nat)
    requires from != to
    ensures JumpsTo(Redirected(nodes, from, to), from) == 0
  {
    NoJumps(Redirected(nodes, from, to), from);
  }

  lemma RedirectedTargets(nodes: seq<Node>, inLinks: map<nat, nat>, from: nat, to: nat)
    requires to in inLinks && forall i :: 0 <= i < |nodes| && nodes[i].jump.Some? ==> nodes[i].jump.value in inLinks
    ensures var r := Redirected(nodes, from, to);
      forall i :: 0 <= i < |r| && r[i].jump.Some? ==> r[i].jump.value in inLinks
  {
    var r := Redirected(nodes, from, to);
    forall i | 0 <= i < |r| && r[i].jump.Some?
      ensures r[i].jump.value in inLinks
    {
      assert nodes[i].jump.Some? && nodes[i].jump.value in inLinks;
    }
  }

  lemma MovedJump(nodes: seq<Node>, i: nat, from: nat, to: nat)
    requires i < |nodes| && nodes[i].jump == Some(from)
    ensures forall id :: id != from ==>
      JumpsTo(nodes[i := nodes[i].(jump := Some(to))], id) == JumpsTo(nodes, id) + (if id == to then 1 else 0)
  {
    forall id | id != from
      ensures JumpsTo(nodes[i := nodes[i].(jump := Some(to))], id) == JumpsTo(nodes, id) + (if id == to then 1 else 0)
    {
      JumpsToUpdate(nodes, i, nodes[i].(jump := Some(to)), id);
    }
  }

  /** A node put before position `p`. */
  function Inserted(nodes: seq<Node>, p: nat, n: Node): (r: seq<Node>)
    requires p <= |nodes|
    ensures |r| == |nodes| + 1 && r[p] == n
    ensures forall i :: 0 <= i < p ==> r[i] == nodes[i]
    ensures forall i :: p <= i < |nodes| ==> r[i + 1] == nodes[i]
  {
    nodes[..p] + [n] + nodes[p..]
  }

  lemma InsertedIds(nodes: seq<Node>, p: nat, n: Node)
    requires p <= |nodes|
    ensures Ids(Inserted(nodes, p, n)) == Ids(nodes) + {n.id}
  {
    var after := Inserted(nodes, p, n);
    hide Inserted;
    forall id | id in Ids(nodes)
      ensures id in Ids(after)
    {
      var i :| 0 <= i < |nodes| && nodes[i].id == id;
      assert after[if i < p then i else i + 1].id == id;
    }
    assert after[p].id == n.id;
    forall id | id in Ids(after) && id != n.id
      ensures id in Ids(nodes)
    {
      var i :| 0 <= i < |after| && after[i].id == id;
      var j := if i < p then i else i - 1;
      assert i != p && after[i] == nodes[j];
    }
  }

  lemma InsertedUnique(nodes: seq<Node>, p: nat, n: Node)
    requires p <= |nodes| && UniqueIds(nodes) && forall i :: 0 <= i < |nodes| ==> nodes[i].id < n.id
    ensures UniqueIds(Inserted(nodes, p, n))
    ensures forall i :: 0 <= i < |nodes| + 1 ==> Inserted(nodes, p, n)[i].id <= n.id
  {
    var after := Inserted(nodes, p, n);
    hide Inserted;
    forall i | 0 <= i < |after| && i != p
      ensures after[i] == nodes[if i < p then i else i - 1]
    {
    }
  }

  lemma InsertLinked(nodes: seq<Node>, blank: nat, nextId: nat, inLinks: map<nat, nat>, p: nat, instr: Instr)
    requires WellLinked(nodes, blank, nextId, inLinks) && p <= |nodes|
    ensures WellLinked(Inserted(nodes, p, Node(nextId, instr, None)), blank, nextId + 1, inLinks[nextId := 0])
  {
    var n := Node(nextId, instr, None);
    var after := Inserted(nodes, p, n);
    UnknownIsFree(nodes, blank, nextId, inLinks);
    hide JumpsTo, Inserted, UniqueIds;
    InsertedIds(nodes, p, n);
    InsertedUnique(nodes, p, n);
    assert Identified(after, blank, nextId + 1) by {
      hide Covered, Counted;
    }
    InsertedJumps(nodes, p, n, inLinks);
    assert Covered(after, blank, inLinks[nextId := 0]) by {
      hide Identified, Counted;
    }
    InsertedHits(nodes, p, n);
    hide Identified, Covered, Ids;
  }

  lemma InsertedHits(nodes: seq<Node>, p: nat, n: Node)
    requires p <= |nodes| && n.jump.None?
    ensures forall id :: JumpsTo(Inserted(nodes, p, n), id) == JumpsTo(nodes, id)
  {
    forall id
      ensures JumpsTo(Inserted(nodes, p, n), id) == JumpsTo(nodes, id)
    {
      JumpsToInsert(nodes, p, n, id);
    }
  }

  lemma InsertedJumps(nodes: seq<Node>, p: nat, n: Node, inLinks: map<nat, nat>)
    requires p <= |nodes| && n.jump.None?
    requires forall i :: 0 <= i < |nodes| && nodes[i].jump.Some? ==> nodes[i].jump.value in inLinks
    ensures var after := Inserted(nodes, p, n);
      forall i :: 0 <= i < |after| && after[i].jump.Some? ==> after[i].jump.value in inLinks
  {
    var after := Inserted(nodes, p, n);
    forall i | 0 <= i < |after| && after[i].jump.Some?
      ensures after[i].jump.value in inLinks
    {
      assert after[i] == nodes[if i < p then i else i - 1];
    }
  }

  lemma SetInstrLinked(nodes: seq<Node>, blank: nat, nextId: nat, inLinks: map<nat, nat>, p: nat, instr: Instr)
    requires WellLinked(nodes, blank, nextId, inLinks) && p < |nodes|
    ensures WellLinked(nodes[p := nodes[p].(instr := instr)], blank, nextId, inLinks)
  {
    var after := nodes[p := nodes[p].(instr := instr)];
    SameIds(nodes, after);
    assert Counted(after, inLinks) by {
      forall id
        ensures JumpsTo(after, id) == JumpsTo(nodes, id)
      {
        JumpsToUpdate(nodes, p, nodes[p].(instr := instr), id);
      }
    }
    hide Counted, JumpsTo, UniqueIds, Ids;
  }
}
