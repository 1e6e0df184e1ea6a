/** Stack frames: scope sizes and variable offsets (scope.c), spill slots (regalloc.c) and the SPARC
    frame around them (sparcgen.c). */
module Frame {
  import opened Mir

  // ----- Scopes by value -----

  /** A scope: the bytes reserved for it, the sizes of its records and the scopes nested in it. */
  datatype Scope = Scope(size: nat, records: seq<nat>, children: seq<Scope>)

  function Sum(s: seq<nat>): nat {
    if s == [] then 0 else Sum(s[..|s| - 1]) + s[|s| - 1]
  }

  lemma {:induction false} SumPrefix(s: seq<nat>, k: nat)
    requires k < |s|
    ensures Sum(s[..k]) + s[k] == Sum(s[..k + 1]) <= Sum(s)
    decreases |s|
  {
    assert s[..k + 1][..k] == s[..k];
    if k + 1 < |s| {
      SumPrefix(s[..|s| - 1], k);
      assert s[..|s| - 1][..k + 1] == s[..k + 1] && s[..|s| - 1][..k] == s[..k];
    } else {
      assert s[..k + 1] == s;
    }
  }

  /** Two records apart in the table are apart in bytes. */
  lemma {:induction false} SumMonotone(s: seq<nat>, j: nat, k: nat)
    requires j <= k <= |s|
    ensures Sum(s[..j]) <= Sum(s[..k])
    decreases k - j
  {
    if j < k {
      SumPrefix(s, j);
      SumMonotone(s, j + 1, k);
    }
  }

  function Max(a: nat, b: nat): nat {
    if a > b then a else b
  }

  /** The bytes of a scope and its largest nested scope. */
  function MaxSize(t: Scope): nat {
    t.size + MaxChild(t.children)
  }

  function MaxChild(ts: seq<Scope>): nat {
    if ts == [] then 0 else Max(MaxChild(ts[..|ts| - 1]), MaxSize(ts[|ts| - 1]))
  }

  lemma MaxChildPush(ts: seq<Scope>, t: Scope)
    ensures MaxChild(ts + [t]) == Max(MaxChild(ts), MaxSize(t))
  {
    assert (ts + [t])[..|ts|] == ts;
  }

  ghost function MaxOf(ts: seq<Scope>, i: nat): nat
    requires i <= |ts|
  {
    MaxChild(ts[..i])
  }

  lemma MaxOfAll(ts: seq<Scope>)
    ensures MaxOf(ts, |ts|) == MaxChild(ts)
  {
    assert ts[..|ts|] == ts;
  }

  /** Keeps the larger of the sizes seen so far and the next one. */
  method TakeLarger(maxSize: nat, size: nat, ghost ts: seq<Scope>, ghost i: nat) returns (r: nat)
    requires i < |ts| && maxSize == MaxOf(ts, i) && size == MaxSize(ts[i])
    ensures r == MaxOf(ts, i + 1)
  {
    MaxChildPush(ts[..i], ts[i]);
    assert ts[..i + 1] == ts[..i] + [ts[i]];
    r := maxSize;
    if size > maxSize {
      r := size;
    }
  }

  lemma {:induction false} ChildBelow(ts: seq<Scope>, i: nat)
    requires i < |ts|
    ensures MaxSize(ts[i]) <= MaxChild(ts)
    decreases |ts|
  {
    if i + 1 < |ts| {
      ChildBelow(ts[..|ts| - 1], i);
    }
  }

  /** The offset of record `k`: a scope lies above everything nested in it. */
  function OffsetAt(t: Scope, k: nat): nat
    requires k <= |t.records|
  {
    MaxChild(t.children) + Sum(t.records[..k])
  }

  /** Every scope reserves at least its records. */
  ghost predicate Reserves(t: Scope) {
    Sum(t.records) <= t.size && forall i :: 0 <= i < |t.children| ==> Reserves(t.children[i])
  }

  /** A variable by the child indices that lead to its scope and its index there. */
  datatype Variable = Variable(path: seq<nat>, record: nat)

  ghost predicate HasPath(t: Scope, path: seq<nat>) {
    path == [] || (path[0] < |t.children| && HasPath(t.children[path[0]], path[1..]))
  }

  ghost function ScopeAt(t: Scope, path: seq<nat>): Scope
    requires HasPath(t, path)
  {
    if path == [] then t else ScopeAt(t.children[path[0]], path[1..])
  }

  ghost predicate Declares(t: Scope, v: Variable) {
    HasPath(t, v.path) && v.record < |ScopeAt(t, v.path).records|
  }

  ghost function Offset(t: Scope, v: Variable): nat
    requires Declares(t, v)
  {
    OffsetAt(ScopeAt(t, v.path), v.record)
  }

  ghost function Length(t: Scope, v: Variable): nat
    requires Declares(t, v)
  {
    ScopeAt(t, v.path).records[v.record]
  }

  /** The bytes of the scopes along a path. */
  ghost function PathBytes(t: Scope, path: seq<nat>): nat
    requires HasPath(t, path)
  {
    t.size + if path == [] then 0 else PathBytes(t.children[path[0]], path[1..])
  }

  /** A scope's size is what the deepest run of nested scopes needs: some path needs that much, and none needs
      more, because scopes side by side share their bytes. */
  lemma {:induction false} MaxSizeIsDeepest(t: Scope) returns (path: seq<nat>)
    ensures HasPath(t, path) && PathBytes(t, path) == MaxSize(t)
    ensures forall p :: HasPath(t, p) ==> PathBytes(t, p) <= MaxSize(t)
  {
    path := [];
    if t.children != [] {
      var i := LargestChild(t.children);
      var below := MaxSizeIsDeepest(t.children[i]);
      path := [i] + below;
      assert path[1..] == below;
    }
    forall p | HasPath(t, p)
      ensures PathBytes(t, p) <= MaxSize(t)
    {
      if p != [] {
        var _ := MaxSizeIsDeepest(t.children[p[0]]);
        ChildBelow(t.children, p[0]);
      }
    }
  }

  lemma {:induction false} LargestChild(ts: seq<Scope>) returns (i: nat)
    requires ts != []
    ensures i < |ts| && MaxSize(ts[i]) == MaxChild(ts)
    decreases |ts|
  {
    i := |ts| - 1;
    if |ts| > 1 && MaxChild(ts[..|ts| - 1]) > MaxSize(ts[|ts| - 1]) {
      i := LargestChild(ts[..|ts| - 1]);
    }
  }

  /** The records of a scope follow each other without a gap, from the top of its nested scopes. */
  lemma {:induction false} RecordsFollow(t: Scope, v: Variable)
    requires Declares(t, v)
    ensures v.record == 0 ==> Offset(t, v) + ScopeAt(t, v.path).size == MaxSize(ScopeAt(t, v.path))
    ensures v.record > 0 ==>
      var w := Variable(v.path, v.record - 1); Offset(t, v) == Offset(t, w) + Length(t, w)
  {
    if v.record > 0 {
      SumPrefix(ScopeAt(t, v.path).records, v.record - 1);
    }
  }

  /** Byte ranges without a common byte. */
  ghost predicate Apart(a: int, la: int, b: int, lb: int) {
    a + la <= b || b + lb <= a
  }

  /** The records of a scope lie in its own bytes, above its children. */
  lemma RecordInScope(t: Scope, k: nat)
    requires Sum(t.records) <= t.size && k < |t.records|
    ensures MaxChild(t.children) <= OffsetAt(t, k)
    ensures OffsetAt(t, k) + t.records[k] <= MaxSize(t)
  {
    SumPrefix(t.records, k);
  }

  /** Every variable lies inside the size of the scope it is nested in. */
  lemma {:induction false} VariableInside(t: Scope, v: Variable)
    requires Reserves(t) && Declares(t, v)
    ensures Offset(t, v) + Length(t, v) <= MaxSize(t)
    ensures v.path != [] ==> Offset(t, v) + Length(t, v) <= MaxChild(t.children)
    decreases |v.path|
  {
    if v.path == [] {
      RecordInScope(t, v.record);
    } else {
      VariableInside(t.children[v.path[0]], Variable(v.path[1..], v.record));
      ChildBelow(t.children, v.path[0]);
    }
  }

  /** Variables visible together - one's scope is the other's or encloses it - never share a byte. */
  lemma {:induction false} VisibleVariablesApart(t: Scope, v: Variable, w: Variable)
    requires Reserves(t) && Declares(t, v) && Declares(t, w) && v != w && v.path <= w.path
    ensures Apart(Offset(t, v), Length(t, v), Offset(t, w), Length(t, w))
    decreases |v.path|
  {
    if v.path == [] {
      RecordInScope(t, v.record);
      if w.path == [] {
        if v.record < w.record {
          SumPrefix(t.records, v.record);
          SumMonotone(t.records, v.record + 1, w.record);
        } else {
          SumPrefix(t.records, w.record);
          SumMonotone(t.records, w.record + 1, v.record);
        }
      } else {
        VariableInside(t, w);
      }
    } else {
      VisibleVariablesApart(t.children[v.path[0]], Variable(v.path[1..], v.record), Variable(w.path[1..], w.record));
    }
  }

  // ----- Scopes as the symbol table holds them -----

  class ScopeNode {
    var size: nat
    /** The sizes of the records (entry_size) and the offsets given to them. */
    var records: seq<nat>
    var offsets: seq<nat>
    var children: seq<ScopeNode>
    ghost var Repr: set<ScopeNode>

    ghost predicate Valid()
      reads this`children, this`Repr, Repr`children, Repr`Repr
      decreases Repr
    {
      && this in Repr
      && (forall i :: 0 <= i < |children| ==>
            children[i] in Repr && children[i].Repr < Repr && this !in children[i].Repr && children[i].Valid())
      && (forall i, j :: 0 <= i < j < |children| ==> children[i].Repr !! children[j].Repr)
    }

    ghost function Tree(): Scope
      requires Valid()
      reads this`children, this`Repr, this`size, this`records, Repr`children, Repr`Repr, Repr`size, Repr`records
      decreases Repr, 1
    {
      Scope(size, records, Trees(|children|))
    }

    /** The first `n` nested scopes by value. */
    ghost function Trees(n: nat): (ts: seq<Scope>)
      requires Valid() && n <= |children|
      reads this`children, this`Repr, Repr`children, Repr`Repr, Repr`size, Repr`records
      ensures |ts| == n && forall i :: 0 <= i < n ==> ts[i] == children[i].Tree()
      decreases Repr, 0, n
    {
      if n == 0 then [] else Trees(n - 1) + [children[n - 1].Tree()]
    }

    /** Every record of the scope and of the scopes nested in it has its offset. */
    ghost predicate Placed()
      requires Valid()
      reads this, Repr
      decreases Repr
    {
      && |offsets| == |records|
      && (forall k :: 0 <= k < |offsets| ==> offsets[k] == OffsetAt(Tree(), k))
      && (forall i :: 0 <= i < |children| ==> children[i].Placed())
    }

    constructor ()
      ensures Valid() && Tree() == Scope(0, [], []) && fresh(Repr)
    {
      size, records, offsets, children := 0, [], [], [];
      Repr := {this};
    }

    /** add_entry for a variable: one more record, and its bytes. */
    method AddEntry(entrySize: nat)
      requires Valid()
      modifies this`size, this`records, this`offsets
      ensures Valid() && Repr == old(Repr)
      ensures Tree() == old(Tree()).(size := old(size) + entrySize, records := old(records) + [entrySize])
      ensures old(Reserves(Tree())) ==> Reserves(Tree())
    {
      records := records + [entrySize];
      offsets := offsets + [0];
      size := size + entrySize;
      assert forall i :: 0 <= i < |children| ==> children[i].Tree() == old(children[i].Tree());
      assert Tree().children == old(Tree()).children;
      assert records[..|records| - 1] == old(records);
    }

    /** add_scope: nests another scope after the ones already nested. */
    method AddScope(child: ScopeNode)
      requires Valid() && child.Valid() && Repr !! child.Repr
      modifies this`children, this`Repr
      ensures Valid() && Repr == old(Repr) + child.Repr
      ensures Tree() == old(Tree()).(children := old(Tree()).children + [child.Tree()])
    {
      hide MaxChild, Sum;
      children := children + [child];
      Repr := Repr + child.Repr;
      assert Valid();
      assert forall i :: 0 <= i < |children| - 1 ==> children[i].Tree() == old(children[i].Tree());
      assert Tree().children == old(Tree()).children + [child.Tree()];
    }

    /** max_scope_size. */
    method MaxScopeSize() returns (r: nat)
      requires Valid()
      ensures r == MaxSize(Tree())
      decreases Repr, 1
    {
      if |children| == 0 {
        return size;
      }
      var maxSize := LargestChild();
      return maxSize + size;
    }

    /** The loop over the nested scopes. */
    method LargestChild() returns (maxSize: nat)
      requires Valid()
      ensures maxSize == MaxChild(Trees(|children|))
      decreases Repr, 0
    {
      ghost var ts := Trees(|children|);
      maxSize := 0;
      var i := 0;
      while i < |children|
        invariant 0 <= i <= |children|
        invariant maxSize == MaxOf(ts, i)
      {
        var s := children[i].MaxScopeSize();
        assert s == MaxSize(ts[i]);
        maxSize := TakeLarger(maxSize, s, ts, i);
        i := i + 1;
      }
      MaxOfAll(ts);
    }

    /** Gives the records of this scope their offsets. */
    method PlaceRecords()
      requires Valid()
      modifies this`offsets
      ensures |offsets| == |records|
      ensures forall k :: 0 <= k < |offsets| ==> offsets[k] == OffsetAt(Tree(), k)
    {
      hide Tree, MaxChild, Sum, Valid;
      var offset := AboveChildren();
      ghost var t := Tree();
      PlaceFrom(offset);
      assert forall k :: 0 <= k < |offsets| ==> offsets[k] == OffsetAt(t, k);
      assert Tree() == t;
    }

    /** Where the records of this scope begin: above everything nested in it. */
    method AboveChildren() returns (offset: nat)
      requires Valid()
      ensures offset == MaxChild(Tree().children) && Tree().records == records
    {
      offset := 0;
      if |children| != 0 {
        var m := MaxScopeSize();
        offset := m - size;
      }
    }

    /** The records one behind the other from `start` on. */
    method PlaceFrom(start: nat)
      modifies this`offsets
      ensures |offsets| == |records|
      ensures forall k :: 0 <= k < |offsets| ==> offsets[k] == start + Sum(records[..k])
    {
      var offset := start;
      offsets := [];
      var i := 0;
      while i < |records|
        invariant 0 <= i <= |records| && |offsets| == i
        invariant offset == start + Sum(records[..i])
        invariant forall k :: 0 <= k < i ==> offsets[k] == start + Sum(records[..k])
      {
        offsets := offsets + [offset];
        assert records[..i + 1][..i] == records[..i];
        offset := offset + records[i];
        i := i + 1;
      }
    }

    /** set_scope_offset: places the records of this scope and of every scope nested in it. */
    method SetScopeOffset()
      requires Valid()
      modifies Repr`offsets
      ensures Placed()
      decreases Repr, 1
    {
      PlaceRecords();
      ghost var own, t := offsets, Tree();
      var i := 0;
      while i < |children|
        invariant 0 <= i <= |children|
        invariant offsets == own && Tree() == t
        invariant FirstPlaced(i)
      {
        PlaceChild(i);
        i := i + 1;
      }
    }

    /** The first `n` nested scopes are placed. */
    ghost predicate FirstPlaced(n: nat)
      requires Valid() && n <= |children|
      reads this, Repr
    {
      forall j :: 0 <= j < n ==> children[j].Placed()
    }

    /** Placing one nested scope leaves this scope's offsets and the scopes placed before. */
    method PlaceChild(i: nat)
      requires Valid() && i < |children| && FirstPlaced(i)
      modifies children[i].Repr`offsets
      ensures FirstPlaced(i + 1)
      decreases Repr, 0
    {
      children[i].SetScopeOffset();
      assert forall j :: 0 <= j < i ==> children[j].Repr !! children[i].Repr;
    }

    /** set_scope_offsets, on the global scope: places every function's scope in turn. */
    method SetScopeOffsets()
      requires Valid()
      modifies Repr`offsets
      ensures forall i :: 0 <= i < |children| ==> children[i].Placed()
    {
      var i := 0;
      while i < |children|
        invariant 0 <= i <= |children|
        invariant FirstPlaced(i)
      {
        PlaceChild(i);
        i := i + 1;
      }
    }
  }

  // ----- Spill slots -----

  const SLOT := 4

  /** The spill slots of one function: each spilled temporary with its offset above the locals. */
  class SpillSlots {
    var slots: seq<(int, nat)>

    /** Slot `i` is `i` registers above the locals, and no temporary has two. */
    ghost predicate Valid()
      reads this
    {
      && (forall i :: 0 <= i < |slots| ==> slots[i].1 == SLOT * i)
      && (forall i, j :: 0 <= i < j < |slots| ==> slots[i].0 != slots[j].0)
    }

    constructor ()
      ensures Valid() && slots == []
    {
      slots := [];
    }

    /** assign_stack_location. */
    method AssignStackLocation(tempReg: int) returns (offset: nat)
      requires Valid() && forall i :: 0 <= i < |slots| ==> slots[i].0 != tempReg
      modifies this
      ensures Valid() && slots == old(slots) + [(tempReg, offset)]
    {
      var index := |slots|;
      if index == 0 {
        offset := 0;
      } else {
        offset := slots[index - 1].1 + SLOT;
      }
      slots := slots + [(tempReg, offset)];
    }

    /** The bytes `i` is stored in are apart from those of every other temporary. */
    ghost predicate OwnBytes(base: nat, i: nat)
      requires i < |slots|
      reads this
    {
      forall j :: 0 <= j < |slots| && j != i ==> Apart(base + slots[i].1, WORD_SIZE, base + slots[j].1, WORD_SIZE)
    }

    /** Every temporary has a word of its own, above the scope and inside what the scope grows to. */
    lemma SlotsAreWords(t: Scope, i: nat)
      requires Valid() && i < |slots|
      ensures OwnBytes(MaxSize(t), i)
      ensures MaxSize(t) <= MaxSize(t) + slots[i].1
      ensures MaxSize(t) + slots[i].1 + WORD_SIZE <= MaxSize(WithTemps(t, |slots|))
    {
    }

    /** temp_stack_location: the slot a temporary has, or a new one. `base` is the size of the function's
        scope, so its word is above the scope, apart from every other temporary's and inside the grown scope. */
    method TempStackLocation(base: nat, tempReg: int) returns (location: nat)
      requires Valid()
      modifies this
      ensures Valid() && old(slots) <= slots
      ensures exists i: nat :: i < |slots| && slots[i] == (tempReg, location - base) && OwnBytes(base, i)
      ensures forall t: Scope :: MaxSize(t) == base ==>
        base <= location && location + WORD_SIZE <= MaxSize(WithTemps(t, |slots|))
      ensures (exists i :: 0 <= i < |old(slots)| && old(slots)[i].0 == tempReg) ==> slots == old(slots)
      ensures |slots| <= |old(slots)| + 1
    {
      var i := 0;
      while i < |slots|
        invariant 0 <= i <= |slots| && slots == old(slots) && Valid()
        invariant forall k :: 0 <= k < i ==> slots[k].0 != tempReg
      {
        if slots[i].0 == tempReg {
          return slots[i].1 + base;
        }
        i := i + 1;
      }
      var offset := AssignStackLocation(tempReg);
      assert slots[|slots| - 1] == (tempReg, offset);
      return offset + base;
    }
  }

  /** add_temps_to_scopes: the function's scope grows by its spill slots. */
  function WithTemps(t: Scope, slots: nat): Scope {
    t.(size := t.size + SLOT * slots)
  }

  // ----- The SPARC frame -----

  const STACK_HEADER_SIZE := 112
  const STACK_ALIGN := 8
  const STACK_LOCAL_BASE := 96
  const STACK_ARGS_BASE := 92
  const WORD_SIZE := 4
  const REG_ARGS := 6

  function Align(addr: nat): (r: nat)
    ensures addr <= r < addr + STACK_ALIGN && r % STACK_ALIGN == 0
  {
    if addr % STACK_ALIGN != 0 then addr + (STACK_ALIGN - addr % STACK_ALIGN) else addr
  }

  function SpOffset(offset: nat, offsetWords: nat): nat {
    offset + STACK_LOCAL_BASE + offsetWords * WORD_SIZE
  }

  function FpOffset(offset: nat, frameSize: int, offsetWords: nat): int {
    frameSize - SpOffset(offset, offsetWords)
  }

  /** max_call_args: the most stack words any call of the function passes arguments in. */
  method MaxCallArgs(nodes: seq<Node>) returns (r: nat)
    requires |nodes| > 0 && nodes[|nodes| - 1].instr.opcode.End?
    requires forall i :: 0 <= i < |nodes| - 1 ==> !nodes[i].instr.opcode.End?
    ensures forall i :: 0 <= i < |nodes| && nodes[i].instr.opcode.Call? ==> |nodes[i].instr.args| <= REG_ARGS + r
    ensures r > 0 ==>
      exists i :: 0 <= i < |nodes| && nodes[i].instr.opcode.Call? && |nodes[i].instr.args| == REG_ARGS + r
  {
    var maxArgs := REG_ARGS;
    var i := 0;
    while !nodes[i].instr.opcode.End?
      invariant 0 <= i < |nodes| && maxArgs >= REG_ARGS
      invariant forall k :: 0 <= k < i && nodes[k].instr.opcode.Call? ==> |nodes[k].instr.args| <= maxArgs
      invariant maxArgs > REG_ARGS ==>
        exists k :: 0 <= k < i && nodes[k].instr.opcode.Call? && |nodes[k].instr.args| == maxArgs
      decreases |nodes| - i
    {
      if nodes[i].instr.opcode.Call? && |nodes[i].instr.args| > maxArgs {
        maxArgs := |nodes[i].instr.args|;
      }
      i := i + 1;
    }
    return maxArgs - REG_ARGS;
  }

  function FrameSize(t: Scope, slots: nat, words: nat): nat {
    Align(STACK_HEADER_SIZE + MaxSize(WithTemps(t, slots)) + words * WORD_SIZE)
  }

  /** Where things are in a function's frame, from the stack pointer: a variable, a spill slot or an
      outgoing argument passed on the stack. */
  datatype Place = Local(v: Variable) | Spill(slot: nat) | OutArg(arg: nat)

  ghost predicate InFrame(t: Scope, slots: nat, words: nat, p: Place) {
    match p
    case Local(v) => Declares(t, v)
    case Spill(i) => i < slots
    case OutArg(i) => REG_ARGS <= i < REG_ARGS + words
  }

  ghost function Start(t: Scope, words: nat, p: Place): int
    requires p.Local? ==> Declares(t, p.v)
  {
    match p
    case Local(v) => SpOffset(Offset(t, v), words)
    case Spill(i) => SpOffset(MaxSize(t) + SLOT * i, words)
    case OutArg(i) => (i - REG_ARGS) * WORD_SIZE + STACK_ARGS_BASE
  }

  ghost function Bytes(t: Scope, p: Place): int
    requires p.Local? ==> Declares(t, p.v)
  {
    match p
    case Local(v) => Length(t, v)
    case Spill(_) => WORD_SIZE
    case OutArg(_) => WORD_SIZE
  }

  /** Two variables that are never visible together may share bytes. */
  ghost predicate Overlaid(p: Place, q: Place) {
    p.Local? && q.Local? && !(p.v.path <= q.v.path) && !(q.v.path <= p.v.path)
  }

  /** Locals, spill slots and outgoing stack arguments lie inside the aligned frame and never overlap. Below
      them all are 16 words of window save area, the hidden parameter and 6 words for arguments. */
  lemma FrameIsSound(t: Scope, slots: nat, words: nat, p: Place, q: Place)
    requires Reserves(t) && InFrame(t, slots, words, p) && InFrame(t, slots, words, q)
    requires p != q && !Overlaid(p, q)
    ensures (16 + 1 + 6) * 4 <= Start(t, words, p) && (!p.Local? ==> Bytes(t, p) == 4)
    ensures Start(t, words, p) + Bytes(t, p) <= FrameSize(t, slots, words)
    ensures Apart(Start(t, words, p), Bytes(t, p), Start(t, words, q), Bytes(t, q))
  {
    PlaceInFrame(t, slots, words, p);
    PlaceInFrame(t, slots, words, q);
    if p.Local? && q.Local? {
      if p.v.path <= q.v.path {
        VisibleVariablesApart(t, p.v, q.v);
      } else {
        VisibleVariablesApart(t, q.v, p.v);
      }
    }
  }

  /** The frame is the next multiple of 8 bytes that holds a header of 112, the scopes and their slots, and
      the arguments beyond the sixth. */
  lemma FrameHoldsAll(t: Scope, slots: nat, words: nat)
    ensures var bytes := 112 + MaxSize(t) + 4 * slots + 4 * words;
      && bytes <= FrameSize(t, slots, words) < bytes + 8 && FrameSize(t, slots, words) % 8 == 0
  {
  }

  /** The argument words begin right above the reserved ones, and everything else is one word further up:
      in scope order from `Offset`, with the spill slots on top, one word each. */
  lemma PlacesInOrder(t: Scope, slots: nat, words: nat, v: Variable, i: nat)
    requires Declares(t, v)
    ensures InFrame(t, slots, words, OutArg(i)) <==> 6 <= i && i - 6 < words
    ensures Start(t, words, OutArg(6)) == 92 && Start(t, words, OutArg(i + 1)) == Start(t, words, OutArg(i)) + 4
    ensures Start(t, words, Local(v)) == Start(t, words, OutArg(6 + words)) + 4 + Offset(t, v)
    ensures Start(t, words, Spill(i)) - MaxSize(t) == Start(t, words, Local(v)) - Offset(t, v) + 4 * i
  {
  }

  lemma PlaceInFrame(t: Scope, slots: nat, words: nat, p: Place)
    requires Reserves(t) && InFrame(t, slots, words, p)
    ensures STACK_ARGS_BASE <= Start(t, words, p)
    ensures Start(t, words, p) + Bytes(t, p) <= FrameSize(t, slots, words)
    ensures p.OutArg? ==> Start(t, words, p) + Bytes(t, p) <= STACK_ARGS_BASE + words * WORD_SIZE
    ensures !p.OutArg? ==> STACK_LOCAL_BASE + words * WORD_SIZE <= Start(t, words, p)
    ensures p.Local? ==> Start(t, words, p) + Bytes(t, p) <= SpOffset(MaxSize(t), words)
    ensures p.Spill? ==> SpOffset(MaxSize(t), words) <= Start(t, words, p)
  {
    if p.Local? {
      VariableInside(t, p.v);
    }
  }

  /** A local's address from the frame pointer, one frame above the stack pointer: all its bytes are below it
      and above the register save area. */
  lemma LocalsBelowFramePointer(t: Scope, slots: nat, words: nat, v: Variable)
    requires Reserves(t) && Declares(t, v)
    ensures var frame := FrameSize(t, slots, words);
      && Length(t, v) <= FpOffset(Offset(t, v), frame, words) <= frame - STACK_LOCAL_BASE - words * WORD_SIZE
      && FpOffset(Offset(t, v), frame, words) + Start(t, words, Local(v)) == frame
  {
    PlaceInFrame(t, slots, words, Local(v));
  }

  // ----- Arguments from the caller to the callee -----

  /** Where an argument is handed over: a register that is %o in the caller and %i in the callee, or a word
      at an offset from the caller's stack pointer, which is the callee's frame pointer. */
  datatype Holder = InRegister(reg: nat) | OnStack(offset: nat)

  /** The code of a CALL: the arguments beyond the sixth are stored first, then the registers are filled. */
  method PassArguments(n: nat) returns (places: map<nat, Holder>)
    ensures forall k: nat :: k in places <==> k < n
    ensures forall k: nat :: k < n ==> places[k] == if k < 6 then InRegister(k) else OnStack(92 + 4 * (k - 6))
  {
    places := map[];
    var i := REG_ARGS;
    while i < n
      invariant REG_ARGS <= i && (i <= n || i == REG_ARGS)
      invariant forall k: nat :: k in places <==> REG_ARGS <= k < i
      invariant forall k: nat :: REG_ARGS <= k < i ==> places[k] == OnStack(92 + 4 * (k - 6))
    {
      places := places[i := OnStack((i - REG_ARGS) * WORD_SIZE + STACK_ARGS_BASE)];
      i := i + 1;
    }
    ghost var top := i;
    i := 0;
    while i < n && i < REG_ARGS
      invariant 0 <= i <= REG_ARGS && i <= n
      invariant forall k: nat :: k in places <==> k < i || REG_ARGS <= k < top
      invariant forall k: nat :: k < i ==> places[k] == InRegister(k)
      invariant forall k: nat :: REG_ARGS <= k < top ==> places[k] == OnStack(92 + 4 * (k - 6))
    {
      places := places[i := InRegister(i)];
      i := i + 1;
    }
  }

  /** The code of the RECEIVEs: the argument counter stops at the first one that comes from the stack, so all
      of those read the same word. */
  method ReceiveArguments(n: nat) returns (places: seq<Holder>)
    ensures |places| == n
    ensures forall k: nat :: k < n ==> places[k] == if k < 6 then InRegister(k) else OnStack(92)
  {
    places := [];
    var currentArg := 0;
    while |places| < n
      invariant |places| <= n && currentArg == if |places| < REG_ARGS then |places| else REG_ARGS
      invariant forall k: nat :: k < |places| ==> places[k] == if k < 6 then InRegister(k) else OnStack(92)
      decreases n - |places|
    {
      if currentArg >= REG_ARGS {
        places := places + [OnStack(STACK_ARGS_BASE + (currentArg - REG_ARGS) * WORD_SIZE)];
      } else {
        places := places + [InRegister(currentArg)];
        currentArg := currentArg + 1;
      }
    }
  }

  /** A call of a function with `n` parameters: a parameter is read from where its argument was put exactly when
      it is one of the first seven. */
  method HandOver(n: nat) returns (passed: map<nat, Holder>, received: seq<Holder>)
    ensures |received| == n && forall k: nat :: k < n ==> k in passed && (received[k] == passed[k] <==> k < 7)
    ensures n > 7 ==> received[7] == received[6] == passed[6] != passed[7]
  {
    passed := PassArguments(n);
    received := ReceiveArguments(n);
  }

  // ----- Alignment -----

  /** Loads and stores of words need a multiple of the word. The stack pointer is a multiple of 8, so an
      outgoing argument always is one, a variable when the bytes below it are whole words, and the spill
      slots when the bytes of the function's scopes are. */
  lemma PlaceAligned(t: Scope, slots: nat, words: nat, p: Place)
    requires InFrame(t, slots, words, p)
    ensures FrameSize(t, slots, words) % STACK_ALIGN == 0
    ensures Start(t, words, p) % WORD_SIZE == 0 <==> BytesBelow(t, p) % WORD_SIZE == 0
  {
  }

  /** The bytes of the function's scopes that lie below a place. */
  ghost function BytesBelow(t: Scope, p: Place): nat
    requires p.Local? ==> Declares(t, p.v)
  {
    match p
    case Local(v) => Offset(t, v)
    case Spill(_) => MaxSize(t)
    case OutArg(_) => 0
  }

  /** Every scope and every record is a whole number of words. */
  ghost predicate WholeWords(t: Scope) {
    && t.size % WORD_SIZE == 0
    && (forall k :: 0 <= k < |t.records| ==> t.records[k] % WORD_SIZE == 0)
    && (forall i :: 0 <= i < |t.children| ==> WholeWords(t.children[i]))
  }

  lemma {:induction false} SumWholeWords(s: seq<nat>)
    requires forall k :: 0 <= k < |s| ==> s[k] % WORD_SIZE == 0
    ensures Sum(s) % WORD_SIZE == 0
  {
    if s != [] {
      SumWholeWords(s[..|s| - 1]);
    }
  }

  lemma {:induction false} MaxWholeWords(t: Scope)
    requires WholeWords(t)
    ensures MaxSize(t) % WORD_SIZE == 0 && MaxChild(t.children) % WORD_SIZE == 0
    decreases t, |t.children| + 1
  {
    MaxChildWholeWords(t, t.children);
  }

  lemma {:induction false} MaxChildWholeWords(t: Scope, ts: seq<Scope>)
    requires ts <= t.children && forall i :: 0 <= i < |ts| ==> WholeWords(ts[i])
    ensures MaxChild(ts) % WORD_SIZE == 0
    decreases t, |ts|
  {
    if ts != [] {
      MaxChildWholeWords(t, ts[..|ts| - 1]);
      assert ts[|ts| - 1] == t.children[|ts| - 1];
      MaxWholeWords(ts[|ts| - 1]);
    }
  }

  /** With whole words everywhere, every place of the frame is aligned. */
  lemma WholeWordsAligned(t: Scope, slots: nat, words: nat, p: Place)
    requires WholeWords(t) && InFrame(t, slots, words, p)
    ensures Start(t, words, p) % WORD_SIZE == 0
  {
    PlaceAligned(t, slots, words, p);
    if p.Local? {
      OffsetWholeWords(t, p.v);
    } else {
      MaxWholeWords(t);
    }
  }

  lemma {:induction false} OffsetWholeWords(t: Scope, v: Variable)
    requires WholeWords(t) && Declares(t, v)
    ensures Offset(t, v) % WORD_SIZE == 0
    decreases |v.path|
  {
    if v.path == [] {
      MaxWholeWords(t);
      SumWholeWords(t.records[..v.record]);
    } else {
      OffsetWholeWords(t.children[v.path[0]], Variable(v.path[1..], v.record));
    }
  }

  /** A record of one byte puts the word declared after it, and the spill slots, off the words. */
  lemma OddRecordMisaligns(words: nat)
    ensures var t := Scope(5, [1, 4], []);
      && Reserves(t)
      && InFrame(t, 1, words, Local(Variable([], 1))) && Length(t, Variable([], 1)) == WORD_SIZE
      && Start(t, words, Local(Variable([], 1))) % WORD_SIZE == 1
      && Start(t, words, Spill(0)) % WORD_SIZE == 1
  {
    var t := Scope(5, [1, 4], []);
    assert t.records[..1] == [1] && [1][..0] == [] && Sum([1]) == 1;
    assert Sum(t.records) == Sum(t.records[..1]) + 4;
    assert Offset(t, Variable([], 1)) == 1;
  }

  /** Growing a function's scope by its spill slots moves none of its variables. */
  lemma TempsMoveNothing(t: Scope, slots: nat, v: Variable)
    requires Declares(t, v)
    ensures Declares(WithTemps(t, slots), v) && Offset(WithTemps(t, slots), v) == Offset(t, v)
  {
    var w := WithTemps(t, slots);
    if v.path != [] {
      assert ScopeAt(w, v.path) == ScopeAt(t, v.path);
    }
  }
}
