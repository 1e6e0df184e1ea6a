/** Scalar history variables: cyclic storage (__hist_p_store__, __hist_p_load__) and flat storage
    (__hist_fp_store__, __hist_fp_load__) of rtlib/history.c with the loads history.c generates. */
module ScalarHistory {
  import opened History

  // ----- Which storage, and whether its pointer is set up -----

  /** What the option for simple storage leaves in the compiler's flags. */
  datatype Options = Options(simpleStore: bool, simpleDepth: int)

  function Defaults(): Options {
    Options(false, 0)
  }

  function WithSimpleStore(depth: int): Options {
    Options(true, depth)
  }

  /** The storage the stores and loads of a variable of this depth are generated for. */
  predicate UsesFlat(o: Options, depth: nat) {
    o.simpleStore && depth < o.simpleDepth
  }

  /** Flat exactly below the depth the option gives; without the option, never. */
  lemma StorageByDepth(limit: int, depth: nat)
    ensures UsesFlat(WithSimpleStore(limit), depth) <==> depth < limit
    ensures !UsesFlat(Defaults(), depth)
  {
  }

  /** Whether a variable's history pointer is set before its first store: in the data segment for a
      global, by init_history_vars on entry to the scope for a local. */
  predicate PointerSet(o: Options, global: bool, depth: nat) {
    if global then !UsesFlat(o, depth) else !o.simpleStore && depth > o.simpleDepth
  }

  /** A cyclic variable of the compiler starts with its pointer set, unless it is local and the option for
      simple storage was given, even for smaller depths only. A flat variable has no pointer to set. */
  lemma CyclicPointerSet(o: Options, global: bool, depth: nat)
    requires depth >= 1 && (o == Defaults() || o == WithSimpleStore(o.simpleDepth))
    ensures !UsesFlat(o, depth) ==> (PointerSet(o, global, depth) <==> global || o == Defaults())
    ensures UsesFlat(o, depth) ==> !PointerSet(o, global, depth)
  {
  }

  /** A history variable in cyclic storage: a ring of past values, a pointer into it, a current value. */
  class CyclicVar {
    const depth: nat
    /** The variable's storage. Its history takes the first `depth` words. */
    const addr: array<int>
    /** The history pointer, as an offset from `addr`. */
    var ptr: int
    var current: int

    ghost predicate Valid()
      reads this, addr
    {
      1 <= depth <= addr.Length && 0 <= ptr < depth
    }

    /** The current value followed by the past ones, the most recent first. */
    ghost function Contents(): (h: seq<int>)
      requires Valid()
      reads this, addr
      ensures |h| == depth + 1
    {
      [current] + seq(depth, k requires 0 <= k < depth && Valid() reads this, addr => addr[Slot(ptr, k, depth)])
    }

    /** The pointer starts at the base of the storage (history_init_scalar); CyclicPointerSet says when. */
    constructor (depth: nat, storage: array<int>, current: int)
      requires 1 <= depth <= storage.Length
      ensures Valid() && this.depth == depth && addr == storage
      ensures Contents() == [current] + storage[..depth]
    {
      this.depth, addr, ptr, this.current := depth, storage, 0, current;
    }

    /** __hist_p_store__: overwrites the oldest entry with the current value. */
    method PStore()
      requires Valid()
      modifies this`ptr, addr
      ensures Valid() && current == old(current)
      ensures Contents()[1..] == old(Contents())[..depth]
    {
      ptr := ptr - 1;
      if ptr < 0 {
        ptr := depth - 1;
      }
      addr[ptr] := current;
      forall k: nat | k < depth
        ensures addr[Slot(ptr, k, depth)] == if k == 0 then current else old(addr[Slot(ptr, k - 1, depth)])
      {
        SlotMoves(old(ptr), if k > 0 then k - 1 else 0, depth);
      }
      hide Slot, Before;
    }

    /** An assignment: the library call, then the move of the new current value. */
    method Store(v: int)
      requires Valid()
      modifies this`ptr, this`current, addr
      ensures Valid()
      ensures Contents() == Push(old(Contents()), v)
    {
      PStore();
      ghost var past := Contents()[1..];
      current := v;
      assert Contents()[1..] == past;
    }

    /** __hist_p_load__. */
    method PLoad(history: nat) returns (r: int)
      requires Valid() && history <= depth
      ensures r == Contents()[history]
    {
      if history == 0 {
        return current;
      }
      var p := ptr + (history - 1);
      if p >= depth {
        p := p - depth;
      }
      return addr[p];
    }

    /** history_load_scalar: a constant history of 0 or 1 reads the current value or the pointed-at word. */
    method LoadScalar(history: nat, isConst: bool) returns (r: int)
      requires Valid() && history <= depth
      ensures r == Contents()[history]
    {
      if isConst {
        if history == 0 {
          return current;
        } else if history == 1 {
          return addr[ptr];
        }
      }
      r := PLoad(history);
    }
  }

  /** A history variable in flat storage: current value first, then the past ones. */
  class FlatVar {
    const depth: nat
    const addr: array<int>

    ghost predicate Valid()
      reads this, addr
    {
      depth < addr.Length
    }

    ghost function Contents(): (h: seq<int>)
      requires Valid()
      reads this, addr
      ensures |h| == depth + 1
    {
      addr[..depth + 1]
    }

    constructor (depth: nat, storage: array<int>)
      requires depth < storage.Length
      ensures Valid() && this.depth == depth && addr == storage
    {
      this.depth, addr := depth, storage;
    }

    /** __hist_fp_store__: shifts every value one place up and writes the new one at the base. */
    method Store(v: int)
      requires Valid()
      modifies addr
      ensures Valid()
      ensures Contents() == Push(old(Contents()), v)
      ensures addr[depth + 1..] == old(addr[depth + 1..])
    {
      var p := depth + 1;
      p := p - 1;
      while p > 0
        invariant 0 <= p <= depth
        invariant forall k :: 0 <= k <= p ==> addr[k] == old(addr[k])
        invariant forall k :: p < k <= depth ==> addr[k] == old(addr[k - 1])
        invariant forall k :: depth < k < addr.Length ==> addr[k] == old(addr[k])
      {
        addr[p] := addr[p - 1];
        p := p - 1;
      }
      addr[0] := v;
    }

    /** __hist_fp_load__. */
    method FpLoad(history: nat) returns (r: int)
      requires Valid() && history <= depth
      ensures r == Contents()[history]
    {
      return addr[history];
    }
  }

  /** Assigns the same values to both storages. From equal contents every load agrees afterwards, and
      gives the value assigned that many assignments ago. */
  method StoreBoth(cyclic: CyclicVar, flat: FlatVar, vs: seq<int>)
    requires cyclic.Valid() && flat.Valid() && cyclic.addr != flat.addr
    requires cyclic.depth == flat.depth && cyclic.Contents() == flat.Contents()
    modifies cyclic, cyclic.addr, flat.addr
    ensures cyclic.Valid() && flat.Valid()
    ensures cyclic.Contents() == flat.Contents() == Pushes(old(flat.Contents()), vs)
  {
    var i := 0;
    while i < |vs|
      invariant 0 <= i <= |vs| && cyclic.Valid() && flat.Valid()
      invariant cyclic.Contents() == flat.Contents() == Pushes(old(flat.Contents()), vs[..i])
    {
      assert vs[..i + 1][..i] == vs[..i];
      cyclic.Store(vs[i]);
      flat.Store(vs[i]);
      i := i + 1;
    }
    assert vs[..i] == vs;
  }
}
