/** Array-wise history arrays: the O(n) and O(d) stores of rtlib/harray.c and their common load. */
module ArrayHistory {
  import opened History

  /** The change-list index that marks an empty entry. */
  const NONE := 999

  /** A change-list entry. */
  datatype Change = Change(index: int, value: int)

  /** What applying one entry does to a block. */
  function Apply(block: seq<int>, c: Change): (r: seq<int>)
    requires c.index == NONE || 0 <= c.index < |block|
    ensures |r| == |block|
  {
    if c.index == NONE then block else block[c.index := c.value]
  }

  predicate Fits(c: Change, size: nat) {
    c.index == NONE || 0 <= c.index < size
  }

  ghost predicate AllFit(cs: seq<Change>, size: nat) {
    forall k :: 0 <= k < |cs| ==> Fits(cs[k], size)
  }

  /** Applies the entries from the first to the last: newest first, as the change list is ordered. */
  function ReplayNewestFirst(block: seq<int>, cs: seq<Change>): (r: seq<int>)
    requires AllFit(cs, |block|)
    ensures |r| == |block|
  {
    if cs == [] then block else Apply(ReplayNewestFirst(block, cs[..|cs| - 1]), cs[|cs| - 1])
  }

  /** Applies the entries in the order the stores happened. */
  function ReplayOldestFirst(block: seq<int>, cs: seq<Change>): (r: seq<int>)
    requires AllFit(cs, |block|)
    ensures |r| == |block|
  {
    if cs == [] then block else Apply(ReplayOldestFirst(block, cs[1..]), cs[0])
  }

  /** An array-wise history variable by value: the array, its snapshots and its change list, newest first. */
  datatype State = State(current: seq<int>, snapshots: seq<seq<int>>, changes: seq<Change>) {
    /** A snapshot ring, which is all the O(n) store has. */
    ghost predicate Ring() {
      |snapshots| > 0 && forall k :: 0 <= k < |snapshots| ==> |snapshots[k]| == |current|
    }

    ghost predicate Valid() {
      Ring() && |changes| == |snapshots| && AllFit(changes, |current|)
    }
  }

  /** What a store means: the array becomes the newest snapshot, then one element changes. */
  function SnapshotStore(v: State, index: nat, value: int): State
    requires v.Ring() && index < |v.current|
  {
    v.(current := v.current[index := value], snapshots := Push(v.snapshots, v.current))
  }

  /** The O(d) store: the newest snapshot is the oldest one with the change list replayed over it. */
  function ChangeListStore(v: State, index: nat, value: int): State
    requires v.Valid() && index < |v.current|
  {
    State(v.current[index := value],
          Push(v.snapshots, ReplayNewestFirst(v.snapshots[|v.snapshots| - 1], v.changes)),
          Push(v.changes, Change(index, value)))
  }

  // ----- Blocks of the snapshot ring -----

  lemma BlockInside(b: nat, depth: nat, size: nat)
    requires b < depth
    ensures 0 <= b * size && b * size + size <= depth * size
    ensures b > 0 ==> b * size - size == (b - 1) * size >= 0
    ensures b == 0 ==> b * size == 0
    ensures depth * size - size == (depth - 1) * size
  {
    Scaled(b + 1, depth, size);
    Scaled(0, b, size);
    assert (b + 1) * size == b * size + size;
    if b > 0 {
      Scaled(0, b - 1, size);
      assert b * size == (b - 1) * size + size;
    }
    assert depth * size == (depth - 1) * size + size;
  }

  lemma BlocksApart(a: nat, b: nat, size: nat)
    requires a < b
    ensures a * size + size <= b * size
  {
    Scaled(a + 1, b, size);
    assert (a + 1) * size == a * size + size;
  }

  /** The arrays every array-wise history variable has: a ring of `depth` blocks, a pointer to the
      block of the most recent snapshot, and the current array. */
  class ArrayVar {
    const depth: nat
    const size: nat
    const addr: array<int>
    const current: array<int>
    /** The history pointer, as an offset from `addr`. */
    var ptr: int
    /** The block it points at. */
    ghost var block: nat
    /** The change list, pairs of index and value; the O(d) store keeps it. */
    const clist: array<int>
    var clistPtr: int
    ghost var entry: nat

    ghost predicate Valid()
      reads this
    {
      && 1 <= depth && 1 <= size
      && addr.Length == depth * size && current.Length == size && clist.Length == depth * 2
      && addr != current && addr != clist && current != clist
      && block < depth && ptr == block * size
      && entry < depth && clistPtr == entry * 2
    }

    /** Block `b` of the ring. */
    ghost function Block(b: nat): (r: seq<int>)
      requires Valid() && b < depth
      reads this, addr
      ensures |r| == size
    {
      BlockInside(b, depth, size);
      addr[b * size..b * size + size]
    }

    /** The array as it was `k + 1` stores ago, as far as the ring tells. */
    ghost function Snapshots(): (r: seq<seq<int>>)
      requires Valid()
      reads this, addr
      ensures |r| == depth && forall k :: 0 <= k < depth ==> |r[k]| == size
    {
      seq(depth, k requires 0 <= k < depth && Valid() reads this, addr => Block(Slot(block, k, depth)))
    }

    ghost function Entry(e: nat): Change
      requires Valid() && e < depth
      reads this, clist
    {
      Change(clist[e * 2], clist[e * 2 + 1])
    }

    /** The change list, the most recent store first. */
    ghost function Changes(): (r: seq<Change>)
      requires Valid()
      reads this, clist
      ensures |r| == depth
    {
      seq(depth, k requires 0 <= k < depth && Valid() reads this, clist => Entry(Slot(entry, k, depth)))
    }

    ghost function View(): (v: State)
      requires Valid()
      reads this, addr, current, clist
    {
      State(current[..], Snapshots(), Changes())
    }

    /** __hist_daw_init__: both pointers to their bases, every change-list entry empty. */
    constructor (depth: nat, size: nat, addr: array<int>, current: array<int>, clist: array<int>)
      requires 1 <= depth && 1 <= size
      requires addr.Length == depth * size && current.Length == size && clist.Length == depth * 2
      requires addr != current && addr != clist && current != clist
      modifies clist
      ensures Valid() && this.depth == depth && this.size == size
      ensures this.addr == addr && this.current == current && this.clist == clist && ptr == 0
      ensures forall k :: 0 <= k < depth ==> Changes()[k].index == NONE
    {
      this.depth, this.size, this.addr, this.current, this.clist := depth, size, addr, current, clist;
      ptr, block, clistPtr, entry := 0, 0, 0, 0;
      new;
      var i := 0;
      while i < depth * 2
        invariant 0 <= i <= depth * 2 && i % 2 == 0 && Valid() && ptr == 0
        invariant forall e: nat :: e * 2 < i ==> clist[e * 2] == NONE
      {
        clist[i] := NONE;
        i := i + 2;
      }
    }

    /** Points at the block of the oldest snapshot, which the next store overwrites. */
    method Retreat()
      requires Valid()
      modifies this`ptr, this`block
      ensures Valid() && block == Before(old(block), depth)
    {
      BlockInside(block, depth, size);
      ptr := ptr - size;
      if ptr < 0 {
        ptr := (depth - 1) * size;
      }
      block := Before(block, depth);
    }

    /** The snapshots once only the block pointed at has been rewritten. */
    lemma SnapshotsAfter(before: nat, was: seq<seq<int>>)
      requires Valid() && before < depth && block == Before(before, depth) && |was| == depth
      requires forall k: nat :: k < depth && Slot(before, k, depth) != block ==> Block(Slot(before, k, depth)) == was[k]
      ensures Snapshots() == [Block(block)] + was[..depth - 1]
    {
      forall k: nat | k < depth
        ensures Snapshots()[k] == ([Block(block)] + was[..depth - 1])[k]
      {
        SlotMoves(before, k, depth);
        if k > 0 {
          SlotMoves(before, k - 1, depth);
        }
      }
    }

    /** Copies the current array into the block pointed at. */
    method CopyCurrent()
      requires Valid()
      modifies addr
      ensures Block(block) == current[..]
      ensures forall a :: 0 <= a < addr.Length && !(ptr <= a < ptr + size) ==> addr[a] == old(addr[a])
    {
      BlockInside(block, depth, size);
      var i := 0;
      while i < size
        invariant 0 <= i <= size
        invariant forall k :: 0 <= k < i ==> addr[ptr + k] == current[k]
        invariant forall a :: 0 <= a < addr.Length && !(ptr <= a < ptr + size) ==> addr[a] == old(addr[a])
      {
        addr[ptr + i] := current[i];
        i := i + 1;
      }
    }

    /** __hist_naw_store__: the array becomes the newest snapshot, then one element changes. */
    method NawStore(index: nat, value: int)
      requires Valid() && index < size
      modifies this`ptr, this`block, addr, current
      ensures Valid() && View() == SnapshotStore(old(View()), index, value)
    {
      ghost var was, before, snapshots := addr[..], block, Snapshots();
      AllBlocksInside();
      Retreat();
      CopyCurrent();
      OtherBlocks(was, before, snapshots);
      ghost var newest, changes := Snapshots(), Changes();
      current[index] := value;
      assert Snapshots() == newest && Changes() == changes == old(Changes());
    }

    lemma AllBlocksInside()
      requires Valid()
      ensures forall b: nat :: b < depth ==> b * size + size <= addr.Length
    {
      forall b: nat | b < depth
        ensures b * size + size <= addr.Length
      {
        BlockInside(b, depth, size);
      }
    }

    /** Writing inside the block pointed at leaves every other snapshot. */
    lemma OtherBlocks(was: seq<int>, before: nat, snapshots: seq<seq<int>>)
      requires Valid() && before < depth && block == Before(before, depth)
      requires |was| == addr.Length && |snapshots| == depth
      requires forall b: nat :: b < depth ==> b * size + size <= |was|
      requires forall k: nat :: k < depth ==>
        snapshots[k] == was[Slot(before, k, depth) * size..Slot(before, k, depth) * size + size]
      requires forall a :: 0 <= a < addr.Length && !(ptr <= a < ptr + size) ==> addr[a] == was[a]
      ensures Snapshots() == [Block(block)] + snapshots[..depth - 1]
    {
      forall k: nat | k < depth && Slot(before, k, depth) != block
        ensures Block(Slot(before, k, depth)) == snapshots[k]
      {
        var b := Slot(before, k, depth);
        BlockInside(b, depth, size);
        if b < block {
          BlocksApart(b, block, size);
        } else {
          BlocksApart(block, b, size);
        }
      }
      SnapshotsAfter(before, snapshots);
    }

    /** One iteration of the replay: applies the entry pointed at and moves the pointer on. */
    method ApplyChange()
      requires Valid() && Fits(Entry(entry), size)
      modifies this`clistPtr, this`entry, addr
      ensures Valid() && entry == Slot(old(entry), if depth == 1 then 0 else 1, depth)
      ensures Block(block) == Apply(old(Block(block)), old(Entry(entry)))
      ensures forall a :: 0 <= a < addr.Length && !(ptr <= a < ptr + size) ==> addr[a] == old(addr[a])
    {
      BlockInside(block, depth, size);
      if clist[clistPtr] != NONE {
        addr[ptr + clist[clistPtr]] := clist[clistPtr + 1];
      }
      assert Block(block) == Apply(old(Block(block)), old(Entry(entry)));
      clistPtr := clistPtr + 2;
      entry := entry + 1;
      if clistPtr >= depth * 2 {
        clistPtr := 0;
        entry := 0;
      }
    }

    /** The loop over the change list; the pointer comes back to where it was. */
    method Replay()
      requires Valid() && AllFit(Changes(), size)
      modifies this`clistPtr, this`entry, addr
      ensures Valid() && entry == old(entry) && Changes() == old(Changes())
      ensures Block(block) == ReplayNewestFirst(old(Block(block)), old(Changes()))
      ensures forall a :: 0 <= a < addr.Length && !(ptr <= a < ptr + size) ==> addr[a] == old(addr[a])
    {
      ghost var cs, e := Changes(), entry;
      var i := 0;
      while i < depth
        invariant 0 <= i <= depth && Valid()
        invariant entry == if i < depth then Slot(e, i, depth) else e
        invariant AllFit(cs[..i], size)
        invariant Block(block) == ReplayNewestFirst(old(Block(block)), cs[..i])
        invariant forall a :: 0 <= a < addr.Length && !(ptr <= a < ptr + size) ==> addr[a] == old(addr[a])
      {
        assert cs[i] == Entry(entry);
        assert cs[..i + 1][..i] == cs[..i];
        ApplyChange();
        i := i + 1;
      }
      assert cs[..i] == cs;
      assert Changes() == cs;
    }

    /** Writes the newest change-list entry over the oldest. */
    method Record(index: int, value: int)
      requires Valid() && AllFit(Changes(), size) && Fits(Change(index, value), size)
      modifies this`clistPtr, this`entry, clist
      ensures Valid() && AllFit(Changes(), size)
      ensures Changes() == Push(old(Changes()), Change(index, value))
      ensures Snapshots() == old(Snapshots())
    {
      clistPtr := clistPtr - 2;
      if clistPtr < 0 {
        clistPtr := depth * 2 - 2;
      }
      entry := Before(entry, depth);
      clist[clistPtr] := index;
      clist[clistPtr + 1] := value;
      ChangesAfter(old(entry), old(Changes()), Change(index, value));
    }

    /** The change list once only the entry pointed at has been rewritten. */
    lemma ChangesAfter(before: nat, was: seq<Change>, c: Change)
      requires Valid() && before < depth && entry == Before(before, depth) && |was| == depth
      requires Entry(entry) == c
      requires forall k: nat :: k < depth && Slot(before, k, depth) != entry ==> Entry(Slot(before, k, depth)) == was[k]
      ensures Changes() == Push(was, c)
    {
      forall k: nat | k < depth
        ensures Changes()[k] == Push(was, c)[k]
      {
        SlotMoves(before, k, depth);
        if k > 0 {
          SlotMoves(before, k - 1, depth);
        }
      }
    }

    /** __hist_daw_store__: brings the oldest block up to date from the change list instead of copying. */
    method DawStore(index: nat, value: int)
      requires Valid() && index < size && AllFit(Changes(), size)
      modifies this, addr, current, clist
      ensures Valid() && View() == ChangeListStore(old(View()), index, value)
    {
      Refresh();
      Record(index, value);
      ghost var snapshots, changes := Snapshots(), Changes();
      current[index] := value;
      assert Snapshots() == snapshots && Changes() == changes;
    }

    /** Turns the oldest snapshot into the newest by replaying the change list over it. */
    method Refresh()
      requires Valid() && AllFit(Changes(), size)
      modifies this`ptr, this`block, this`clistPtr, this`entry, addr
      ensures Valid() && Changes() == old(Changes())
      ensures Snapshots() ==
        Push(old(Snapshots()), ReplayNewestFirst(old(Snapshots())[depth - 1], old(Changes())))
    {
      ghost var was, before, snapshots, changes := addr[..], block, Snapshots(), Changes();
      AllBlocksInside();
      Retreat();
      SlotMoves(before, depth - 1, depth);
      assert Block(block) == snapshots[depth - 1];
      assert Changes() == changes;
      Replay();
      OtherBlocks(was, before, snapshots);
    }

    /** __hist_aw_load__: the address of the block for a history, as an offset, or the current array. */
    method AwLoad(history: nat) returns (isCurrent: bool, p: int)
      requires Valid() && history <= depth
      ensures isCurrent <==> history == 0
      ensures history > 0 ==> 0 <= p && p + size <= addr.Length && p == Slot(block, history - 1, depth) * size
      ensures history > 0 ==> addr[p..p + size] == Snapshots()[history - 1]
    {
      if history == 0 {
        return true, 0;
      }
      p := ptr + ((history - 1) * size);
      ghost var b := Slot(block, history - 1, depth);
      assert p == (block + (history - 1)) * size;
      if p >= size * depth {
        p := p - (size * depth);
      }
      LoadAddress(block, history - 1, depth, size);
      BlockInside(b, depth, size);
      assert p == b * size;
      return false, p;
    }
  }

  lemma LoadAddress(block: nat, k: nat, depth: nat, size: nat)
    requires block < depth && k < depth && 1 <= size
    ensures Slot(block, k, depth) * size ==
      (if (block + k) * size >= size * depth then (block + k) * size - size * depth else (block + k) * size)
  {
    if block + k < depth {
      Scaled(block + k + 1, depth, size);
      assert (block + k + 1) * size == (block + k) * size + size;
    } else {
      Scaled(0, block + k - depth, size);
      assert (block + k - depth) * size == (block + k) * size - depth * size;
    }
  }
}
