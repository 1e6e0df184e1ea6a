/** Index-wise history arrays: __hist_iw_init__ and __hist_iw_store__ of rtlib/harray.c. */
module IndexHistory {
  import opened History

  /** The first word of the ring of index `i`. The stride is the number of elements, not the depth. */
  function Base(i: nat, size: nat): (b: nat)
  {
    NonNegative(size, i);
    size * i
  }

  lemma NonNegative(a: nat, b: nat)
    ensures a * b >= 0
  {
    Scaled(0, a, b);
  }

  lemma BaseMonotone(i: nat, j: nat, size: nat)
    requires i < j
    ensures Base(i, size) + size <= Base(j, size)
  {
    Scaled(i + 1, j, size);
    assert (i + 1) * size == i * size + size;
  }

  lemma BaseAbove(i: nat, size: nat)
    requires i < size
    ensures i <= Base(i, size)
  {
    if i > 0 {
      Scaled(1, size, i);
    }
  }

  // ----- The rings in memory -----

  /** The ring of index `i` is words Base(i)..Base(i) + depth. */
  ghost predicate RingsDisjoint(size: nat, depth: nat) {
    forall i: nat, j: nat :: i < j < size ==> Base(i, size) + depth <= Base(j, size)
  }

  /** The declaration reserves depth * size words. */
  ghost predicate RingsInside(size: nat, depth: nat) {
    forall i: nat :: i < size ==> Base(i, size) + depth <= depth * size
  }

  lemma DisjointRings(size: nat, depth: nat)
    requires size > 1
    ensures RingsDisjoint(size, depth) <==> depth <= size
  {
    if RingsDisjoint(size, depth) {
      assert Base(0, size) + depth <= Base(1, size);
    }
    if depth <= size {
      forall i: nat, j: nat | i < j < size
        ensures Base(i, size) + depth <= Base(j, size)
      {
        BaseMonotone(i, j, size);
      }
    }
  }

  lemma RingInside(i: nat, size: nat, depth: nat)
    requires i < size <= depth
    ensures Base(i, size) + depth <= depth * size
  {
    Scaled(size, depth, i);
    Scaled(i + 1, size, depth);
    assert (i + 1) * depth == i * depth + depth;
  }

  lemma LastRingOutside(size: nat, depth: nat)
    requires depth < size && size > 1
    ensures Base(size - 1, size) + depth > depth * size
  {
    var last := size - 1;
    Scaled(depth + 1, size, last);
    assert (depth + 1) * last == depth * last + last;
    assert depth * size == depth * last + depth;
  }

  /** With more than one element the rings are disjoint and inside the reserved words exactly when
      the depth equals the number of elements. */
  lemma RingsFit(size: nat, depth: nat)
    requires size > 1
    ensures RingsDisjoint(size, depth) <==> depth <= size
    ensures RingsInside(size, depth) <==> depth >= size
    ensures RingsDisjoint(size, depth) && RingsInside(size, depth) <==> depth == size
  {
    DisjointRings(size, depth);
    if depth < size {
      LastRingOutside(size, depth);
    } else {
      forall i: nat | i < size
        ensures Base(i, size) + depth <= depth * size
      {
        RingInside(i, size, depth);
      }
    }
  }

  /** The entries of a ring, the newest first. */
  function RingOf(words: seq<int>, base: nat, newest: nat, depth: nat): (r: seq<int>)
    requires newest < depth && base + depth <= |words|
    ensures |r| == depth && forall k :: 0 <= k < depth ==> r[k] == words[base + Slot(newest, k, depth)]
  {
    seq(depth, k requires 0 <= k < depth => words[base + Slot(newest, k, depth)])
  }

  lemma RingPush(words: seq<int>, base: nat, newest: nat, depth: nat, v: int)
    requires newest < depth && base + depth <= |words|
    ensures RingOf(words[base + Before(newest, depth) := v], base, Before(newest, depth), depth)
      == Push(RingOf(words, base, newest, depth), v)
  {
    var after := words[base + Before(newest, depth) := v];
    forall k: nat | k < depth
      ensures after[base + Slot(Before(newest, depth), k, depth)]
        == if k == 0 then v else words[base + Slot(newest, k - 1, depth)]
    {
      SlotMoves(newest, if k > 0 then k - 1 else 0, depth);
    }
    hide Slot, Before;
  }

  /** Pushing a value moves the one in front into the ring. */
  lemma PushBehind(front: int, ring: seq<int>, v: int)
    requires |ring| > 0
    ensures Push([front] + ring, v) == [v] + Push(ring, front)
  {
  }

  lemma RingKept(before: seq<int>, after: seq<int>, base: nat, newest: nat, depth: nat)
    requires newest < depth && base + depth <= |before| == |after|
    requires forall a :: base <= a < base + depth ==> after[a] == before[a]
    ensures RingOf(after, base, newest, depth) == RingOf(before, base, newest, depth)
  {
  }

  // ----- The arrays -----

  class IndexVar {
    const depth: nat
    const size: nat
    const addr: array<int>
    /** One history pointer per index, as an offset from `addr`. */
    const ptr: array<int>
    const current: array<int>

    ghost predicate Shape() {
      && 1 <= depth && 1 <= size && ptr.Length == size && current.Length == size
      && ptr != current && ptr != addr && current != addr
      && forall i: nat :: i < size ==> Base(i, size) + depth <= addr.Length
    }

    ghost predicate InRing(i: nat)
      requires Shape() && i < size
      reads ptr
    {
      Base(i, size) <= ptr[i] < Base(i, size) + depth
    }

    /** Every pointer is in its ring or still where the initialisation put it. */
    ghost predicate Valid()
      reads ptr
    {
      Shape() && forall i: nat :: i < size ==> InRing(i) || ptr[i] == i
    }

    /** The slot of the newest entry of index `i`; a pointer not yet in its ring counts as its base. */
    ghost function Newest(i: nat): (k: nat)
      requires Valid() && i < size
      reads ptr
      ensures k < depth
    {
      if InRing(i) then ptr[i] - Base(i, size) else 0
    }

    /** The current value of element `i` followed by its past ones, the most recent first. */
    ghost function Element(i: nat): (h: seq<int>)
      requires Valid() && i < size
      reads ptr, addr, current
      ensures |h| == depth + 1
    {
      [current[i]] + RingOf(addr[..], Base(i, size), Newest(i), depth)
    }

    /** __hist_iw_init__: pointer `i` starts at word `i`. */
    constructor (depth: nat, size: nat, addr: array<int>, ptr: array<int>, current: array<int>)
      requires 1 <= depth && 1 <= size && ptr.Length == size && current.Length == size
      requires ptr != current && ptr != addr && current != addr
      requires forall i: nat :: i < size ==> Base(i, size) + depth <= addr.Length
      modifies ptr
      ensures Valid() && this.depth == depth && this.size == size
      ensures this.addr == addr && this.ptr == ptr && this.current == current
      ensures forall i: nat :: i < size ==> ptr[i] == i
    {
      this.depth, this.size, this.addr, this.ptr, this.current := depth, size, addr, ptr, current;
      new;
      var i := 0;
      while i < size
        invariant 0 <= i <= size
        invariant forall k: nat :: k < i ==> ptr[k] == k
      {
        ptr[i] := i;
        i := i + 1;
      }
    }

    /** __hist_iw_store__: pushes onto the ring of `index`, which its pointer has then entered, and with
        depth <= size leaves the history of every other element alone. */
    method Store(index: nat, value: int)
      requires Valid() && index < size
      modifies ptr, addr, current
      ensures Valid() && InRing(index)
      ensures Element(index) == Push(old(Element(index)), value)
      ensures depth <= size ==> forall j: nat :: j < size && j != index ==> Element(j) == old(Element(j))
      ensures forall j: nat :: j < size && j != index ==> ptr[j] == old(ptr[j])
      ensures forall a :: 0 <= a < addr.Length && !(Base(index, size) <= a < Base(index, size) + depth) ==>
        addr[a] == old(addr[a])
    {
      ghost var newest, words := Newest(index), addr[..];
      PushBehind(current[index], RingOf(words, Base(index, size), newest, depth), value);
      hide RingOf, Base, Push;
      Move(index);
      addr[ptr[index]] := current[index];
      assert addr[..] == words[Base(index, size) + Before(newest, depth) := current[index]];
      RingPush(words, Base(index, size), newest, depth, current[index]);
      current[index] := value;
      if depth <= size {
        forall j: nat | j < size && j != index
          ensures Element(j) == old(Element(j))
        {
          if j < index {
            BaseMonotone(j, index, size);
          } else {
            BaseMonotone(index, j, size);
          }
          RingKept(words, addr[..], Base(j, size), Newest(j), depth);
        }
      }
    }

    /** Moves the pointer of `index` to the slot of its oldest entry. */
    method Move(index: nat)
      requires Valid() && index < size
      modifies ptr
      ensures Valid() && InRing(index) && Newest(index) == Before(old(Newest(index)), depth)
      ensures forall j: nat :: j < size && j != index ==> ptr[j] == old(ptr[j])
    {
      BaseAbove(index, size);
      var base := Base(index, size);
      ptr[index] := ptr[index] - 1;
      if ptr[index] < base {
        ptr[index] := base + (depth - 1);
      }
    }
  }

  /** The slot that is `w` in a ring, by its distance from the newest. */
  function Distance(newest: nat, w: nat, depth: nat): (k: nat)
    requires newest < depth && w < depth
    ensures k < depth && Slot(newest, k, depth) == w
  {
    if w >= newest then w - newest else w + depth - newest
  }

  lemma OnlyOne(h: seq<int>, v: int, vs: seq<int>)
    requires |h| > 0 && forall k :: 0 <= k < |vs| ==> vs[k] == v
    ensures forall k :: 0 <= k < |h| && k < |vs| ==> Pushes(h, vs)[k] == v
  {
    forall k: nat | k < |h| && k < |vs|
      ensures Pushes(h, vs)[k] == v
    {
      PushesAt(h, vs, k);
    }
  }

  lemma OneMore(h: seq<int>, v: int, n: nat)
    requires |h| > 0
    ensures Pushes(h, seq(n + 1, _ => v)) == Push(Pushes(h, seq(n, _ => v)), v)
  {
    var vs := seq(n + 1, _ => v);
    assert vs[..n] == seq(n, _ => v);
  }

  /** A ring all of whose words hold `w`, below a ring that starts inside it. */
  lemma OtherRingChanged(before: seq<int>, after: seq<int>, size: nat, depth: nat, first: nat, second: nat, w: int)
    requires 1 < size < depth && Base(0, size) == 0 && Base(1, size) == size && size + depth <= |before| == |after|
    requires first < depth && second < depth && before[size] != w
    requires forall k :: 0 <= k < depth ==> RingOf(after, 0, first, depth)[k] == w
    ensures RingOf(after, size, second, depth) != RingOf(before, size, second, depth)
  {
    var k := Distance(first, size, depth);
    assert RingOf(after, 0, first, depth)[k] == after[size];
    var j := Distance(second, 0, depth);
    assert RingOf(after, size, second, depth)[j] == after[size];
    assert RingOf(before, size, second, depth)[j] == before[size];
  }

  /** With depth > size > 1, stores to one element change the history of another: enough of them overwrite
      the whole ring, and with it the start of the next one. */
  method Overrun(v: IndexVar)
    requires v.Valid() && 1 < v.size < v.depth
    modifies v.ptr, v.addr, v.current
    ensures v.Valid() && v.Element(1) != old(v.Element(1))
  {
    FirstBases(v.size);
    var w := v.addr[v.size] + 1;
    ghost var before, h, second := v.addr[..], v.Element(0), v.Newest(1);
    var i := 0;
    while i < v.depth + 1
      invariant 0 <= i <= v.depth + 1 && v.Valid() && (i > 0 ==> v.InRing(0))
      invariant v.Element(0) == Pushes(h, seq(i, _ => w))
      invariant v.ptr[1] == old(v.ptr[1])
    {
      OneMore(h, w, i);
      v.Store(0, w);
      i := i + 1;
    }
    OnlyOne(h, w, seq(v.depth + 1, _ => w));
    ghost var first := v.Newest(0);
    forall k | 0 <= k < v.depth
      ensures RingOf(v.addr[..], 0, first, v.depth)[k] == w
    {
      assert v.Element(0)[k + 1] == w;
    }
    OtherRingChanged(before, v.addr[..], v.size, v.depth, first, second, w);
    assert v.Element(1)[1..] == RingOf(v.addr[..], v.size, second, v.depth);
    assert old(v.Element(1))[1..] == RingOf(before, v.size, second, v.depth);
  }

  lemma FirstBases(size: nat)
    ensures Base(0, size) == 0 && Base(1, size) == size
  {
  }
}
