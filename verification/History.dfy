/** What a history variable is: the list of the values it has had (README.md:93-118). */
module History {

  /** `h[k]` is the value of `k` assignments ago; an assignment drops the oldest. */
  function Push<T>(h: seq<T>, v: T): (r: seq<T>)
    requires |h| > 0
    ensures |r| == |h|
  {
    [v] + h[..|h| - 1]
  }

  /** The list after the assignments `vs`, the last one last. */
  function Pushes<T>(h: seq<T>, vs: seq<T>): (r: seq<T>)
    requires |h| > 0
    ensures |r| == |h|
  {
    if vs == [] then h else Push(Pushes(h, vs[..|vs| - 1]), vs[|vs| - 1])
  }

  /** Entry `k` is the value assigned `k` assignments ago, or an initial entry that has moved up. */
  lemma {:induction false} PushesAt<T>(h: seq<T>, vs: seq<T>, k: nat)
    requires k < |h|
    ensures Pushes(h, vs)[k] == if k < |vs| then vs[|vs| - 1 - k] else h[k - |vs|]
  {
    if vs != [] && k > 0 {
      PushesAt(h, vs[..|vs| - 1], k - 1);
    }
  }

  // ----- Cyclic buffers -----

  /** The slot `k` places after `p` in a ring of `n`. */
  function Slot(p: nat, k: nat, n: nat): (s: nat)
    requires p < n && k < n
    ensures s < n
  {
    if p + k < n then p + k else p + k - n
  }

  /** The slot before `p`. */
  function Before(p: nat, n: nat): (q: nat)
    requires p < n
    ensures q < n
  {
    if p == 0 then n - 1 else p - 1
  }

  lemma SlotMoves(p: nat, k: nat, n: nat)
    requires p < n && k < n
    ensures Slot(Before(p, n), 0, n) == Before(p, n)
    ensures k + 1 < n ==> Slot(Before(p, n), k + 1, n) == Slot(p, k, n) != Before(p, n)
    ensures Slot(p, n - 1, n) == Before(p, n)
  {
  }

  // ----- Multiples -----

  /** Multiples keep their order. */
  lemma {:induction false} Scaled(a: nat, b: nat, k: nat)
    requires a <= b
    ensures 0 <= a * k <= b * k
    decreases b
  {
    if a < b {
      Scaled(a, b - 1, k);
      assert b * k == (b - 1) * k + k;
    } else if a > 0 {
      Scaled(a - 1, a - 1, k);
      assert a * k == (a - 1) * k + k;
    }
  }
}
