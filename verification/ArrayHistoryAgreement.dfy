/** When the O(d) store keeps the same history as the O(n) store. */
module ArrayHistoryAgreement {
  import opened Wrappers
  import opened History
  import opened ArrayHistory

  datatype Assignment = Assignment(index: nat, value: int)

  // ----- What a replay leaves at one index -----

  /** The value of the first entry for index `j`: the most recent one, as the list is ordered. */
  function Newest(cs: seq<Change>, j: int): Option<int> {
    if cs == [] then None
    else if cs[0].index == j then Some(cs[0].value)
    else Newest(cs[1..], j)
  }

  /** The value of the last entry for index `j`. */
  function Oldest(cs: seq<Change>, j: int): Option<int> {
    if cs == [] then None
    else if cs[|cs| - 1].index == j then Some(cs[|cs| - 1].value)
    else Oldest(cs[..|cs| - 1], j)
  }

  lemma {:induction false} NewestIs(cs: seq<Change>, j: int)
    ensures Newest(cs, j).None? ==> forall k :: 0 <= k < |cs| ==> cs[k].index != j
    ensures Newest(cs, j).Some? ==> exists k :: 0 <= k < |cs| && cs[k] == Change(j, Newest(cs, j).value)
  {
    if cs != [] && cs[0].index != j {
      NewestIs(cs[1..], j);
      if Newest(cs, j).None? {
        assert forall k :: 0 < k < |cs| ==> cs[k] == cs[1..][k - 1];
      }
    } else if cs != [] {
      assert cs[0] == Change(j, Newest(cs, j).value);
    }
  }

  lemma {:induction false} OldestIs(cs: seq<Change>, j: int)
    ensures Oldest(cs, j).None? ==> forall k :: 0 <= k < |cs| ==> cs[k].index != j
    ensures Oldest(cs, j).Some? ==> exists k :: 0 <= k < |cs| && cs[k] == Change(j, Oldest(cs, j).value)
  {
    if cs != [] && cs[|cs| - 1].index != j {
      OldestIs(cs[..|cs| - 1], j);
    } else if cs != [] {
      assert cs[|cs| - 1] == Change(j, Oldest(cs, j).value);
    }
  }

  /** An index has a newest entry exactly when it has an oldest one. */
  lemma BothEnds(cs: seq<Change>, j: int)
    ensures Newest(cs, j).None? <==> Oldest(cs, j).None?
  {
    NewestIs(cs, j);
    OldestIs(cs, j);
    hide Newest, Oldest;
  }

  function OrElse(value: Option<int>, otherwise: int): int {
    if value.Some? then value.value else otherwise
  }

  /** Replaying oldest first leaves the newest value stored at each index. */
  lemma {:induction false} OldestFirstAt(block: seq<int>, cs: seq<Change>, j: nat)
    requires AllFit(cs, |block|) && j < |block| && j != NONE
    ensures ReplayOldestFirst(block, cs)[j] == OrElse(Newest(cs, j), block[j])
  {
    if cs != [] {
      OldestFirstAt(block, cs[1..], j);
    }
  }

  /** Replaying newest first leaves the oldest value stored at each index. */
  lemma {:induction false} NewestFirstAt(block: seq<int>, cs: seq<Change>, j: nat)
    requires AllFit(cs, |block|) && j < |block| && j != NONE
    ensures ReplayNewestFirst(block, cs)[j] == OrElse(Oldest(cs, j), block[j])
  {
    if cs != [] {
      NewestFirstAt(block, cs[..|cs| - 1], j);
    }
  }

  lemma {:induction false} NoneUntouched(block: seq<int>, cs: seq<Change>)
    requires AllFit(cs, |block|) && NONE < |block|
    ensures ReplayNewestFirst(block, cs)[NONE] == ReplayOldestFirst(block, cs)[NONE] == block[NONE]
    decreases |cs|
  {
    if cs != [] {
      NoneUntouched(block, cs[1..]);
      NoneUntouched(block, cs[..|cs| - 1]);
    }
  }

  /** Every index in the window has the same newest and oldest value there. */
  ghost predicate EndsAgree(cs: seq<Change>, size: nat) {
    forall j: nat :: j < size && j != NONE ==> Newest(cs, j) == Oldest(cs, j)
  }

  /** The two replay orders give the same block exactly when the ends of the window agree. */
  lemma ReplaysAgree(block: seq<int>, cs: seq<Change>)
    requires AllFit(cs, |block|)
    ensures ReplayNewestFirst(block, cs) == ReplayOldestFirst(block, cs) <==> EndsAgree(cs, |block|)
  {
    var a, b := ReplayNewestFirst(block, cs), ReplayOldestFirst(block, cs);
    forall j: nat | j < |block|
      ensures if j == NONE then a[j] == b[j] else a[j] == b[j] <==> Newest(cs, j) == Oldest(cs, j)
    {
      if j == NONE {
        NoneUntouched(block, cs);
      } else {
        ValuesAgree(block, cs, j);
      }
    }
    hide ReplayNewestFirst, ReplayOldestFirst, Newest, Oldest;
    assert a == b <==> forall j: nat :: j < |block| ==> a[j] == b[j];
  }

  lemma ValuesAgree(block: seq<int>, cs: seq<Change>, j: nat)
    requires AllFit(cs, |block|) && j < |block| && j != NONE
    ensures ReplayNewestFirst(block, cs)[j] == ReplayOldestFirst(block, cs)[j] <==> Newest(cs, j) == Oldest(cs, j)
  {
    NewestFirstAt(block, cs, j);
    OldestFirstAt(block, cs, j);
    BothEnds(cs, j);
    hide Newest, Oldest, ReplayNewestFirst, ReplayOldestFirst;
  }

  /** No index occurs twice in the window with different values. */
  ghost predicate NoConflict(cs: seq<Change>) {
    forall a, b :: 0 <= a < |cs| && 0 <= b < |cs| && cs[a].index == cs[b].index && cs[a].index != NONE ==>
      cs[a].value == cs[b].value
  }

  lemma NoConflictSuffices(cs: seq<Change>, size: nat)
    requires NoConflict(cs)
    ensures EndsAgree(cs, size)
  {
    hide Newest, Oldest;
    forall j: nat | j < size && j != NONE
      ensures Newest(cs, j) == Oldest(cs, j)
    {
      NewestIs(cs, j);
      OldestIs(cs, j);
    }
  }

  // ----- The change list against the snapshots -----

  /** The array as it was `k` stores ago. */
  function Past(v: State, k: nat): seq<int>
    requires v.Ring() && k <= |v.snapshots|
  {
    if k == 0 then v.current else v.snapshots[k - 1]
  }

  /** Each change-list entry takes one snapshot to the next newer one. */
  ghost predicate Chained(v: State) {
    && v.Valid()
    && forall k: nat :: k < |v.snapshots| ==> Past(v, k) == Apply(v.snapshots[k], v.changes[k])
  }

  lemma {:induction false} ChainReplays(v: State, k: nat)
    requires Chained(v) && k <= |v.snapshots|
    ensures ReplayOldestFirst(v.snapshots[|v.snapshots| - 1], v.changes[k..]) == Past(v, k)
    decreases |v.snapshots| - k
  {
    if k < |v.snapshots| {
      ChainReplays(v, k + 1);
      assert v.changes[k..][1..] == v.changes[k + 1..];
    }
  }

  /** Replayed oldest first, the change list always rebuilds the current array from the oldest snapshot. */
  lemma OldestFirstRebuilds(v: State)
    requires Chained(v)
    ensures ReplayOldestFirst(v.snapshots[|v.snapshots| - 1], v.changes) == v.current
  {
    ChainReplays(v, 0);
    assert v.changes[0..] == v.changes;
  }

  /** The O(d) store with the replay in store order. */
  function OrderedStore(v: State, index: nat, value: int): State
    requires v.Valid() && index < |v.current|
  {
    State(v.current[index := value],
          Push(v.snapshots, ReplayOldestFirst(v.snapshots[|v.snapshots| - 1], v.changes)),
          Push(v.changes, Change(index, value)))
  }

  /** A store that records its change keeps the list chained to the snapshots. */
  lemma StoreKeepsChain(v: State, index: nat, value: int)
    requires Chained(v) && index < |v.current| && index != NONE
    ensures Chained(SnapshotStore(v, index, value).(changes := Push(v.changes, Change(index, value))))
  {
    PushFits(v.changes, Change(index, value), |v.current|);
    var w := SnapshotStore(v, index, value).(changes := Push(v.changes, Change(index, value)));
    assert w.snapshots[0] == v.current && w.changes[0] == Change(index, value);
    forall k: nat | 0 < k < |w.snapshots|
      ensures Past(w, k) == Apply(w.snapshots[k], w.changes[k])
    {
      assert Past(v, k - 1) == Apply(v.snapshots[k - 1], v.changes[k - 1]);
      hide AllFit, Fits, Apply, Past;
      PushedBehind(v.snapshots, v.current, k);
      PushedBehind(v.changes, Change(index, value), k);
      PastMoves(v, w, k);
    }
    hide AllFit, Fits, Push;
  }

  lemma PushedBehind<T>(h: seq<T>, a: T, k: nat)
    requires 0 < k < |h|
    ensures Push(h, a)[k] == h[k - 1]
  {
  }

  lemma PastMoves(v: State, w: State, k: nat)
    requires v.Ring() && w.Ring() && 0 < k <= |v.snapshots| && w.snapshots == Push(v.snapshots, v.current)
    ensures Past(w, k) == Past(v, k - 1)
  {
  }

  /** Replaying in store order, one store agrees with the O(n) store and keeps the chain. */
  lemma OrderedStoreAgrees(v: State, index: nat, value: int)
    requires Chained(v) && index < |v.current| && index != NONE
    ensures OrderedStore(v, index, value) ==
      SnapshotStore(v, index, value).(changes := Push(v.changes, Change(index, value)))
    ensures Chained(OrderedStore(v, index, value))
  {
    OldestFirstRebuilds(v);
    StoreKeepsChain(v, index, value);
  }

  /** One O(d) store agrees with the O(n) store exactly when the ends of its window agree. */
  lemma ChangeListStoreAgrees(v: State, index: nat, value: int)
    requires Chained(v) && index < |v.current|
    ensures ChangeListStore(v, index, value).snapshots == SnapshotStore(v, index, value).snapshots
      <==> EndsAgree(v.changes, |v.current|)
  {
    var oldest := v.snapshots[|v.snapshots| - 1];
    OldestFirstRebuilds(v);
    ReplaysAgree(oldest, v.changes);
    assert ChangeListStore(v, index, value).snapshots[0] == ReplayNewestFirst(oldest, v.changes);
    assert SnapshotStore(v, index, value).snapshots[0] == v.current;
  }

  // ----- Whole runs -----

  ghost predicate InRange(stores: seq<Assignment>, size: nat) {
    forall i :: 0 <= i < |stores| ==> stores[i].index < size
  }

  /** A variable as __hist_daw_init__ leaves it: the change list is empty, the blocks hold anything. */
  ghost predicate Initial(v: State) {
    v.Valid() && forall k :: 0 <= k < |v.changes| ==> v.changes[k].index == NONE
  }

  /** The last stores as the change list records them, the most recent first. */
  function Window(initial: seq<Change>, stores: seq<Assignment>): (r: seq<Change>)
    requires |initial| > 0
    ensures |r| == |initial|
  {
    if stores == [] then initial
    else
      var s := stores[|stores| - 1];
      Push(Window(initial, stores[..|stores| - 1]), Change(s.index, s.value))
  }

  ghost function SnapshotRun(v: State, stores: seq<Assignment>): (w: State)
    requires v.Ring() && InRange(stores, |v.current|)
    ensures w.Ring() && |w.current| == |v.current| && |w.snapshots| == |v.snapshots|
  {
    if stores == [] then v
    else
      var s := stores[|stores| - 1];
      SnapshotStore(SnapshotRun(v, stores[..|stores| - 1]), s.index, s.value)
  }

  ghost function ChangeListRun(v: State, stores: seq<Assignment>): (w: State)
    requires v.Valid() && InRange(stores, |v.current|)
    ensures w.Valid() && |w.current| == |v.current| && |w.snapshots| == |v.snapshots|
    ensures w.changes == Window(v.changes, stores)
  {
    if stores == [] then v
    else
      var s := stores[|stores| - 1];
      var u := ChangeListRun(v, stores[..|stores| - 1]);
      PushFits(u.changes, Change(s.index, s.value), |v.current|);
      ChangeListStore(u, s.index, s.value)
  }

  ghost function OrderedRun(v: State, stores: seq<Assignment>): (w: State)
    requires v.Valid() && InRange(stores, |v.current|)
    ensures w.Valid() && |w.current| == |v.current| && |w.snapshots| == |v.snapshots|
    ensures w.changes == Window(v.changes, stores)
  {
    if stores == [] then v
    else
      var s := stores[|stores| - 1];
      var u := OrderedRun(v, stores[..|stores| - 1]);
      PushFits(u.changes, Change(s.index, s.value), |v.current|);
      OrderedStore(u, s.index, s.value)
  }

  lemma PushFits(cs: seq<Change>, c: Change, size: nat)
    requires |cs| > 0 && AllFit(cs, size) && Fits(c, size)
    ensures AllFit(Push(cs, c), size)
  {
  }

  ghost predicate SameHistory(a: State, b: State) {
    a.current == b.current && a.snapshots == b.snapshots
  }

  /** The snapshot ring is the list of the arrays the variable has been, and behind those what it held. */
  lemma {:induction false} SnapshotRunIsHistory(v: State, stores: seq<Assignment>, k: nat)
    requires v.Ring() && InRange(stores, |v.current|) && k <= |v.snapshots|
    ensures Past(SnapshotRun(v, stores), k) ==
      if k <= |stores| then SnapshotRun(v, stores[..|stores| - k]).current else v.snapshots[k - 1 - |stores|]
  {
    if k == 0 {
      assert stores[..|stores|] == stores;
    } else if stores != [] {
      hide Past, SnapshotRun;
      var before := stores[..|stores| - 1];
      SnapshotRunIsHistory(v, before, k - 1);
      RunMovesPast(v, stores, k);
      assert k <= |stores| ==> before[..|before| - (k - 1)] == stores[..|stores| - k];
    }
  }

  lemma RunMovesPast(v: State, stores: seq<Assignment>, k: nat)
    requires v.Ring() && InRange(stores, |v.current|) && 0 < k <= |v.snapshots| && stores != []
    ensures Past(SnapshotRun(v, stores), k) == Past(SnapshotRun(v, stores[..|stores| - 1]), k - 1)
  {
    PastMoves(SnapshotRun(v, stores[..|stores| - 1]), SnapshotRun(v, stores), k);
    hide Past;
  }

  // ----- What the window says about the current array -----

  /** `j` was stored by one of `stores`. */
  ghost predicate Stored(stores: seq<Assignment>, j: nat) {
    exists i :: 0 <= i < |stores| && stores[i].index == j
  }

  /** The arrays differ at most at the index that looks like an empty entry. */
  ghost predicate SameButNone(a: seq<int>, b: seq<int>) {
    |a| == |b| && forall j: nat :: j < |a| && j != NONE ==> a[j] == b[j]
  }

  /** Replaying the last `k` stores in order over the array from before them gives the current array. */
  lemma {:induction false} RecentStores(v: State, stores: seq<Assignment>, k: nat)
    requires Initial(v) && InRange(stores, |v.current|) && k <= |stores| && k <= |v.changes|
    ensures var w := Window(v.changes, stores);
      && AllFit(w[..k], |v.current|)
      && SameButNone(ReplayOldestFirst(SnapshotRun(v, stores[..|stores| - k]).current, w[..k]),
                     SnapshotRun(v, stores).current)
    decreases k
  {
    if k == 0 {
      assert stores[..|stores|] == stores;
    } else {
      var before := stores[..|stores| - 1];
      RecentStores(v, before, k - 1);
      assert before[..|before| - (k - 1)] == stores[..|stores| - k];
      var u, w := Window(v.changes, before), Window(v.changes, stores);
      assert w[..k][1..] == u[..k - 1];
    }
  }

  /** Entries of the window that no store has written are empty. */
  lemma {:induction false} WindowEntries(initial: seq<Change>, stores: seq<Assignment>, k: nat)
    requires k < |initial|
    ensures Window(initial, stores)[k] ==
      if k < |stores| then Change(stores[|stores| - 1 - k].index, stores[|stores| - 1 - k].value)
      else initial[k - |stores|]
  {
    if stores != [] && k > 0 {
      WindowEntries(initial, stores[..|stores| - 1], k - 1);
    }
  }

  lemma {:induction false} EmptyEntries(block: seq<int>, cs: seq<Change>)
    requires AllFit(cs, |block|) && forall k :: 0 <= k < |cs| ==> cs[k].index == NONE
    ensures ReplayOldestFirst(block, cs) == block
  {
    if cs != [] {
      EmptyEntries(block, cs[1..]);
    }
  }

  lemma {:induction false} ReplayParts(block: seq<int>, a: seq<Change>, b: seq<Change>)
    requires AllFit(a + b, |block|)
    ensures AllFit(a, |block|) && AllFit(b, |block|)
    ensures ReplayOldestFirst(block, a + b) == ReplayOldestFirst(ReplayOldestFirst(block, b), a)
  {
    assert AllFit(b, |block|) by {
      forall k | 0 <= k < |b|
        ensures Fits(b[k], |block|)
      {
        assert (a + b)[|a| + k] == b[k];
      }
    }
    if a == [] {
      assert a + b == b;
    } else {
      assert (a + b)[1..] == a[1..] + b;
      ReplayParts(block, a[1..], b);
      assert (a + b)[0] == a[0];
      assert forall k :: 0 <= k < |a| ==> (a + b)[k] == a[k];
    }
  }

  /** The array the window's oldest entry was stored into. */
  ghost function Base(v: State, stores: seq<Assignment>): (r: seq<int>)
    requires v.Ring() && InRange(stores, |v.current|)
    ensures |r| == |v.current|
  {
    if |stores| < |v.snapshots| then v.current
    else SnapshotRun(v, stores[..|stores| - |v.snapshots|]).current
  }

  /** The window, replayed in store order over its base, gives the current array. */
  lemma WindowRebuilds(v: State, stores: seq<Assignment>)
    requires Initial(v) && InRange(stores, |v.current|) && AllFit(Window(v.changes, stores), |v.current|)
    ensures SameButNone(ReplayOldestFirst(Base(v, stores), Window(v.changes, stores)), SnapshotRun(v, stores).current)
  {
    var w := Window(v.changes, stores);
    var k := if |stores| < |w| then |stores| else |w|;
    RecentStores(v, stores, k);
    assert w == w[..k] + w[k..];
    ReplayParts(Base(v, stores), w[..k], w[k..]);
    forall i | 0 <= i < |w[k..]|
      ensures w[k..][i].index == NONE
    {
      WindowEntries(v.changes, stores, k + i);
    }
    EmptyEntries(Base(v, stores), w[k..]);
    assert k == |stores| ==> stores[..|stores| - k] == [];
  }

  // ----- What the blocks held at the start -----

  /** What the next store of the ring overwrites held, at the start, the right value at every element the
      change list will not bring up to date: those not stored so far, and the one that looks empty. */
  ghost predicate StartHeld(v: State, stores: seq<Assignment>)
    requires v.Ring() && InRange(stores, |v.current|)
  {
    var d := |v.snapshots|;
    forall j: nat :: j < |v.current| && (j == NONE || !Stored(stores, j)) ==>
      v.snapshots[Turn(|stores|, d)][j] == SnapshotRun(v, stores).current[j]
  }

  /** The start's snapshot in the block that the next store after `n` overwrites. */
  function Turn(n: nat, d: nat): (k: nat)
    requires d > 0
    ensures k < d
  {
    d - 1 - n % d
  }

  lemma {:induction false} UnstoredKept(v: State, stores: seq<Assignment>, n: nat, j: nat)
    requires v.Ring() && InRange(stores, |v.current|) && n <= |stores| && j < |v.current|
    requires forall i :: n <= i < |stores| ==> stores[i].index != j
    ensures SnapshotRun(v, stores[..n]).current[j] == SnapshotRun(v, stores).current[j]
    decreases |stores| - n
  {
    if n == |stores| {
      assert stores[..n] == stores;
    } else {
      UnstoredKept(v, stores, n + 1, j);
      assert stores[..n + 1][..n] == stores[..n];
    }
  }

  /** `i % d` for `i` steps of which the last `d` go once around. */
  lemma AroundTheRing(i: nat, d: nat)
    requires 0 < d <= i
    ensures Turn(i - d, d) == Turn(i, d)
  {
    assert i == (i - d) + d;
    var q, r := (i - d) / d, (i - d) % d;
    assert i == (q + 1) * d + r;
    RemainderIs(i, q + 1, r, d);
  }

  lemma RemainderIs(i: nat, q: nat, r: nat, d: nat)
    requires r < d && i == q * d + r
    ensures i % d == r
  {
    var p := i / d;
    assert (p + 1) * d == p * d + d && (q + 1) * d == q * d + d;
    if p < q {
      Scaled(p + 1, q, d);
    } else if p > q {
      Scaled(q + 1, p, d);
    }
  }

  /** `oldest` holds the current value wherever the change list does not bring it up to date. */
  ghost predicate Untouched(oldest: seq<int>, cs: seq<Change>, now: seq<int>) {
    |oldest| == |now| &&
    forall j: nat :: j < |now| && (j == NONE || Newest(cs, j).None?) ==> oldest[j] == now[j]
  }

  /** The replay in store order at one element. */
  lemma OrderedAt(oldest: seq<int>, base: seq<int>, now: seq<int>, cs: seq<Change>, j: nat)
    requires |oldest| == |base| == |now| && AllFit(cs, |now|) && SameButNone(ReplayOldestFirst(base, cs), now)
    requires j < |now|
    ensures ReplayOldestFirst(oldest, cs)[j] == if j == NONE then oldest[j] else OrElse(Newest(cs, j), oldest[j])
    ensures j != NONE ==> now[j] == OrElse(Newest(cs, j), base[j])
  {
    hide Newest, ReplayOldestFirst, OrElse;
    if j == NONE {
      NoneUntouched(oldest, cs);
    } else {
      OldestFirstAt(oldest, cs, j);
      OldestFirstAt(base, cs, j);
    }
  }

  /** The replay newest first at one element. */
  lemma NewestFirst(oldest: seq<int>, cs: seq<Change>, j: nat)
    requires AllFit(cs, |oldest|) && j < |oldest|
    ensures ReplayNewestFirst(oldest, cs)[j] == if j == NONE then oldest[j] else OrElse(Oldest(cs, j), oldest[j])
  {
    hide Oldest, ReplayNewestFirst, OrElse;
    if j == NONE {
      NoneUntouched(oldest, cs);
    } else {
      NewestFirstAt(oldest, cs, j);
    }
  }

  /** A replay in store order gives the current array exactly when its start held what the window does
      not write. */
  lemma OrderedReaches(oldest: seq<int>, base: seq<int>, now: seq<int>, cs: seq<Change>)
    requires |oldest| == |base| == |now| && AllFit(cs, |now|) && SameButNone(ReplayOldestFirst(base, cs), now)
    ensures ReplayOldestFirst(oldest, cs) == now <==> Untouched(oldest, cs, now)
  {
    var a := ReplayOldestFirst(oldest, cs);
    hide ReplayOldestFirst, SameButNone, AllFit, Newest;
    forall j: nat | j < |now|
      ensures a[j] == now[j] <==> (j == NONE || Newest(cs, j).None? ==> oldest[j] == now[j])
    {
      OrderedAt(oldest, base, now, cs, j);
    }
    assert a == now <==> forall j: nat :: j < |now| ==> a[j] == now[j];
  }

  /** Newest first the ends of the window have to agree as well. */
  lemma NewestFirstReaches(oldest: seq<int>, base: seq<int>, now: seq<int>, cs: seq<Change>)
    requires |oldest| == |base| == |now| && AllFit(cs, |now|) && SameButNone(ReplayOldestFirst(base, cs), now)
    ensures ReplayNewestFirst(oldest, cs) == now <==> EndsAgree(cs, |now|) && Untouched(oldest, cs, now)
  {
    var b := ReplayNewestFirst(oldest, cs);
    if EndsAgree(cs, |now|) {
      ReplaysAgree(oldest, cs);
      OrderedReaches(oldest, base, now, cs);
    } else if b == now {
      hide ReplayOldestFirst, ReplayNewestFirst, SameButNone, AllFit, Newest, Oldest;
      var j: nat :| j < |now| && j != NONE && Newest(cs, j) != Oldest(cs, j);
      OrderedAt(oldest, base, now, cs, j);
      NewestFirst(oldest, cs, j);
      BothEnds(cs, j);
      assert false;
    }
  }

  /** During the first round the ring's oldest block is one from the start. */
  lemma FirstRound(v: State, stores: seq<Assignment>)
    requires Initial(v) && InRange(stores, |v.current|) && |stores| < |v.snapshots|
    ensures var w := SnapshotRun(v, stores);
      StartHeld(v, stores) <==> Untouched(w.snapshots[|v.snapshots| - 1], Window(v.changes, stores), w.current)
  {
    var d, cs := |v.snapshots|, Window(v.changes, stores);
    SnapshotRunIsHistory(v, stores, d);
    RemainderIs(|stores|, 0, |stores|, d);
    hide Newest, SnapshotRun, Window, Stored;
    forall j: nat | j != NONE
      ensures Stored(stores, j) <==> Newest(cs, j).Some?
    {
      StoredIsInWindow(v.changes, stores, j);
    }
  }

  lemma StoredIsInWindow(initial: seq<Change>, stores: seq<Assignment>, j: nat)
    requires 0 < |initial| && |stores| <= |initial| && j != NONE
    requires forall k :: 0 <= k < |initial| ==> initial[k].index == NONE
    ensures Stored(stores, j) <==> Newest(Window(initial, stores), j).Some?
  {
    var cs := Window(initial, stores);
    hide Window, Newest;
    NewestIs(cs, j);
    if Stored(stores, j) {
      var i :| 0 <= i < |stores| && stores[i].index == j;
      WindowEntries(initial, stores, |stores| - 1 - i);
    }
    if Newest(cs, j).Some? {
      var k :| 0 <= k < |cs| && cs[k].index == j;
      WindowEntries(initial, stores, k);
    }
  }

  /** Later the oldest block is the array `depth` stores ago, the window's base. */
  lemma LaterRounds(v: State, stores: seq<Assignment>)
    requires Initial(v) && InRange(stores, |v.current|) && |stores| >= |v.snapshots|
    requires StartHeld(v, stores[..|stores| - |v.snapshots|])
    ensures var w := SnapshotRun(v, stores);
      StartHeld(v, stores) <==> Untouched(w.snapshots[|v.snapshots| - 1], Window(v.changes, stores), w.current)
  {
    var d, cs, now := |v.snapshots|, Window(v.changes, stores), SnapshotRun(v, stores).current;
    var oldest := SnapshotRun(v, stores).snapshots[d - 1];
    AroundTheRing(|stores|, d);
    forall j: nat | j < |now| && j != NONE
      ensures Newest(cs, j).None? ==> oldest[j] == now[j]
      ensures !Stored(stores, j) ==> v.snapshots[Turn(|stores|, d)][j] == now[j]
    {
      hide *;
      UnwrittenIsOld(v, stores, j);
      StillHeld(v, stores, j);
    }
    SnapshotRunIsHistory(v, stores, d);
    hide Newest, SnapshotRun, Window, Stored, ReplayOldestFirst, Turn;
  }

  lemma UnwrittenIsOld(v: State, stores: seq<Assignment>, j: nat)
    requires Initial(v) && InRange(stores, |v.current|) && |stores| >= |v.snapshots| && j < |v.current| && j != NONE
    ensures var w := SnapshotRun(v, stores);
      Newest(Window(v.changes, stores), j).None? ==> w.snapshots[|v.snapshots| - 1][j] == w.current[j]
  {
    SnapshotRunIsHistory(v, stores, |v.snapshots|);
    WindowFits(v, stores);
    WindowRebuilds(v, stores);
    OldestFirstAt(Base(v, stores), Window(v.changes, stores), j);
    hide Newest, Window, SnapshotRun, ReplayOldestFirst;
  }

  lemma StillHeld(v: State, stores: seq<Assignment>, j: nat)
    requires v.Ring() && InRange(stores, |v.current|) && |stores| >= |v.snapshots| && j < |v.current|
    requires StartHeld(v, stores[..|stores| - |v.snapshots|])
    requires Turn(|stores| - |v.snapshots|, |v.snapshots|) == Turn(|stores|, |v.snapshots|)
    ensures !Stored(stores, j) ==>
      v.snapshots[Turn(|stores|, |v.snapshots|)][j] == SnapshotRun(v, stores).current[j]
  {
    if !Stored(stores, j) {
      assert !Stored(stores[..|stores| - |v.snapshots|], j);
      UnstoredKept(v, stores, |stores| - |v.snapshots|, j);
    }
  }

  lemma WindowFits(v: State, stores: seq<Assignment>)
    requires v.Valid() && InRange(stores, |v.current|)
    ensures AllFit(Window(v.changes, stores), |v.current|)
  {
    assert ChangeListRun(v, stores).Valid();
  }

  // ----- When the runs agree -----

  /** One more store keeps the history of the O(n) store exactly when the start held what it had to and,
      for the replay newest first, the ends of the window agree. */
  lemma NextStoreAgrees(v: State, stores: seq<Assignment>, u: State, index: nat, value: int)
    requires Initial(v) && InRange(stores, |v.current|) && index < |v.current|
    requires u.Valid() && SameHistory(u, SnapshotRun(v, stores)) && u.changes == Window(v.changes, stores)
    requires |stores| >= |v.snapshots| ==> StartHeld(v, stores[..|stores| - |v.snapshots|])
    ensures var w := SnapshotStore(SnapshotRun(v, stores), index, value);
      && (SameHistory(OrderedStore(u, index, value), w) <==> StartHeld(v, stores))
      && (SameHistory(ChangeListStore(u, index, value), w) <==>
            EndsAgree(u.changes, |v.current|) && StartHeld(v, stores))
  {
    var d := |v.snapshots|;
    var oldest := u.snapshots[d - 1];
    if |stores| < d {
      FirstRound(v, stores);
    } else {
      LaterRounds(v, stores);
    }
    WindowRebuilds(v, stores);
    OrderedReaches(oldest, Base(v, stores), u.current, u.changes);
    NewestFirstReaches(oldest, Base(v, stores), u.current, u.changes);
    hide StartHeld, Base, Window, EndsAgree, Untouched, SnapshotRun;
    PushSame(u.snapshots, ReplayOldestFirst(oldest, u.changes), u.current);
    PushSame(u.snapshots, ReplayNewestFirst(oldest, u.changes), u.current);
  }

  lemma PushSame<T>(h: seq<T>, a: T, b: T)
    requires |h| > 0
    ensures Push(h, a) == Push(h, b) <==> a == b
  {
    assert Push(h, a)[0] == a && Push(h, b)[0] == b;
  }

  /** Every store of the run finds a window whose ends agree. */
  ghost predicate AllEndsAgree(v: State, stores: seq<Assignment>)
    requires |v.changes| > 0
  {
    forall i: nat :: i < |stores| ==> EndsAgree(Window(v.changes, stores[..i]), |v.current|)
  }

  /** Every store of the run overwrites a block that held what it had to at the start. */
  ghost predicate AlwaysHeld(v: State, stores: seq<Assignment>)
    requires v.Ring() && InRange(stores, |v.current|)
  {
    forall i: nat :: i < |stores| ==> StartHeld(v, stores[..i])
  }

  /** The O(d) and O(n) stores have kept the same history after every store of the run. */
  ghost predicate AlwaysSame(v: State, stores: seq<Assignment>)
    requires v.Valid() && InRange(stores, |v.current|)
  {
    forall i: nat :: i <= |stores| ==> SameHistory(ChangeListRun(v, stores[..i]), SnapshotRun(v, stores[..i]))
  }

  /** The same for the O(d) store with the replay in store order. */
  ghost predicate AlwaysSameOrdered(v: State, stores: seq<Assignment>)
    requires v.Valid() && InRange(stores, |v.current|)
  {
    forall i: nat :: i <= |stores| ==> SameHistory(OrderedRun(v, stores[..i]), SnapshotRun(v, stores[..i]))
  }

  lemma EndsNext(v: State, stores: seq<Assignment>)
    requires |v.changes| > 0 && stores != []
    ensures var before := stores[..|stores| - 1];
      AllEndsAgree(v, stores) <==> AllEndsAgree(v, before) && EndsAgree(Window(v.changes, before), |v.current|)
  {
    hide EndsAgree, Window;
    var before := stores[..|stores| - 1];
    assert forall i: nat :: i < |stores| ==> before[..i] == stores[..i];
    assert before[..|before|] == before;
  }

  lemma HeldNext(v: State, stores: seq<Assignment>)
    requires v.Ring() && InRange(stores, |v.current|) && stores != []
    ensures var before := stores[..|stores| - 1];
      AlwaysHeld(v, stores) <==> AlwaysHeld(v, before) && StartHeld(v, before)
  {
    hide StartHeld;
    var before := stores[..|stores| - 1];
    assert forall i: nat :: i < |stores| ==> before[..i] == stores[..i];
    assert before[..|before|] == before;
  }

  lemma SameNext(v: State, stores: seq<Assignment>)
    requires v.Valid() && InRange(stores, |v.current|) && stores != []
    ensures var before := stores[..|stores| - 1];
      AlwaysSame(v, stores) <==> AlwaysSame(v, before) && SameHistory(ChangeListRun(v, stores), SnapshotRun(v, stores))
  {
    hide SameHistory, ChangeListRun, SnapshotRun, Window;
    var before := stores[..|stores| - 1];
    assert forall i: nat :: i < |stores| ==> before[..i] == stores[..i];
    assert stores[..|stores|] == stores;
  }

  lemma SameOrderedNext(v: State, stores: seq<Assignment>)
    requires v.Valid() && InRange(stores, |v.current|) && stores != []
    ensures var before := stores[..|stores| - 1];
      AlwaysSameOrdered(v, stores) <==>
        AlwaysSameOrdered(v, before) && SameHistory(OrderedRun(v, stores), SnapshotRun(v, stores))
  {
    hide SameHistory, OrderedRun, SnapshotRun, Window;
    var before := stores[..|stores| - 1];
    assert forall i: nat :: i < |stores| ==> before[..i] == stores[..i];
    assert stores[..|stores|] == stores;
  }

  /** So far the runs have agreed and the start held: what the next store needs. */
  lemma HeldBefore(v: State, stores: seq<Assignment>)
    requires v.Ring() && InRange(stores, |v.current|) && AlwaysHeld(v, stores)
    ensures |stores| >= |v.snapshots| ==> StartHeld(v, stores[..|stores| - |v.snapshots|])
  {
  }

  lemma SameAtEnd(v: State, stores: seq<Assignment>)
    requires v.Valid() && InRange(stores, |v.current|)
    ensures AlwaysSame(v, stores) ==> SameHistory(ChangeListRun(v, stores), SnapshotRun(v, stores))
    ensures AlwaysSameOrdered(v, stores) ==> SameHistory(OrderedRun(v, stores), SnapshotRun(v, stores))
  {
    assert stores[..|stores|] == stores;
  }

  /** The O(d) store keeps the history of the O(n) store throughout a run exactly when, at every store,
      the ends of the window agree and the block overwritten held, at the start, the right value wherever
      the change list says nothing. */
  lemma {:induction false} ChangeListRunAgrees(v: State, stores: seq<Assignment>)
    requires Initial(v) && InRange(stores, |v.current|)
    ensures AlwaysSame(v, stores) <==> AllEndsAgree(v, stores) && AlwaysHeld(v, stores)
  {
    if stores != [] {
      var n := |stores| - 1;
      var before := stores[..n];
      ChangeListRunAgrees(v, before);
      EndsNext(v, stores);
      HeldNext(v, stores);
      SameNext(v, stores);
      SameAtEnd(v, before);
      hide EndsAgree, AllEndsAgree, AlwaysSame, AlwaysSameOrdered, AlwaysHeld, StartHeld, Window, SameHistory;
      if AlwaysSame(v, before) {
        HeldBefore(v, before);
        NextStoreAgrees(v, before, ChangeListRun(v, before), stores[n].index, stores[n].value);
      }
    }
  }

  /** With the replay in store order only the start matters. */
  lemma {:induction false} OrderedRunAgrees(v: State, stores: seq<Assignment>)
    requires Initial(v) && InRange(stores, |v.current|)
    ensures AlwaysSameOrdered(v, stores) <==> AlwaysHeld(v, stores)
  {
    if stores != [] {
      var n := |stores| - 1;
      var before := stores[..n];
      OrderedRunAgrees(v, before);
      HeldNext(v, stores);
      SameOrderedNext(v, stores);
      SameAtEnd(v, before);
      hide AlwaysSame, AlwaysSameOrdered, AlwaysHeld, StartHeld, Window, SameHistory;
      if AlwaysSameOrdered(v, before) {
        HeldBefore(v, before);
        NextStoreAgrees(v, before, OrderedRun(v, before), stores[n].index, stores[n].value);
      }
    }
  }

  /** Blocks that start equal to the array, and no store to the element that looks empty, are enough. */
  lemma EqualStartSuffices(v: State, stores: seq<Assignment>)
    requires v.Ring() && InRange(stores, |v.current|)
    requires forall k :: 0 <= k < |v.snapshots| ==> v.snapshots[k] == v.current
    requires !Stored(stores, NONE)
    ensures AlwaysHeld(v, stores)
  {
    forall i: nat | i < |stores|
      ensures StartHeld(v, stores[..i])
    {
      var early := stores[..i];
      forall j: nat | j < |v.current| && (j == NONE || !Stored(early, j))
        ensures SnapshotRun(v, early).current[j] == v.current[j]
      {
        assert j == NONE ==> !Stored(early, j);
        UnstoredKept(v, early, 0, j);
        assert early[..0] == [];
      }
    }
  }

  // ----- Runs that differ -----

  /** A window of one entry. */
  lemma OneEntry(block: seq<int>, c: Change)
    requires Fits(c, |block|)
    ensures EndsAgree([c], |block|)
    ensures ReplayNewestFirst(block, [c]) == ReplayOldestFirst(block, [c]) == Apply(block, c)
  {
    assert [c][1..] == [] && [c][..0] == [];
    assert ReplayNewestFirst(block, []) == ReplayOldestFirst(block, []) == block;
    NoConflictSuffices([c], |block|);
  }

  lemma PushOne<T>(a: T, b: T)
    ensures Push([a], b) == [b]
  {
  }

  /** Depth 1 and blocks that start with 7: storing a[0] leaves history 1 at 7 where the array was 0. */
  lemma StartMatters()
    ensures
      var v := State([0, 0], [[7, 7]], [Change(NONE, 0)]);
      var stores := [Assignment(0, 1)];
      && Initial(v) && InRange(stores, 2) && AllEndsAgree(v, stores)
      && ChangeListRun(v, stores).snapshots == OrderedRun(v, stores).snapshots == [[7, 7]]
      && SnapshotRun(v, stores).snapshots == [[0, 0]]
  {
    var v := State([0, 0], [[7, 7]], [Change(NONE, 0)]);
    var stores := [Assignment(0, 1)];
    OneEntry([7, 7], v.changes[0]);
    PushOne([7, 7], [7, 7]);
    PushOne([7, 7], [0, 0]);
    assert stores[..0] == [];
    hide EndsAgree, ReplayNewestFirst, ReplayOldestFirst, Push;
    assert ChangeListRun(v, []) == OrderedRun(v, []) == SnapshotRun(v, []) == v;
  }

  /** An array of a thousand zeros, depth 1: a store to a[999] is lost from the history of the next store. */
  lemma Element999IsLost(size: nat)
    requires size >= 1000
    ensures
      var zeros := seq(size, _ => 0);
      var v := State(zeros, [zeros], [Change(999, 0)]);
      var stores := [Assignment(999, 5), Assignment(0, 1)];
      && Initial(v) && InRange(stores, size) && AllEndsAgree(v, stores)
      && ChangeListRun(v, stores).snapshots[0][999] == OrderedRun(v, stores).snapshots[0][999] == 0
      && SnapshotRun(v, stores).snapshots[0][999] == 5
  {
    assert NONE == 999;
    var zeros := seq(size, _ => 0);
    var v := State(zeros, [zeros], [Change(NONE, 0)]);
    var stores := [Assignment(NONE, 5), Assignment(0, 1)];
    var c := Change(NONE, 5);
    var once := zeros[NONE := 5];
    assert stores[..1][..0] == stores[..0] == [];
    OneEntry(zeros, v.changes[0]);
    OneEntry(zeros, c);
    PushOne(zeros, zeros);
    PushOne(zeros, once);
    PushOne(v.changes[0], c);
    hide EndsAgree, ReplayNewestFirst, ReplayOldestFirst, Push, NONE;
    assert ChangeListRun(v, []) == OrderedRun(v, []) == SnapshotRun(v, []) == v;
    assert ChangeListRun(v, stores[..1]) == OrderedRun(v, stores[..1]) == State(once, [zeros], [c]);
    assert SnapshotRun(v, stores[..1]).current == once;
  }

  /** Replays of the two windows that matter. */
  lemma SmallReplays(none: Change, c1: Change, c2: Change)
    requires none == Change(NONE, 0) && c1 == Change(0, 1) && c2 == Change(0, 2)
    ensures ReplayNewestFirst([0], [none, none]) == [0]
    ensures ReplayNewestFirst([0], [c1, none]) == [1]
    ensures ReplayNewestFirst([0], [c2, c1]) == [1]
  {
    assert [none, none][..1] == [none] && [none][..0] == [];
    assert ReplayNewestFirst([0], [none]) == [0];
    assert [c1, none][..1] == [c1] && [c1][..0] == [];
    assert ReplayNewestFirst([0], [c1]) == [1];
    assert [c2, c1][..1] == [c2] && [c2][..0] == [];
    assert ReplayNewestFirst([0], [c2]) == [2];
  }

  /** Depth 2 and the stores a[0] = 1, 2, 3: history 1 reads 1 where it should read 2. */
  lemma ReplayOrderMatters()
    ensures
      var v := State([0], [[0], [0]], [Change(NONE, 0), Change(NONE, 0)]);
      var stores := [Assignment(0, 1), Assignment(0, 2), Assignment(0, 3)];
      && Initial(v) && InRange(stores, 1) && AlwaysHeld(v, stores)
      && ChangeListRun(v, stores).snapshots[0] == [1]
      && SnapshotRun(v, stores).snapshots[0] == [2]
  {
    var none, c1, c2 := Change(NONE, 0), Change(0, 1), Change(0, 2);
    var v0 := State([0], [[0], [0]], [none, none]);
    var s := [Assignment(0, 1), Assignment(0, 2), Assignment(0, 3)];
    EqualStartSuffices(v0, s);
    SmallReplays(none, c1, c2);
    hide ReplayNewestFirst, Window, AlwaysHeld;
    var v1 := ChangeListStore(v0, 0, 1);
    assert v1 == State([1], [[0], [0]], [c1, none]);
    var v2 := ChangeListStore(v1, 0, 2);
    assert v2 == State([2], [[1], [0]], [c2, c1]);
    assert s[..2][..1][..0] == [];
    assert s[..2][..1] == [Assignment(0, 1)];
    assert s[..2] == [Assignment(0, 1), Assignment(0, 2)];
    assert ChangeListRun(v0, s[..2][..1]) == v1;
    assert ChangeListRun(v0, s[..2]) == v2;
    assert SnapshotRun(v0, s[..2][..1]).current == [1];
    assert SnapshotRun(v0, s[..2]).current == [2];
  }
}
