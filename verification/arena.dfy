/** The node arena of the memtable's skip list (memtable/memtable.go):
    nodes are addressed by index, node 0 is the head sentinel, NIL (-1) is
    the nil pointer, and `next[n][l]` is node n's forward pointer on level l.
    This module says when an arena is a correctly linked skip list and how
    splicing in a node keeps it so. */
module Arena {
  import opened SkipSpec

  const HEAD: int := 0
  const NIL: int := -1

  /** The node at level-0 position `p` of `order`: the head for -1, nil for |order|. */
  function NodeAt(order: seq<int>, p: int): int
    requires -1 <= p <= |order|
  {
    if p == -1 then HEAD else if p == |order| then NIL else order[p]
  }

  /** Number of levels the node at position `p` is linked on; the head has all of them. */
  function HeightAt(hs: seq<int>, p: int): int
    requires -1 <= p < |hs|
  {
    if p == -1 then MAX_LEVEL else hs[p]
  }

  /** The last position before `k` whose node is linked on level `l`, or -1 (the head). */
  function LastBelow(hs: seq<int>, k: int, l: int): (p: int)
    requires 0 <= k <= |hs|
    ensures -1 <= p < k
    ensures p >= 0 ==> hs[p] > l
    ensures forall j :: p < j < k ==> hs[j] <= l
  {
    if k == 0 then -1
    else if hs[k - 1] > l then k - 1
    else LastBelow(hs, k - 1, l)
  }

  lemma {:induction false} LastBelowUnique(hs: seq<int>, k: int, l: int, p: int)
    requires -1 <= p < k <= |hs|
    requires p >= 0 ==> hs[p] > l
    requires forall j :: p < j < k ==> hs[j] <= l
    ensures LastBelow(hs, k, l) == p
  {
    // LastBelow's own contract pins the position down.
  }

  /** Every pointer of the arena `next` is the one the level-0 order `order`
      and the node heights `hs` prescribe (`slot` maps each node back to its
      position, so no node appears twice): on level l, each node linked on
      level l points to the next node after it that is linked on level l. */
  ghost predicate Linked(next: seq<seq<int>>, order: seq<int>, hs: seq<int>, slot: seq<int>)
  {
    |hs| == |order| && |next| > 0 && |next[HEAD]| == MAX_LEVEL && |slot| == |next| &&
    (forall p :: 0 <= p < |order| ==>
       1 <= order[p] < |next| && |next[order[p]]| == hs[p] && slot[order[p]] == p) &&
    (forall p, l :: -1 <= p < |order| && 0 <= l < HeightAt(hs, p) ==>
       next[NodeAt(order, p)][l] == NodeAt(order, NextPos(hs, p, l)))
  }

  lemma {:induction false} NodeAtShift(order: seq<int>, k: int, m: int, order2: seq<int>, p: int)
    requires InsertedAt(order, k, m, order2) && -1 <= p <= |order|
    ensures NodeAt(order2, Shift(p, k)) == NodeAt(order, p)
  {
  }

  /** Distinct positions hold distinct nodes, and no position holds the head. */
  lemma {:induction false} NodeAtInjective(next: seq<seq<int>>, order: seq<int>, hs: seq<int>, slot: seq<int>, p: int, q: int)
    requires Linked(next, order, hs, slot) && -1 <= p < |order| && -1 <= q < |order|
    requires NodeAt(order, p) == NodeAt(order, q)
    ensures p == q
  {
  }

  /** On level 0, which every node is linked on, the successor of the last
      node before `k` is the node at `k`. */
  lemma {:induction false} LevelZeroNext(hs: seq<int>, k: int)
    requires forall j :: 0 <= j < |hs| ==> hs[j] >= 1
    requires 0 <= k <= |hs|
    ensures LastBelow(hs, k, 0) == k - 1
    ensures NextPos(hs, k - 1, 0) == k
  {
    if k > 0 {
      assert hs[k - 1] >= 1;
    }
  }

  /** The pointer of the node at position `p` on level `l`, read off a linked arena. */
  lemma {:induction false} LinkOf(next: seq<seq<int>>, order: seq<int>, hs: seq<int>, slot: seq<int>, p: int, l: int)
    requires Linked(next, order, hs, slot) && -1 <= p < |order| && 0 <= l < HeightAt(hs, p)
    ensures 0 <= NodeAt(order, p) < |next| && l < |next[NodeAt(order, p)]|
    ensures next[NodeAt(order, p)][l] == NodeAt(order, NextPos(hs, p, l))
    ensures NextPos(hs, p, l) < |order| ==> 1 <= NodeAt(order, NextPos(hs, p, l)) < |next|
  {
  }

  /** Splicing a node `m` of height `level + 1` in at position `k`, after the
      predecessors `prev` on each of its levels, gives a correctly linked arena. */
  lemma {:induction false} LinkedAfterSplice(next: seq<seq<int>>, order: seq<int>, hs: seq<int>, slot: seq<int>,
                          k: int, level: int, prev: seq<int>, next': seq<seq<int>>,
                          order2: seq<int>, hs2: seq<int>, slot2: seq<int>)
    requires Linked(next, order, hs, slot)
    requires InsertedAt(order, k, |next|, order2) && InsertedAt(hs, k, level + 1, hs2)
    requires |slot2| == |next| + 1 && slot2[|next|] == k
    requires forall n :: 0 <= n < |next| ==> slot2[n] == Shift(slot[n], k)
    requires 0 <= level < MAX_LEVEL && |prev| == MAX_LEVEL
    requires forall l :: 0 <= l <= level ==> prev[l] == NodeAt(order, LastBelow(hs, k, l))
    requires |next'| == |next| + 1 && |next'[|next|]| == level + 1
    requires forall n :: 0 <= n < |next| ==> |next'[n]| == |next[n]|
    requires forall n, l {:trigger next'[n][l]} :: 0 <= n < |next| && 0 <= l < |next[n]| ==>
      next'[n][l] == if l <= level && n == prev[l] then |next| else next[n][l]
    requires forall l :: 0 <= l <= level ==>
      0 <= prev[l] < |next| && l < |next[prev[l]]| && next'[|next|][l] == next[prev[l]][l]
    ensures Linked(next', order2, hs2, slot2)
  {
    var m := |next|;
    forall p | 0 <= p < |order2|
      ensures 1 <= order2[p] < |next'| && |next'[order2[p]]| == hs2[p] && slot2[order2[p]] == p
    {
      if p < k {
        assert order2[p] == order[p] && hs2[p] == hs[p];
      } else if p > k {
        assert order2[p] == order[p - 1] && hs2[p] == hs[p - 1];
      }
    }
    forall p', l | -1 <= p' < |order2| && 0 <= l < HeightAt(hs2, p')
      ensures next'[NodeAt(order2, p')][l] == NodeAt(order2, NextPos(hs2, p', l))
    {
      if p' == k {
        SpliceNewLink(next, order, hs, slot, k, level, prev, next', order2, hs2, l);
      } else {
        var p := if p' < k then p' else p' - 1;
        assert Shift(p, k) == p' && HeightAt(hs2, p') == HeightAt(hs, p);
        SpliceOldLink(next, order, hs, slot, k, level, prev, next', order2, hs2, p, l);
      }
    }
  }

  /** The new node's pointer on level l is its predecessor's old pointer. */
  lemma {:induction false} SpliceNewLink(next: seq<seq<int>>, order: seq<int>, hs: seq<int>, slot: seq<int>,
                          k: int, level: int, prev: seq<int>, next': seq<seq<int>>,
                          order2: seq<int>, hs2: seq<int>, l: int)
    requires Linked(next, order, hs, slot)
    requires InsertedAt(order, k, |next|, order2) && InsertedAt(hs, k, level + 1, hs2)
    requires 0 <= l <= level < MAX_LEVEL && |prev| == MAX_LEVEL
    requires prev[l] == NodeAt(order, LastBelow(hs, k, l))
    requires |next'| == |next| + 1 && |next'[|next|]| == level + 1
    requires 0 <= prev[l] < |next| && l < |next[prev[l]]| && next'[|next|][l] == next[prev[l]][l]
    ensures next'[NodeAt(order2, k)][l] == NodeAt(order2, NextPos(hs2, k, l))
  {
    var pp := LastBelow(hs, k, l);
    var r := NextPos(hs, pp, l);
    NextPosAfterInsert(hs, k, level + 1, hs2, pp, l);
    assert next[NodeAt(order, pp)][l] == NodeAt(order, r);
    NodeAtShift(order, k, |next|, order2, r);
  }

  /** An old node's pointer on level l changes only if the node is the new
      node's predecessor on that level, and then it points to the new node. */
  lemma {:induction false} SpliceOldLink(next: seq<seq<int>>, order: seq<int>, hs: seq<int>, slot: seq<int>,
                          k: int, level: int, prev: seq<int>, next': seq<seq<int>>,
                          order2: seq<int>, hs2: seq<int>, p: int, l: int)
    requires Linked(next, order, hs, slot)
    requires InsertedAt(order, k, |next|, order2) && InsertedAt(hs, k, level + 1, hs2)
    requires 0 <= level < MAX_LEVEL && |prev| == MAX_LEVEL
    requires -1 <= p < |order| && 0 <= l < HeightAt(hs, p)
    requires l <= level ==> prev[l] == NodeAt(order, LastBelow(hs, k, l))
    requires |next'| == |next| + 1
    requires forall n :: 0 <= n < |next| ==> |next'[n]| == |next[n]|
    requires forall n, j {:trigger next'[n][j]} :: 0 <= n < |next| && 0 <= j < |next[n]| ==>
      next'[n][j] == if j <= level && n == prev[j] then |next| else next[n][j]
    ensures next'[NodeAt(order2, Shift(p, k))][l] == NodeAt(order2, NextPos(hs2, Shift(p, k), l))
  {
    var n := NodeAt(order, p);
    var r := NextPos(hs, p, l);
    NodeAtShift(order, k, |next|, order2, p);
    NextPosAfterInsert(hs, k, level + 1, hs2, p, l);
    assert 0 <= n < |next| && l < |next[n]|;
    if l <= level && n == prev[l] {
      var pp := LastBelow(hs, k, l);
      NodeAtInjective(next, order, hs, slot, p, pp);
      assert NodeAt(order2, k) == |next|;
    } else if p < k && k <= r && l <= level {
      LastBelowUnique(hs, k, l, p);
      assert false;
    } else {
      assert next[n][l] == NodeAt(order, r);
      NodeAtShift(order, k, |next|, order2, r);
    }
  }

  /** The representation invariant of the skip list: node n (n >= 1) holds
      `keys[n]`, `values[n]`, `stamps[n]` and the forward pointers `next[n]`;
      `order` lists the nodes in level-0 order, `heights[p]` is the number of
      levels the node at position p is linked on, and `contents` is the
      sorted sequence of entries they spell out. */
  ghost predicate ListInv(keys: seq<string>, values: seq<string>, stamps: seq<int64>, next: seq<seq<int>>,
                          order: seq<int>, heights: seq<int>, slot: seq<int>, contents: seq<Entry>)
  {
    |keys| == |values| == |stamps| == |next| == |order| + 1 &&
    |contents| == |order| &&
    Linked(next, order, heights, slot) &&
    (forall p :: 0 <= p < |order| ==> 2 <= heights[p] <= MAX_LEVEL) &&
    (forall p {:trigger contents[p]} :: 0 <= p < |order| ==>
       contents[p] == Entry(keys[order[p]], values[order[p]], stamps[order[p]])) &&
    Sorted(contents)
  }

  /** The inverse map after a node is inserted at position `k`. */
  function SlotAfter(slot: seq<int>, k: int): (slot2: seq<int>)
    ensures |slot2| == |slot| + 1 && slot2[|slot|] == k
    ensures forall n :: 0 <= n < |slot| ==> slot2[n] == Shift(slot[n], k)
  {
    seq(|slot| + 1, n requires 0 <= n <= |slot| => if n == |slot| then k else Shift(slot[n], k))
  }

  /** Splicing a new node for `(key, value, ts)` of height `level + 1` in at
      the insertion position, after the predecessors `prev`, keeps the
      invariant, and the entries become the old ones with the new entry
      inserted in order. */
  lemma {:induction false} InvAfterSplice(keys: seq<string>, values: seq<string>, stamps: seq<int64>, next: seq<seq<int>>,
                          order: seq<int>, hs: seq<int>, slot: seq<int>, contents: seq<Entry>,
                          key: string, value: string, ts: int64, level: int, prev: seq<int>, next': seq<seq<int>>,
                          keys': seq<string>, values': seq<string>, stamps': seq<int64>,
                          order': seq<int>, hs': seq<int>, slot': seq<int>, contents': seq<Entry>)
    requires ListInv(keys, values, stamps, next, order, hs, slot, contents)
    requires !HasVersion(contents, key, ts)
    requires 1 <= level < MAX_LEVEL && |prev| == MAX_LEVEL
    requires forall l :: 0 <= l <= level ==> prev[l] == NodeAt(order, LastBelow(hs, InsertPos(contents, key, ts), l))
    requires |next'| == |next| + 1 && |next'[|next|]| == level + 1
    requires forall n :: 0 <= n < |next| ==> |next'[n]| == |next[n]|
    requires forall n, l {:trigger next'[n][l]} :: 0 <= n < |next| && 0 <= l < |next[n]| ==>
      next'[n][l] == if l <= level && n == prev[l] then |next| else next[n][l]
    requires forall l :: 0 <= l <= level ==>
      0 <= prev[l] < |next| && l < |next[prev[l]]| && next'[|next|][l] == next[prev[l]][l]
    requires keys' == keys + [key] && values' == values + [value] && stamps' == stamps + [ts]
    requires var k := InsertPos(contents, key, ts);
      order' == order[..k] + [|next|] + order[k..] && hs' == hs[..k] + [level + 1] + hs[k..] &&
      slot' == SlotAfter(slot, k) && contents' == contents[..k] + [Entry(key, value, ts)] + contents[k..]
    ensures ListInv(keys', values', stamps', next', order', hs', slot', contents')
  {
    var k := InsertPos(contents, key, ts);
    var m := |next|;
    var e := Entry(key, value, ts);
    var order2, hs2 := order[..k] + [m] + order[k..], hs[..k] + [level + 1] + hs[k..];
    var keys2, values2, stamps2 := keys + [key], values + [value], stamps + [ts];
    var contents2 := contents[..k] + [e] + contents[k..];
    InsertedAtConcat(order, k, m);
    InsertedAtConcat(hs, k, level + 1);
    LinkedAfterSplice(next, order, hs, slot, k, level, prev, next', order2, hs2, SlotAfter(slot, k));
    SortedInsert(contents, e);
    EntriesAfterInsert(keys, values, stamps, order, hs, contents, k, e, level);
  }

  /** After the insertion at `k` of a node for `e` of height `level + 1`,
      every position still holds the entry its node stores, and every height
      is still in range. */
  lemma {:induction false} EntriesAfterInsert(keys: seq<string>, values: seq<string>, stamps: seq<int64>,
                          order: seq<int>, hs: seq<int>, contents: seq<Entry>, k: int, e: Entry, level: int)
    requires |keys| == |values| == |stamps| == |order| + 1 == |contents| + 1 == |hs| + 1
    requires forall p :: 0 <= p < |order| ==> 1 <= order[p] < |keys| && 2 <= hs[p] <= MAX_LEVEL
    requires forall p {:trigger contents[p]} :: 0 <= p < |order| ==>
      contents[p] == Entry(keys[order[p]], values[order[p]], stamps[order[p]])
    requires 0 <= k <= |order| && 1 <= level < MAX_LEVEL
    ensures var order2 := order[..k] + [|keys|] + order[k..];
      var contents2 := contents[..k] + [e] + contents[k..];
      var hs2 := hs[..k] + [level + 1] + hs[k..];
      (forall p :: 0 <= p < |order2| ==> 2 <= hs2[p] <= MAX_LEVEL) &&
      (forall p {:trigger contents2[p]} :: 0 <= p < |order2| ==>
         contents2[p] == Entry((keys + [e.key])[order2[p]], (values + [e.value])[order2[p]], (stamps + [e.timestamp])[order2[p]]))
  {
    var order2 := order[..k] + [|keys|] + order[k..];
    var contents2 := contents[..k] + [e] + contents[k..];
    var hs2 := hs[..k] + [level + 1] + hs[k..];
    forall p | 0 <= p < |order2|
      ensures 2 <= hs2[p] <= MAX_LEVEL
      ensures contents2[p] == Entry((keys + [e.key])[order2[p]], (values + [e.value])[order2[p]], (stamps + [e.timestamp])[order2[p]])
    {
      if p < k {
        assert contents2[p] == contents[p] && order2[p] == order[p] && hs2[p] == hs[p];
      } else if p > k {
        assert contents2[p] == contents[p - 1] && order2[p] == order[p - 1] && hs2[p] == hs[p - 1];
      }
    }
  }

  /** The loop of Insert (memtable.go lines 61-64) on the arena `next`: a new
      node of `level + 1` pointers is appended, and for i from `level` down
      to 0 it takes over the pointer of `prev[i]` on level i, which then
      points to it. */
  method SpliceLinks(next: seq<seq<int>>, prev: seq<int>, level: int) returns (nx: seq<seq<int>>)
    requires 0 <= level < |prev|
    requires forall l :: 0 <= l <= level ==> 0 <= prev[l] < |next| && l < |next[prev[l]]|
    ensures |nx| == |next| + 1 && |nx[|next|]| == level + 1
    ensures forall n :: 0 <= n < |next| ==> |nx[n]| == |next[n]|
    ensures forall n, l {:trigger nx[n][l]} :: 0 <= n < |next| && 0 <= l < |next[n]| ==>
      nx[n][l] == if l <= level && n == prev[l] then |next| else next[n][l]
    ensures forall l :: 0 <= l <= level ==> nx[|next|][l] == next[prev[l]][l]
  {
    var m := |next|;
    nx := next + [seq(level + 1, _ => NIL)];
    var i := level;
    while i >= 0
      invariant -1 <= i <= level
      invariant |nx| == m + 1 && |nx[m]| == level + 1
      invariant forall n :: 0 <= n < m ==> |nx[n]| == |next[n]|
      invariant forall n, l {:trigger nx[n][l]} :: 0 <= n < m && 0 <= l < |nx[n]| ==>
        nx[n][l] == if i < l <= level && n == prev[l] then m else next[n][l]
      invariant forall l :: i < l <= level ==> nx[m][l] == next[prev[l]][l]
    {
      nx := nx[m := nx[m][i := nx[prev[i]][i]]];
      nx := nx[prev[i] := nx[prev[i]][i := m]];
      i := i - 1;
    }
  }

  /** The predecessors of position `k` are nodes of the arena with a pointer
      on each level they are the predecessor on. */
  lemma {:induction false} PredecessorsLinked(next: seq<seq<int>>, order: seq<int>, hs: seq<int>, slot: seq<int>,
                                              k: int, prev: seq<int>)
    requires Linked(next, order, hs, slot) && 0 <= k <= |order| && |prev| == MAX_LEVEL
    requires forall p :: 0 <= p < |order| ==> hs[p] <= MAX_LEVEL
    requires forall l :: 0 <= l < MAX_LEVEL ==> prev[l] == NodeAt(order, LastBelow(hs, k, l))
    ensures forall l :: 0 <= l < MAX_LEVEL ==> 0 <= prev[l] < |next| && l < |next[prev[l]]|
  {
    forall l | 0 <= l < MAX_LEVEL
      ensures 0 <= prev[l] < |next| && l < |next[prev[l]]|
    {
      LinkOf(next, order, hs, slot, LastBelow(hs, k, l), l);
    }
  }

  /** The second half of Insert (memtable.go lines 54-64) on the arena: a
      node for `(key, value, ts)` with pointers on levels 0 .. level is
      added and spliced in after the predecessors `prev` that
      findGreaterOrEqual reported. The result is a skip list again, whose
      entries are the old ones with the new entry inserted in order. */
  method Splice(keys: seq<string>, values: seq<string>, stamps: seq<int64>, next: seq<seq<int>>,
                ghost order: seq<int>, ghost hs: seq<int>, ghost slot: seq<int>, ghost contents: seq<Entry>,
                key: string, value: string, ts: int64, level: int, prev: seq<int>)
    returns (keys': seq<string>, values': seq<string>, stamps': seq<int64>, next': seq<seq<int>>,
             ghost order': seq<int>, ghost hs': seq<int>, ghost slot': seq<int>, ghost contents': seq<Entry>)
    requires ListInv(keys, values, stamps, next, order, hs, slot, contents)
    requires !HasVersion(contents, key, ts)
    requires 1 <= level < MAX_LEVEL && |prev| == MAX_LEVEL
    requires forall l :: 0 <= l < MAX_LEVEL ==> prev[l] == NodeAt(order, LastBelow(hs, InsertPos(contents, key, ts), l))
    ensures ListInv(keys', values', stamps', next', order', hs', slot', contents')
    ensures var k := InsertPos(contents, key, ts);
      contents' == contents[..k] + [Entry(key, value, ts)] + contents[k..]
    ensures |next'| == |next| + 1 && |next'[|next|]| == level + 1
    ensures keys' == keys + [key] && values' == values + [value] && stamps' == stamps + [ts]
    ensures forall n :: 0 <= n < |next| ==> |next'[n]| == |next[n]|
  {
    ghost var k := InsertPos(contents, key, ts);
    PredecessorsLinked(next, order, hs, slot, k, prev);
    next' := SpliceLinks(next, prev, level);
    keys', values', stamps' := keys + [key], values + [value], stamps + [ts];
    order' := order[..k] + [|next|] + order[k..];
    hs' := hs[..k] + [level + 1] + hs[k..];
    slot' := SlotAfter(slot, k);
    contents' := contents[..k] + [Entry(key, value, ts)] + contents[k..];
    InvAfterSplice(keys, values, stamps, next, order, hs, slot, contents, key, value, ts, level, prev, next',
                   keys', values', stamps', order', hs', slot', contents');
  }
}
