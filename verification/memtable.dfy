/** The memtable's skip list (memtable/memtable.go) as a class over the node
    arena of module Arena. */
module Memtable {
  import opened Wrappers
  import opened SkipSpec
  import opened Arena

  /** Number of leading `true`s in `coins`. */
  function LeadingTrue(coins: seq<bool>): (n: nat)
    ensures n <= |coins|
    ensures forall i :: 0 <= i < n ==> coins[i]
    ensures n < |coins| ==> !coins[n]
  {
    if |coins| == 0 || !coins[0] then 0 else 1 + LeadingTrue(coins[1..])
  }

  /** The level randomLevel draws when `coins[i]` is the outcome of its
      (i+1)-th `rand.Float64() < p` test and `cap` stops the growth. */
  function DrawnLevel(coins: seq<bool>, cap: int): int
  {
    if 1 + LeadingTrue(coins) < cap then 1 + LeadingTrue(coins) else cap
  }

  /** randomLevel as written: the cap is MAX_LEVEL. */
  method RandomLevel(coins: seq<bool>) returns (level: int)
    requires |coins| >= MAX_LEVEL
    ensures 1 <= level <= MAX_LEVEL
    ensures level == DrawnLevel(coins, MAX_LEVEL)
  {
    level := 1;
    while coins[level - 1] && level < MAX_LEVEL
      invariant 1 <= level <= MAX_LEVEL
      invariant forall i :: 0 <= i < level - 1 ==> coins[i]
    {
      level := level + 1;
    }
  }

  /** randomLevel with the cap every later step can accept: MAX_LEVEL - 1. */
  method RandomLevelCapped(coins: seq<bool>) returns (level: int)
    requires |coins| >= MAX_LEVEL - 1
    ensures 1 <= level <= MAX_LEVEL - 1
    ensures level == DrawnLevel(coins, MAX_LEVEL - 1)
  {
    level := 1;
    while coins[level - 1] && level < MAX_LEVEL - 1
      invariant 1 <= level <= MAX_LEVEL - 1
      invariant forall i :: 0 <= i < level - 1 ==> coins[i]
    {
      level := level + 1;
    }
  }

  class SkipList {
    var keys: seq<string>
    var values: seq<string>
    var stamps: seq<int64>
    var next: seq<seq<int>>
    /** Real nodes in level-0 order. */
    ghost var order: seq<int>
    /** Number of levels each node of `order` is linked on. */
    ghost var heights: seq<int>
    /** Position of each node in `order` (-1 for the head). */
    ghost var slot: seq<int>
    /** The entries in list order: the abstract value of the list. */
    ghost var contents: seq<Entry>

    ghost predicate Valid()
      reads this
    {
      ListInv(keys, values, stamps, next, order, heights, slot, contents)
    }

    /** New: an empty list whose head has MAX_LEVEL nil pointers. */
    constructor ()
      ensures Valid() && contents == []
      ensures |next| == 1 && next[HEAD] == seq(MAX_LEVEL, _ => NIL)
    {
      keys, values, stamps := [""], [""], [0];
      next := [seq(MAX_LEVEL, _ => NIL)];
      order, heights, contents, slot := [], [], [], [-1];
    }

    /** As written, every draw succeeding makes randomLevel return
        MAX_LEVEL. Insert's splice loop starts at i = level, but the head has
        pointers 0 .. MAX_LEVEL - 1 only (and findGreaterOrEqual fills prev
        on those levels only): the level is the head's pointer count, one
        past its last pointer. */
    lemma RandomLevelReachesMax(coins: seq<bool>)
      requires Valid()
      requires |coins| >= MAX_LEVEL && forall i :: 0 <= i < |coins| ==> coins[i]
      ensures DrawnLevel(coins, MAX_LEVEL) == MAX_LEVEL
      ensures DrawnLevel(coins, MAX_LEVEL) == |next[HEAD]|
    {
      assert LeadingTrue(coins) == |coins|;
    }

    /** memtable.go line 94's test on node `n`: it is ordered before `(key, ts)`. */
    predicate NodeBefore(n: int, key: string, ts: int64)
      reads this
      requires 0 <= n < |keys| && |stamps| == |keys|
    {
      StrLess(keys[n], key) || (keys[n] == key && stamps[n] > ts)
    }

    /** The node at position r is before `(key, ts)` exactly when r is below
        the insertion position. */
    lemma {:induction false} NodeBeforeAt(key: string, ts: int64, r: int)
      requires Valid() && 0 <= r < |order|
      ensures 1 <= order[r] < |keys|
      ensures NodeBefore(order[r], key, ts) <==> r < InsertPos(contents, key, ts)
    {
      InsertPosSplit(contents, key, ts);
      assert contents[r] == Entry(keys[order[r]], values[order[r]], stamps[order[r]]);
    }

    /** On level 0 the scan stops right before the insertion position. */
    lemma {:induction false} LevelZeroStop(k: int)
      requires Valid() && 0 <= k <= |order|
      ensures LastBelow(heights, k, 0) == k - 1 && NextPos(heights, k - 1, 0) == k
    {
      LevelZeroNext(heights, k);
    }

    /** A scan on level `cl` whose next node is not before `(key, ts)` stops
        at the last node before the insertion position on that level; on
        level 0 its next node is the one at the insertion position. */
    lemma {:induction false} ScanStops(key: string, ts: int64, cl: int, pc: int)
      requires Valid() && 0 <= cl < MAX_LEVEL
      requires -1 <= pc < InsertPos(contents, key, ts) && HeightAt(heights, pc) > cl
      requires NextPos(heights, pc, cl) >= InsertPos(contents, key, ts)
      ensures pc == LastBelow(heights, InsertPos(contents, key, ts), cl)
      ensures cl == 0 ==> NextPos(heights, pc, cl) == InsertPos(contents, key, ts)
    {
      var k := InsertPos(contents, key, ts);
      LastBelowUnique(heights, k, cl, pc);
      if cl == 0 {
        LevelZeroStop(k);
      }
    }

    /** One step of the scan on level `cl` from position `pc`: the pointer
        read there, and whether the node it reaches is before `(key, ts)`. */
    lemma {:induction false} ScanStep(key: string, ts: int64, cl: int, pc: int)
      requires Valid() && 0 <= cl < MAX_LEVEL
      requires -1 <= pc < |order| && HeightAt(heights, pc) > cl
      ensures 0 <= NodeAt(order, pc) < |next| && cl < |next[NodeAt(order, pc)]|
      ensures next[NodeAt(order, pc)][cl] == NodeAt(order, NextPos(heights, pc, cl))
      ensures NextPos(heights, pc, cl) < |order| ==>
        var r := NextPos(heights, pc, cl);
        1 <= NodeAt(order, r) < |keys| && HeightAt(heights, r) > cl &&
        (NodeBefore(NodeAt(order, r), key, ts) <==> r < InsertPos(contents, key, ts))
    {
      LinkOf(next, order, heights, slot, pc, cl);
      var r := NextPos(heights, pc, cl);
      if r < |order| {
        NodeBeforeAt(key, ts, r);
      }
    }

    /** The inner loop of findGreaterOrEqual on level `cl`: from the node at
        position `pc`, move right while the next node is before `(key, ts)`.
        It stops at the last node before the target on that level. */
    method AdvanceOnLevel(key: string, ts: int64, cl: int, c0: int, ghost pc0: int)
      returns (c: int, nextAtLevel: int, ghost pc: int)
      requires Valid() && 0 <= cl < MAX_LEVEL
      requires -1 <= pc0 < InsertPos(contents, key, ts) && c0 == NodeAt(order, pc0)
      requires HeightAt(heights, pc0) > cl
      ensures pc0 <= pc && pc == LastBelow(heights, InsertPos(contents, key, ts), cl)
      ensures c == NodeAt(order, pc) && HeightAt(heights, pc) > cl
      ensures nextAtLevel == NodeAt(order, NextPos(heights, pc, cl))
      ensures cl == 0 ==> nextAtLevel == NodeAt(order, InsertPos(contents, key, ts))
    {
      ghost var k := InsertPos(contents, key, ts);
      c, pc := c0, pc0;
      ScanStep(key, ts, cl, pc);
      nextAtLevel := next[c][cl];
      ghost var r := NextPos(heights, pc, cl);
      while nextAtLevel != NIL && NodeBefore(nextAtLevel, key, ts)
        invariant pc0 <= pc < k && c == NodeAt(order, pc)
        invariant HeightAt(heights, pc) > cl
        invariant r == NextPos(heights, pc, cl) && nextAtLevel == NodeAt(order, r)
        invariant r < |order| ==>
          1 <= nextAtLevel < |keys| && HeightAt(heights, r) > cl && (NodeBefore(nextAtLevel, key, ts) <==> r < k)
        decreases |order| - pc
      {
        pc := r;
        c := nextAtLevel;
        ScanStep(key, ts, cl, pc);
        nextAtLevel := next[c][cl];
        r := NextPos(heights, pc, cl);
      }
      ScanStops(key, ts, cl, pc);
    }

    /** findGreaterOrEqual: the first node not before `(key, ts)` (or NIL), and
        on each level the last node before it (or the head). */
    method FindGreaterOrEqual(key: string, ts: int64) returns (found: int, prev: seq<int>)
      requires Valid()
      ensures found == NodeAt(order, InsertPos(contents, key, ts))
      ensures |prev| == MAX_LEVEL
      ensures forall l :: 0 <= l < MAX_LEVEL ==>
        prev[l] == NodeAt(order, LastBelow(heights, InsertPos(contents, key, ts), l))
    {
      ghost var k := InsertPos(contents, key, ts);
      var c := HEAD;
      ghost var pc := -1;
      var nextAtLevel := NIL;
      prev := seq(MAX_LEVEL, _ => NIL);
      var cl := MAX_LEVEL - 1;
      while cl >= 0
        invariant -1 <= cl < MAX_LEVEL && |prev| == MAX_LEVEL
        invariant -1 <= pc < k && c == NodeAt(order, pc)
        invariant cl >= 0 ==> HeightAt(heights, pc) > cl
        invariant cl < 0 ==> nextAtLevel == NodeAt(order, k)
        invariant forall l :: cl < l < MAX_LEVEL ==> prev[l] == NodeAt(order, LastBelow(heights, k, l))
      {
        c, nextAtLevel, pc := AdvanceOnLevel(key, ts, cl, c, pc);
        prev := prev[cl := c];
        cl := cl - 1;
      }
      found := nextAtLevel;
    }

    /** Find: the value of the newest version of `key`, or ("", false). */
    method Find(key: string) returns (value: string, ok: bool)
      requires Valid()
      ensures ok <==> exists i :: 0 <= i < |contents| && contents[i].key == key
      ensures ok ==> Lookup(contents, key) == Some(value)
      ensures !ok ==> value == ""
    {
      var n, _ := FindGreaterOrEqual(key, MAX_INT64);
      LookupAtInsertPos(contents, key);
      LookupNewest(contents, key);
      if n != NIL && keys[n] == key {
        return values[n], true;
      }
      return "", false;
    }

    /** The second half of Insert: a new node for `(key, value, ts)` with
        pointers on levels 0 .. level is spliced in after the predecessors
        `prev` that findGreaterOrEqual reported. */
    method LinkNewNode(key: string, value: string, ts: int64, level: int, prev: seq<int>)
      requires Valid() && !HasVersion(contents, key, ts)
      requires 1 <= level < MAX_LEVEL && |prev| == MAX_LEVEL
      requires forall l :: 0 <= l < MAX_LEVEL ==>
        prev[l] == NodeAt(order, LastBelow(heights, InsertPos(contents, key, ts), l))
      modifies this
      ensures Valid()
      ensures var k := InsertPos(old(contents), key, ts);
        contents == old(contents)[..k] + [Entry(key, value, ts)] + old(contents)[k..]
      ensures |next| == old(|next|) + 1 && |next[old(|next|)]| == level + 1
      ensures keys == old(keys) + [key] && values == old(values) + [value] && stamps == old(stamps) + [ts]
      ensures forall n :: 0 <= n < old(|next|) ==> |next[n]| == old(|next[n]|)
    {
      keys, values, stamps, next, order, heights, slot, contents :=
        Splice(keys, values, stamps, next, order, heights, slot, contents, key, value, ts, level, prev);
    }

    /** Insert: findGreaterOrEqual, the duplicate check (a panic in the
        source, here a `false` result before anything changes), randomLevel
        drawn from `coins` with its cap corrected to MAX_LEVEL - 1, then the
        splice of a node linked on levels 0 .. level. */
    method Insert(key: string, value: string, ts: int64, coins: seq<bool>) returns (inserted: bool)
      requires Valid()
      requires |coins| >= MAX_LEVEL - 1
      modifies this
      ensures Valid()
      ensures inserted <==> !HasVersion(old(contents), key, ts)
      ensures inserted ==> var k := InsertPos(old(contents), key, ts);
        contents == old(contents)[..k] + [Entry(key, value, ts)] + old(contents)[k..]
      ensures inserted ==>
        |next| == old(|next|) + 1 && |next[old(|next|)]| == DrawnLevel(coins, MAX_LEVEL - 1) + 1
      ensures inserted ==>
        keys == old(keys) + [key] && values == old(values) + [value] && stamps == old(stamps) + [ts]
      ensures !inserted ==>
        keys == old(keys) && values == old(values) && stamps == old(stamps) && next == old(next) && contents == old(contents)
      ensures forall n :: 0 <= n < old(|next|) ==> |next[n]| == old(|next[n]|)
    {
      var found, prev := FindGreaterOrEqual(key, ts);
      HasVersionAtInsertPos(contents, key, ts);
      if found != NIL && keys[found] == key && stamps[found] == ts {
        return false;
      }
      var level := RandomLevelCapped(coins);
      LinkNewNode(key, value, ts, level, prev);
      inserted := true;
    }
  }
}
