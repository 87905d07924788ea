/** Pure specification of the memtable's skip list: Go's byte-wise string
    order, the (key ascending, timestamp descending) entry order, sorted
    entry sequences, the newest-version lookup and the level links of a
    skip list described by the heights of its nodes. */
module SkipSpec {
  import opened Wrappers

  const MAX_LEVEL: int := 16
  const MAX_INT64: int := 0x7fff_ffff_ffff_ffff
  const MIN_INT64: int := -0x8000_0000_0000_0000

  type int64 = x: int | MIN_INT64 <= x <= MAX_INT64

  /** One version of a key, as stored in a skip-list node. */
  datatype Entry = Entry(key: string, value: string, timestamp: int64)

  /** Go's `a < b` on strings: lexicographic comparison, element by element. */
  predicate StrLess(a: string, b: string)
    decreases |a|
  {
    if |a| == 0 then |b| > 0
    else if |b| == 0 then false
    else if a[0] < b[0] then true
    else if a[0] == b[0] then StrLess(a[1..], b[1..])
    else false
  }

  lemma {:induction false} StrLessIrreflexive(a: string)
    ensures !StrLess(a, a)
    decreases |a|
  {
    if |a| > 0 {
      StrLessIrreflexive(a[1..]);
    }
  }

  lemma {:induction false} StrLessTransitive(a: string, b: string, c: string)
    requires StrLess(a, b) && StrLess(b, c)
    ensures StrLess(a, c)
    decreases |a|
  {
    if |a| > 0 && a[0] == b[0] && b[0] == c[0] {
      StrLessTransitive(a[1..], b[1..], c[1..]);
    }
  }

  lemma {:induction false} StrLessTotal(a: string, b: string)
    ensures a == b || StrLess(a, b) || StrLess(b, a)
    decreases |a|
  {
    if |a| > 0 && |b| > 0 && a[0] == b[0] {
      StrLessTotal(a[1..], b[1..]);
      if a[1..] == b[1..] {
        assert a == [a[0]] + a[1..] && b == [b[0]] + b[1..];
      }
    }
  }

  lemma {:induction false} StrLessAsymmetric(a: string, b: string)
    requires StrLess(a, b)
    ensures !StrLess(b, a)
  {
    if StrLess(b, a) {
      StrLessTransitive(a, b, a);
      StrLessIrreflexive(a);
    }
  }

  /** The skip list's node order (memtable.go line 94): `e` is strictly
      before the search target `(key, ts)`. */
  predicate Before(e: Entry, key: string, ts: int64)
  {
    StrLess(e.key, key) || (e.key == key && e.timestamp > ts)
  }

  predicate Precedes(a: Entry, b: Entry)
  {
    Before(a, b.key, b.timestamp)
  }

  lemma {:induction false} PrecedesTransitive(a: Entry, b: Entry, c: Entry)
    requires Precedes(a, b) && Precedes(b, c)
    ensures Precedes(a, c)
  {
    if StrLess(a.key, b.key) && StrLess(b.key, c.key) {
      StrLessTransitive(a.key, b.key, c.key);
    }
  }

  /** Precedes is a strict total order on (key, timestamp) pairs. */
  lemma {:induction false} PrecedesTotal(a: Entry, b: Entry)
    ensures (a.key == b.key && a.timestamp == b.timestamp) || Precedes(a, b) || Precedes(b, a)
    ensures !(Precedes(a, b) && Precedes(b, a))
  {
    StrLessTotal(a.key, b.key);
    if StrLess(a.key, b.key) {
      StrLessAsymmetric(a.key, b.key);
      StrLessIrreflexive(a.key);
    } else if StrLess(b.key, a.key) {
      StrLessAsymmetric(b.key, a.key);
      StrLessIrreflexive(a.key);
    } else {
      StrLessIrreflexive(a.key);
    }
  }

  /** Strictly sorted by (key ascending, timestamp descending). */
  ghost predicate Sorted(s: seq<Entry>)
  {
    forall i, j :: 0 <= i < j < |s| ==> Precedes(s[i], s[j])
  }

  /** Index of the first entry not before the target `(key, ts)`:
      the position where an entry `(key, ts)` belongs. */
  function InsertPos(s: seq<Entry>, key: string, ts: int64): (k: nat)
    ensures k <= |s|
    ensures forall j :: 0 <= j < k ==> Before(s[j], key, ts)
    ensures k < |s| ==> !Before(s[k], key, ts)
  {
    if |s| == 0 || !Before(s[0], key, ts) then 0
    else 1 + InsertPos(s[1..], key, ts)
  }

  /** In a sorted sequence nothing from InsertPos on is before the target. */
  lemma {:induction false} InsertPosSplit(s: seq<Entry>, key: string, ts: int64)
    requires Sorted(s)
    ensures forall j :: InsertPos(s, key, ts) <= j < |s| ==> !Before(s[j], key, ts)
  {
    var k := InsertPos(s, key, ts);
    forall j | k <= j < |s|
      ensures !Before(s[j], key, ts)
    {
      if j > k && Before(s[j], key, ts) {
        PrecedesTransitive(s[k], s[j], Entry(key, "", ts));
        assert false;
      }
    }
  }

  /** Some entry carries exactly this (key, timestamp) pair. */
  ghost predicate HasVersion(s: seq<Entry>, key: string, ts: int64)
  {
    exists i :: 0 <= i < |s| && s[i].key == key && s[i].timestamp == ts
  }

  /** The pair (key, ts) is present iff it sits at its insertion position. */
  lemma {:induction false} HasVersionAtInsertPos(s: seq<Entry>, key: string, ts: int64)
    requires Sorted(s)
    ensures var k := InsertPos(s, key, ts);
      HasVersion(s, key, ts) <==> (k < |s| && s[k].key == key && s[k].timestamp == ts)
  {
    var k := InsertPos(s, key, ts);
    InsertPosSplit(s, key, ts);
    if HasVersion(s, key, ts) {
      var i :| 0 <= i < |s| && s[i].key == key && s[i].timestamp == ts;
      StrLessIrreflexive(key);
      assert !Before(s[i], key, ts);
      if i > k {
        assert false;
      }
    }
  }

  /** Inserting an absent pair at its insertion position keeps the sequence sorted. */
  lemma {:induction false} SortedInsert(s: seq<Entry>, e: Entry)
    requires Sorted(s) && !HasVersion(s, e.key, e.timestamp)
    ensures var k := InsertPos(s, e.key, e.timestamp);
      Sorted(s[..k] + [e] + s[k..])
  {
    var k := InsertPos(s, e.key, e.timestamp);
    var t := s[..k] + [e] + s[k..];
    InsertPosSplit(s, e.key, e.timestamp);
    forall j | k <= j < |s|
      ensures Precedes(e, s[j])
    {
      PrecedesTotal(s[j], e);
      if s[j].key == e.key && s[j].timestamp == e.timestamp {
        assert HasVersion(s, e.key, e.timestamp);
      }
    }
    forall i, j | 0 <= i < j < |t|
      ensures Precedes(t[i], t[j])
    {
      if j == k {
        assert t[i] == s[i];
      } else if i == k {
        assert t[j] == s[j - 1];
      } else {
        var i' := if i < k then i else i - 1;
        var j' := if j < k then j else j - 1;
        assert t[i] == s[i'] && t[j] == s[j'];
      }
    }
  }

  /** Index of the first entry whose key is `key`, if any. */
  function FirstWithKey(s: seq<Entry>, key: string): (r: Option<nat>)
    ensures r.Some? ==> r.value < |s| && s[r.value].key == key &&
                        forall j :: 0 <= j < r.value ==> s[j].key != key
    ensures r.None? ==> forall j :: 0 <= j < |s| ==> s[j].key != key
  {
    if |s| == 0 then None
    else if s[0].key == key then Some(0)
    else match FirstWithKey(s[1..], key)
      case None => None
      case Some(i) => Some(i + 1)
  }

  /** The value of the newest version of `key` (the `Find` specification). */
  function Lookup(s: seq<Entry>, key: string): Option<string>
  {
    match FirstWithKey(s, key)
    case None => None
    case Some(i) => Some(s[i].value)
  }

  /** In a sorted sequence, Lookup returns the value of the version of `key`
      with the largest timestamp, and None exactly when the key is absent. */
  lemma {:induction false} LookupNewest(s: seq<Entry>, key: string)
    requires Sorted(s)
    ensures Lookup(s, key).None? <==> forall j :: 0 <= j < |s| ==> s[j].key != key
    ensures Lookup(s, key).Some? ==>
      exists i :: 0 <= i < |s| && s[i].key == key && s[i].value == Lookup(s, key).value &&
        forall j :: 0 <= j < |s| && s[j].key == key ==> s[j].timestamp <= s[i].timestamp
  {
    match FirstWithKey(s, key)
    case None =>
    case Some(i) =>
      forall j | 0 <= j < |s| && s[j].key == key
        ensures s[j].timestamp <= s[i].timestamp
      {
        if j > i {
          assert Precedes(s[i], s[j]);
          StrLessIrreflexive(key);
        }
      }
  }

  /** The first entry not before `(key, MAX_INT64)` has key `key` exactly when
      Lookup finds the key, and it is the entry Lookup reports. */
  lemma {:induction false} LookupAtInsertPos(s: seq<Entry>, key: string)
    requires Sorted(s)
    ensures var k := InsertPos(s, key, MAX_INT64);
      Lookup(s, key) == if k < |s| && s[k].key == key then Some(s[k].value) else None
  {
    var k := InsertPos(s, key, MAX_INT64);
    InsertPosSplit(s, key, MAX_INT64);
    StrLessIrreflexive(key);
    assert forall j :: 0 <= j < k ==> s[j].key != key;
    forall j | k < j < |s| && s[j].key == key && k < |s|
      ensures s[k].key == key
    {
      assert Precedes(s[k], s[j]);
    }
  }

  // ---------------------------------------------------------------------
  // Level links. A skip list whose nodes, in level-0 order, have heights
  // `hs` (a node of height h is linked on levels 0 .. h-1) links the node at
  // position p on level l to the position NextPos(hs, p, l); position -1 is
  // the head sentinel and position |hs| stands for nil.

  /** The first position after `p` whose node is linked on level `l`. */
  function NextPos(hs: seq<int>, p: int, l: int): (r: int)
    requires -1 <= p < |hs|
    ensures p < r <= |hs|
    ensures r < |hs| ==> hs[r] > l
    ensures forall j :: p < j < r ==> hs[j] <= l
    decreases |hs| - p
  {
    if p + 1 == |hs| then |hs|
    else if hs[p + 1] > l then p + 1
    else NextPos(hs, p + 1, l)
  }

  /** NextPos is determined by its contract. */
  lemma {:induction false} NextPosUnique(hs: seq<int>, p: int, l: int, r: int)
    requires -1 <= p < r <= |hs|
    requires r < |hs| ==> hs[r] > l
    requires forall j :: p < j < r ==> hs[j] <= l
    ensures NextPos(hs, p, l) == r
  {
    // NextPos's own contract pins the position down.
  }

  /** Position `p` of the old sequence after an element is inserted at `k`. */
  function Shift(p: int, k: int): int
  {
    if p < k then p else p + 1
  }

  /** `hs2` is `hs` with `h` inserted at position `k`. */
  ghost predicate InsertedAt(hs: seq<int>, k: int, h: int, hs2: seq<int>)
  {
    0 <= k <= |hs| && |hs2| == |hs| + 1 && hs2[k] == h &&
    (forall j :: 0 <= j < k ==> hs2[j] == hs[j]) &&
    (forall j :: k < j < |hs2| ==> hs2[j] == hs[j - 1])
  }

  lemma {:induction false} InsertedAtConcat(hs: seq<int>, k: int, h: int)
    requires 0 <= k <= |hs|
    ensures InsertedAt(hs, k, h, hs[..k] + [h] + hs[k..])
  {
  }

  /** How the level links change when a node of height `h` is inserted at
      position `k`: the new node follows the last node before `k` on each of
      its levels and takes over that node's successor; every other link is
      the old one, renumbered. */
  lemma {:induction false} NextPosAfterInsert(hs: seq<int>, k: int, h: int, hs2: seq<int>, p: int, l: int)
    requires InsertedAt(hs, k, h, hs2) && -1 <= p < |hs|
    ensures var r := NextPos(hs, p, l);
      NextPos(hs2, Shift(p, k), l) ==
        if p < k && k <= r && l < h then k else Shift(r, k)
    ensures var r := NextPos(hs, p, l);
      p < k <= r ==> NextPos(hs2, k, l) == r + 1
  {
    var r := NextPos(hs, p, l);
    if p >= k {
      NextPosPastInsert(hs, k, h, hs2, p, l);
    } else if r < k {
      NextPosBeforeInsert(hs, k, h, hs2, p, l);
    } else {
      NextPosAcrossInsert(hs, k, h, hs2, p, l);
    }
  }

  /** A node after the inserted one keeps its successor, renumbered. */
  lemma {:induction false} NextPosPastInsert(hs: seq<int>, k: int, h: int, hs2: seq<int>, p: int, l: int)
    requires InsertedAt(hs, k, h, hs2) && k <= p < |hs|
    ensures NextPos(hs2, p + 1, l) == NextPos(hs, p, l) + 1
  {
    var r := NextPos(hs, p, l);
    forall j | p + 1 < j < r + 1
      ensures hs2[j] <= l
    {
      assert hs2[j] == hs[j - 1];
    }
    NextPosUnique(hs2, p + 1, l, r + 1);
  }

  /** A node whose successor comes before the insertion point keeps it. */
  lemma {:induction false} NextPosBeforeInsert(hs: seq<int>, k: int, h: int, hs2: seq<int>, p: int, l: int)
    requires InsertedAt(hs, k, h, hs2) && -1 <= p < |hs| && NextPos(hs, p, l) < k
    ensures NextPos(hs2, p, l) == NextPos(hs, p, l)
  {
    var r := NextPos(hs, p, l);
    forall j | p < j < r
      ensures hs2[j] <= l
    {
      assert hs2[j] == hs[j];
    }
    NextPosUnique(hs2, p, l, r);
  }

  /** A node whose link spans the insertion point: on the new node's levels
      it now links to the new node, which links on to the old successor. */
  lemma {:induction false} NextPosAcrossInsert(hs: seq<int>, k: int, h: int, hs2: seq<int>, p: int, l: int)
    requires InsertedAt(hs, k, h, hs2) && -1 <= p < k <= NextPos(hs, p, l)
    ensures NextPos(hs2, p, l) == if l < h then k else NextPos(hs, p, l) + 1
    ensures NextPos(hs2, k, l) == NextPos(hs, p, l) + 1
  {
    var r := NextPos(hs, p, l);
    forall j | p < j < k
      ensures hs2[j] <= l
    {
      assert hs2[j] == hs[j];
    }
    forall j | k < j < r + 1
      ensures hs2[j] <= l
    {
      assert hs2[j] == hs[j - 1];
    }
    NextPosUnique(hs2, k, l, r + 1);
    if l < h {
      NextPosUnique(hs2, p, l, k);
    } else {
      NextPosUnique(hs2, p, l, r + 1);
    }
  }
}
