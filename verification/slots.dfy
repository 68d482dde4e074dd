/**
 * The slot store of ADS_set: one array of slots, a hash-addressed primary
 * region, the cellar behind it and one `End` sentinel at the very end.
 * This module holds the slot datatype and the counting functions that relate
 * the slots to the set of stored keys.
 */
module Slots {

  /** `Mode` of a slot: free, holding a key, or the end sentinel. */
  datatype Mode = Free | Used | End

  /**
   * One `element` of the table. `next` and `prev` are slot indices, with
   * -1 meaning "no link". A freed slot keeps its old key, as the source does.
   */
  datatype Slot<K> = Slot(mode: Mode, key: K, next: int, prev: int)

  /** `j` is an index of the table proper (not the sentinel). */
  predicate InRange<K>(s: seq<Slot<K>>, j: int)
  {
    0 <= j < |s| - 1
  }

  /** `h`: the home index of `k` in a primary region of `t` slots. */
  function Home<K>(hash: K -> nat, t: nat, k: K): (h: nat)
    requires t > 0
    ensures h < t
  {
    hash(k) % t
  }

  function Bit(m: Mode): nat
  {
    if m == Used then 1 else 0
  }

  /** The number of `Used` slots in `s`. */
  function UsedCount<K>(s: seq<Slot<K>>): (n: nat)
    ensures n <= |s|
  {
    if s == [] then 0 else UsedCount(s[..|s| - 1]) + Bit(s[|s| - 1].mode)
  }

  /** The keys of the `Used` slots of `s`, in slot order (what iteration yields). */
  function UsedKeys<K>(s: seq<Slot<K>>): (ks: seq<K>)
    ensures |ks| == UsedCount(s)
  {
    if s == [] then []
    else if s[|s| - 1].mode == Used then UsedKeys(s[..|s| - 1]) + [s[|s| - 1].key]
    else UsedKeys(s[..|s| - 1])
  }

  /** The set of keys stored in `s`. */
  ghost function KeySet<K>(s: seq<Slot<K>>): set<K>
  {
    set i | 0 <= i < |s| && s[i].mode == Used :: s[i].key
  }

  /** No key is stored twice. */
  ghost predicate Unique<K>(s: seq<Slot<K>>)
  {
    forall i, j {:trigger s[i].key, s[j].key} ::
      0 <= i < |s| && 0 <= j < |s| && s[i].mode == Used && s[j].mode == Used && s[i].key == s[j].key
      ==> i == j
  }

  /** Overwriting one slot changes the count by the modes of the old and new slot. */
  lemma {:induction false} UsedCountUpdate<K>(s: seq<Slot<K>>, i: nat, v: Slot<K>)
    requires i < |s|
    ensures UsedCount(s[i := v]) == UsedCount(s) - Bit(s[i].mode) + Bit(v.mode)
  {
    var n := |s| - 1;
    if i == n {
      assert s[i := v][..n] == s[..n];
    } else {
      assert s[i := v][..n] == s[..n][i := v];
      UsedCountUpdate(s[..n], i, v);
    }
  }

  /** A used slot at `i` is counted in `s` but not in the prefix before it. */
  lemma {:induction false} UsedCountPrefix<K>(s: seq<Slot<K>>, i: nat)
    requires i < |s| && s[i].mode == Used
    ensures UsedCount(s[..i]) < UsedCount(s)
  {
    var n := |s| - 1;
    if i == n {
      assert s[..n] == s[..i];
    } else {
      assert s[..n][..i] == s[..i];
      UsedCountPrefix(s[..n], i);
    }
  }

  /** Fewer used slots than slots: some slot is not used. */
  lemma {:induction false} SomeUnused<K>(s: seq<Slot<K>>)
    requires UsedCount(s) < |s|
    ensures exists i :: 0 <= i < |s| && s[i].mode != Used
  {
    var n := |s| - 1;
    if s[n].mode == Used {
      SomeUnused(s[..n]);
      var i :| 0 <= i < n && s[..n][i].mode != Used;
      assert s[i].mode != Used;
    }
  }

  /** The keys yielded in slot order are exactly the stored keys. */
  lemma {:induction false} UsedKeysMembers<K>(s: seq<Slot<K>>)
    ensures forall k :: k in UsedKeys(s) ==> k in KeySet(s)
    ensures forall k :: k in KeySet(s) ==> k in UsedKeys(s)
  {
    if s != [] {
      var n := |s| - 1;
      UsedKeysMembers(s[..n]);
      forall k | k in KeySet(s) ensures k in UsedKeys(s) {
        var i :| 0 <= i < |s| && s[i].mode == Used && s[i].key == k;
        if i < n {
          assert s[..n][i] == s[i];
          assert k in KeySet(s[..n]);
        }
      }
      forall k | k in KeySet(s[..n]) ensures k in KeySet(s) {
        var i :| 0 <= i < n && s[..n][i].mode == Used && s[..n][i].key == k;
        assert s[i] == s[..n][i];
      }
    }
  }

  /** With unique keys the slot-order key sequence has no repetition. */
  lemma {:induction false} UsedKeysDistinct<K>(s: seq<Slot<K>>)
    requires Unique(s)
    ensures forall a, b :: 0 <= a < b < |UsedKeys(s)| ==> UsedKeys(s)[a] != UsedKeys(s)[b]
  {
    if s != [] {
      var n := |s| - 1;
      var p := s[..n];
      assert Unique(p) by {
        forall i, j | 0 <= i < |p| && 0 <= j < |p| && p[i].mode == Used && p[j].mode == Used
          && p[i].key == p[j].key
          ensures i == j
        {
          assert p[i] == s[i] && p[j] == s[j];
        }
      }
      UsedKeysDistinct(p);
      if s[n].mode == Used {
        UsedKeysMembers(p);
        forall i | 0 <= i < |p| && p[i].mode == Used ensures p[i].key != s[n].key {
          assert p[i] == s[i];
        }
        assert s[n].key !in KeySet(p);
      }
    }
  }

  /** A sequence without repetition has as many distinct elements as entries. */
  lemma {:induction false} DistinctCard<K>(q: seq<K>)
    requires forall a, b :: 0 <= a < b < |q| ==> q[a] != q[b]
    ensures |set k | k in q| == |q|
  {
    if q != [] {
      var n := |q| - 1;
      DistinctCard(q[..n]);
      var front := set k | k in q[..n];
      assert q[n] !in front;
      assert (set k | k in q) == front + {q[n]} by {
        forall k | k in q ensures k in front + {q[n]} {
          var a :| 0 <= a < |q| && q[a] == k;
          if a < n { assert q[..n][a] == k; }
        }
      }
    }
  }

  /** With unique keys, the number of used slots is the number of stored keys. */
  lemma KeySetCard<K>(s: seq<Slot<K>>)
    requires Unique(s)
    ensures |KeySet(s)| == UsedCount(s)
  {
    UsedKeysMembers(s);
    UsedKeysDistinct(s);
    DistinctCard(UsedKeys(s));
    var ks := set k | k in UsedKeys(s);
    forall k | k in KeySet(s) ensures k in ks {
      assert k in UsedKeys(s);
    }
    forall k | k in ks ensures k in KeySet(s) {
      assert k in UsedKeys(s);
    }
    assert ks == KeySet(s);
  }
  /** Changing only the links of a slot keeps the stored keys, their count and their uniqueness. */
  lemma RelinkSlot<K>(s: seq<Slot<K>>, i: nat, v: Slot<K>)
    requires i < |s| && v.mode == s[i].mode && v.key == s[i].key
    ensures KeySet(s[i := v]) == KeySet(s)
    ensures UsedCount(s[i := v]) == UsedCount(s)
    ensures Unique(s) ==> Unique(s[i := v])
  {
    var s2 := s[i := v];
    UsedCountUpdate(s, i, v);
    forall k | k in KeySet(s) ensures k in KeySet(s2) {
      var j :| 0 <= j < |s| && s[j].mode == Used && s[j].key == k;
      assert s2[j].mode == Used && s2[j].key == k;
    }
    forall k | k in KeySet(s2) ensures k in KeySet(s) {
      var j :| 0 <= j < |s2| && s2[j].mode == Used && s2[j].key == k;
      assert s[j].mode == Used && s[j].key == k;
    }
  }

  /** Filling an unused slot with a new key adds exactly that key. */
  lemma FillSlot<K>(s: seq<Slot<K>>, i: nat, v: Slot<K>)
    requires i < |s| && s[i].mode != Used && v.mode == Used
    ensures KeySet(s[i := v]) == KeySet(s) + {v.key}
    ensures UsedCount(s[i := v]) == UsedCount(s) + 1
    ensures Unique(s) && v.key !in KeySet(s) ==> Unique(s[i := v])
  {
    var s2 := s[i := v];
    UsedCountUpdate(s, i, v);
    forall k | k in KeySet(s) ensures k in KeySet(s2) {
      var j :| 0 <= j < |s| && s[j].mode == Used && s[j].key == k;
      assert s2[j] == s[j];
    }
    forall k | k in KeySet(s2) ensures k in KeySet(s) + {v.key} {
      var j :| 0 <= j < |s2| && s2[j].mode == Used && s2[j].key == k;
      if j != i {
        assert s[j] == s2[j];
      }
    }
    assert s2[i].mode == Used;
    if Unique(s) && v.key !in KeySet(s) {
      forall a, b | 0 <= a < |s2| && 0 <= b < |s2| && s2[a].mode == Used && s2[b].mode == Used
        && s2[a].key == s2[b].key
        ensures a == b
      {
        if a != i && b != i {
          assert s[a] == s2[a] && s[b] == s2[b];
        }
      }
    }
  }

  /** Freeing a used slot removes exactly its key, when keys are unique. */
  lemma ClearSlot<K>(s: seq<Slot<K>>, i: nat, v: Slot<K>)
    requires i < |s| && s[i].mode == Used && v.mode != Used && Unique(s)
    ensures KeySet(s[i := v]) == KeySet(s) - {s[i].key}
    ensures UsedCount(s[i := v]) == UsedCount(s) - 1
    ensures Unique(s[i := v])
  {
    var s2 := s[i := v];
    UsedCountUpdate(s, i, v);
    forall k | k in KeySet(s) - {s[i].key} ensures k in KeySet(s2) {
      var j :| 0 <= j < |s| && s[j].mode == Used && s[j].key == k;
      assert j != i;
      assert s2[j] == s[j];
    }
    forall k | k in KeySet(s2) ensures k in KeySet(s) - {s[i].key} {
      var j :| 0 <= j < |s2| && s2[j].mode == Used && s2[j].key == k;
      assert j != i;
      assert s[j] == s2[j];
    }
    forall a, b | 0 <= a < |s2| && 0 <= b < |s2| && s2[a].mode == Used && s2[b].mode == Used
      && s2[a].key == s2[b].key
      ensures a == b
    {
      assert s[a] == s2[a] && s[b] == s2[b];
    }
  }

  /**
   * Where the iterator's skip stops from `p`: the first slot at or after `p`
   * that is used or the sentinel.
   */
  function NextStop<K>(s: seq<Slot<K>>, p: nat): (q: nat)
    requires p < |s| && s[|s| - 1].mode == End
    ensures p <= q < |s| && (s[q].mode == Used || s[q].mode == End)
    ensures forall j :: p <= j < q ==> s[j].mode == Free
    decreases |s| - p
  {
    if s[p].mode == Used || s[p].mode == End then p else NextStop(s, p + 1)
  }

  /** Visiting one more slot appends its key when it is used. */
  lemma UsedKeysStep<K>(s: seq<Slot<K>>, p: nat)
    requires p < |s|
    ensures UsedKeys(s[..p + 1]) == if s[p].mode == Used then UsedKeys(s[..p]) + [s[p].key] else UsedKeys(s[..p])
  {
    assert s[..p + 1][..p] == s[..p];
  }

  /** A run of unused slots contributes no keys. */
  lemma {:induction false} UsedKeysSkip<K>(s: seq<Slot<K>>, p: nat, q: nat)
    requires p <= q <= |s|
    requires forall j :: p <= j < q ==> s[j].mode != Used
    ensures UsedKeys(s[..q]) == UsedKeys(s[..p])
    decreases q - p
  {
    if p < q {
      UsedKeysStep(s, q - 1);
      UsedKeysSkip(s, p, q - 1);
    }
  }

  /** A table without used slots stores nothing. */
  lemma {:induction false} EmptyTable<K>(s: seq<Slot<K>>)
    requires forall i :: 0 <= i < |s| ==> s[i].mode != Used
    ensures UsedCount(s) == 0 && KeySet(s) == {} && Unique(s)
  {
    if s != [] {
      EmptyTable(s[..|s| - 1]);
    }
  }

  /** Extending a prefix by one slot adds that slot's key when it is used. */
  lemma KeySetStep<K>(s: seq<Slot<K>>, p: nat)
    requires p < |s|
    ensures KeySet(s[..p + 1]) == if s[p].mode == Used then KeySet(s[..p]) + {s[p].key} else KeySet(s[..p])
    ensures UsedCount(s[..p + 1]) == UsedCount(s[..p]) + Bit(s[p].mode)
  {
    var a := s[..p];
    var b := s[..p + 1];
    assert b[..p] == a;
    forall k | k in KeySet(b) ensures k in KeySet(a) || (s[p].mode == Used && k == s[p].key) {
      var j :| 0 <= j < |b| && b[j].mode == Used && b[j].key == k;
      if j < p {
        assert a[j] == b[j];
      }
    }
    forall k | k in KeySet(a) ensures k in KeySet(b) {
      var j :| 0 <= j < |a| && a[j].mode == Used && a[j].key == k;
      assert b[j] == a[j];
    }
    if s[p].mode == Used {
      assert b[p] == s[p];
    }
  }

  /** With unique keys, a used slot's key does not occur in the slots before it. */
  lemma KeySetPrefixUnique<K>(s: seq<Slot<K>>, p: nat)
    requires p < |s| && s[p].mode == Used && Unique(s)
    ensures s[p].key !in KeySet(s[..p])
  {
    forall j | 0 <= j < p && s[..p][j].mode == Used ensures s[..p][j].key != s[p].key {
      assert s[..p][j] == s[j];
    }
  }

  /** Dropping an unused last slot (the sentinel) keeps the keys and the count. */
  lemma DropSentinel<K>(s: seq<Slot<K>>)
    requires |s| > 0 && s[|s| - 1].mode != Used
    ensures KeySet(s[..|s| - 1]) == KeySet(s) && UsedCount(s[..|s| - 1]) == UsedCount(s)
  {
    var n := |s| - 1;
    assert s[..n + 1] == s;
    KeySetStep(s, n);
  }
}
