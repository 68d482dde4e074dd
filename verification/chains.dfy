/**
 * The chain invariant of the coalesced table and the two ways insert_ adds a
 * key: at its free home slot, or as the new tail of the chain that runs
 * through its home slot.
 *
 * A chain is a run of `Used` slots linked by `next`. The invariant is stated
 * with a ghost `Witness`:
 *  - `paths[i]` is the walk along `next` from the home of the key in slot `i`
 *    to slot `i` (every stored key is reachable from its home);
 *  - `rank` strictly increases along every `next` link and stays below
 *    `bound` (chains are acyclic, and a walk along them terminates).
 *
 * The invariant is parameterised by `rem`, the slots that erase has cut off
 * and not yet re-settled; outside erase `rem` is empty.
 */
module Chains {
  import opened Slots

  datatype Witness = Witness(paths: seq<seq<int>>, rank: seq<nat>, bound: nat)

  function Last(x: seq<int>): int
    requires |x| > 0
  {
    x[|x| - 1]
  }

  /** `x` is a walk along `next` links through used slots. */
  ghost predicate IsPath<K>(s: seq<Slot<K>>, x: seq<int>)
  {
    |x| > 0 &&
    (forall k :: 0 <= k < |x| ==> InRange(s, x[k]) && s[x[k]].mode == Used) &&
    (forall k :: 0 <= k < |x| - 1 ==> s[x[k]].next == x[k + 1])
  }

  /** The sentinel is the last slot and the only `End`; the primary region fits the table. */
  ghost predicate Shaped<K>(s: seq<Slot<K>>, t: nat, w: Witness)
  {
    |s| > 0 && s[|s| - 1].mode == End &&
    (forall i :: 0 <= i < |s| - 1 ==> s[i].mode != End) &&
    0 < t <= |s| - 1 &&
    |w.paths| == |s| && |w.rank| == |s|
  }

  /**
   * Slot `i` of the table proper holds a key. Used as the trigger of the
   * invariant's quantifier over slots, so that the invariant of one slot is
   * only produced on demand and not along every `next` link.
   */
  ghost predicate Occupied<K>(s: seq<Slot<K>>, i: int)
  {
    InRange(s, i) && s[i].mode == Used
  }

  /** A used slot that is not waiting to be re-settled. */
  ghost predicate Settled<K>(s: seq<Slot<K>>, rem: seq<int>, j: int)
  {
    InRange(s, j) && s[j].mode == Used && j !in rem
  }

  /** What the invariant demands of one settled slot `i`. */
  ghost predicate SettledOk<K>(s: seq<Slot<K>>, hash: K -> nat, t: nat, w: Witness, rem: seq<int>, i: int)
    requires Shaped(s, t, w) && InRange(s, i)
  {
    var e := s[i];
    var x := w.paths[i];
    w.rank[i] < w.bound &&
    (e.next == -1 || (Settled(s, rem, e.next) && s[e.next].prev == i && w.rank[i] < w.rank[e.next])) &&
    (e.prev == -1 || (Settled(s, rem, e.prev) && s[e.prev].next == i)) &&
    (Home(hash, t, e.key) == i ==> e.prev == -1) &&
    IsPath(s, x) && x[0] == Home(hash, t, e.key) && Last(x) == i &&
    (forall k :: 0 <= k < |x| ==> x[k] !in rem)
  }

  /**
   * The cut-off slots: used, linked in order, distinct, and none has its home
   * at itself or further down the cut-off run.
   */
  ghost predicate RemOk<K>(s: seq<Slot<K>>, hash: K -> nat, t: nat, rem: seq<int>)
    requires t > 0
  {
    (forall k :: 0 <= k < |rem| ==>
      InRange(s, rem[k]) && s[rem[k]].mode == Used && Home(hash, t, s[rem[k]].key) !in rem[k..]) &&
    (forall k :: 0 <= k < |rem| - 1 ==> s[rem[k]].next == rem[k + 1]) &&
    (|rem| > 0 ==> s[rem[|rem| - 1]].next == -1) &&
    (forall a, b :: 0 <= a < b < |rem| ==> rem[a] != rem[b])
  }

  /** The link structure: the shape, every settled slot's obligations, and the run. */
  ghost predicate Linked<K>(s: seq<Slot<K>>, hash: K -> nat, t: nat, w: Witness, rem: seq<int>)
  {
    Shaped(s, t, w) &&
    (forall i {:trigger Occupied(s, i)} :: Occupied(s, i) && i !in rem ==> SettledOk(s, hash, t, w, rem, i)) &&
    RemOk(s, hash, t, rem)
  }

  /** The chain invariant: linked, free slots carry no links, and no key is stored twice. */
  ghost predicate ChainInv<K>(s: seq<Slot<K>>, hash: K -> nat, t: nat, w: Witness, rem: seq<int>)
  {
    Linked(s, hash, t, w, rem) &&
    (forall i :: InRange(s, i) && s[i].mode == Free ==> s[i].next == -1 && s[i].prev == -1) &&
    Unique(s)
  }

  /** The witness after a key is written into its free home slot `h`. */
  function Rooted(w: Witness, h: nat): Witness
    requires h < |w.paths| && h < |w.rank|
  {
    Witness(w.paths[h := [h]], w.rank[h := 0], w.bound + 1)
  }

  /** The witness after slot `n` is linked behind the walk `x`. */
  function Appended(w: Witness, n: nat, x: seq<int>): Witness
    requires n < |w.paths| && n < |w.rank| && |x| > 0 && 0 <= Last(x) < |w.rank|
  {
    Witness(w.paths[n := x + [n]], w.rank[n := w.rank[Last(x)] + 1], w.bound + 1)
  }

  /** A walk keeps its shape in a table that agrees on the modes and links it uses. */
  lemma PathFrame<K>(s: seq<Slot<K>>, s2: seq<Slot<K>>, x: seq<int>)
    requires IsPath(s, x) && |s2| == |s|
    requires forall k :: 0 <= k < |x| ==> s2[x[k]].mode == s[x[k]].mode
    requires forall k :: 0 <= k < |x| - 1 ==> s2[x[k]].next == s[x[k]].next
    ensures IsPath(s2, x)
  {
  }

  /** Rank strictly increases along a walk of settled slots. */
  lemma {:induction false} PathRank<K>(s: seq<Slot<K>>, hash: K -> nat, t: nat, w: Witness, rem: seq<int>, x: seq<int>)
    requires Linked(s, hash, t, w, rem) && IsPath(s, x)
    requires forall k :: 0 <= k < |x| ==> x[k] !in rem
    ensures |x| > 1 ==> w.rank[x[0]] < w.rank[Last(x)]
  {
    if |x| > 1 {
      assert Occupied(s, x[0]);
      assert s[x[0]].next == x[1];
      var y := x[1..];
      assert IsPath(s, y);
      PathRank(s, hash, t, w, rem, y);
      assert Last(y) == Last(x);
    }
  }

  /** A used slot never links to a free slot or to the sentinel. */
  lemma NextIsUsed<K>(s: seq<Slot<K>>, hash: K -> nat, t: nat, w: Witness, i: int)
    requires Linked(s, hash, t, w, []) && Occupied(s, i) && s[i].next != -1
    ensures InRange(s, s[i].next) && s[s[i].next].mode == Used
  {
    assert Occupied(s, i);
  }

  /** Chains are acyclic: a walk along `next` links never visits a slot twice. */
  lemma PathDistinct<K>(s: seq<Slot<K>>, hash: K -> nat, t: nat, w: Witness, x: seq<int>)
    requires Linked(s, hash, t, w, []) && IsPath(s, x)
    ensures forall a, b :: 0 <= a < b < |x| ==> x[a] != x[b]
  {
    forall a, b | 0 <= a < b < |x| ensures x[a] != x[b] {
      var y := x[a..b + 1];
      assert IsPath(s, y) by {
        forall k | 0 <= k < |y| - 1 ensures s[y[k]].next == y[k + 1] {
          assert s[x[a + k]].next == x[a + k + 1];
        }
      }
      PathRank(s, hash, t, w, [], y);
    }
  }

  /** `c` is a whole chain: linked used slots whose last one has no successor. */
  ghost predicate WholeChain<K>(s: seq<Slot<K>>, c: seq<int>)
  {
    (forall k :: 0 <= k < |c| ==> InRange(s, c[k]) && s[c[k]].mode == Used) &&
    (forall k :: 0 <= k < |c| - 1 ==> s[c[k]].next == c[k + 1]) &&
    (|c| > 0 ==> s[c[|c| - 1]].next == -1)
  }

  /** The chain that starts at `j` (empty for -1), collected along `next`. */
  ghost function ChainFrom<K>(s: seq<Slot<K>>, hash: K -> nat, t: nat, w: Witness, j: int): (c: seq<int>)
    requires Linked(s, hash, t, w, [])
    requires j == -1 || (InRange(s, j) && s[j].mode == Used)
    ensures WholeChain(s, c)
    ensures j == -1 ==> c == []
    ensures j != -1 ==> |c| > 0 && c[0] == j
    ensures forall a, b :: 0 <= a < b < |c| ==> w.rank[c[a]] < w.rank[c[b]]
    decreases if j == -1 then 0 else w.bound - w.rank[j]
  {
    if j == -1 then []
    else
      assert Occupied(s, j);
      [j] + ChainFrom(s, hash, t, w, s[j].next)
  }

  /** A walk to `Last(x)` that passes `j` before its end continues with `j`'s successor. */
  lemma PathNext<K>(s: seq<Slot<K>>, x: seq<int>, j: int)
    requires IsPath(s, x) && j in x && j != Last(x)
    ensures s[j].next in x
  {
    var k :| 0 <= k < |x| && x[k] == j;
    assert k < |x| - 1;
    assert s[x[k]].next == x[k + 1];
  }

  /**
   * Every stored key is reachable from its home: a key is stored exactly
   * when some walk along `next` links from its home ends at a slot holding it.
   */
  lemma StoredOnChain<K>(s: seq<Slot<K>>, hash: K -> nat, t: nat, w: Witness, key: K)
    requires Linked(s, hash, t, w, [])
    ensures key in KeySet(s) <==> exists x :: IsPath(s, x) && x[0] == Home(hash, t, key) && s[Last(x)].key == key
  {
    if key in KeySet(s) {
      var i :| 0 <= i < |s| && s[i].mode == Used && s[i].key == key;
      assert Occupied(s, i);
      var x := w.paths[i];
      assert IsPath(s, x) && x[0] == Home(hash, t, key) && s[Last(x)].key == key;
    }
    if exists x :: IsPath(s, x) && x[0] == Home(hash, t, key) && s[Last(x)].key == key {
      var x :| IsPath(s, x) && x[0] == Home(hash, t, key) && s[Last(x)].key == key;
      var i := Last(x);
      assert s[i].mode == Used;
    }
  }

  /** A table of free, unlinked slots before the sentinel satisfies the invariant and stores nothing. */
  lemma EmptyChains<K>(s: seq<Slot<K>>, hash: K -> nat, t: nat, w: Witness)
    requires |s| > 0 && s[|s| - 1].mode == End
    requires forall i :: 0 <= i < |s| - 1 ==> s[i].mode == Free && s[i].next == -1 && s[i].prev == -1
    requires 0 < t <= |s| - 1 && |w.paths| == |s| && |w.rank| == |s|
    ensures ChainInv(s, hash, t, w, []) && UsedCount(s) == 0 && KeySet(s) == {}
  {
    EmptyTable(s);
  }

  /** insert_, free home: writing the key into its free home slot keeps the invariant. */
  lemma PlaceAtHome<K>(s: seq<Slot<K>>, hash: K -> nat, t: nat, w: Witness, key: K)
    requires ChainInv(s, hash, t, w, []) && key !in KeySet(s)
    requires s[Home(hash, t, key)].mode == Free
    ensures var h := Home(hash, t, key);
            var s2 := s[h := Slot(Used, key, -1, -1)];
            ChainInv(s2, hash, t, Rooted(w, h), []) &&
            UsedCount(s2) == UsedCount(s) + 1 &&
            KeySet(s2) == KeySet(s) + {key}
  {
    var h := Home(hash, t, key);
    var v := Slot(Used, key, -1, -1);
    var s2 := s[h := v];
    var w2 := Rooted(w, h);
    FillSlot(s, h, v);
    forall i {:trigger Occupied(s2, i)} | Occupied(s2, i)
      ensures SettledOk(s2, hash, t, w2, [], i)
    {
      PlaceAtHomeSlot(s, hash, t, w, key, i);
    }
  }

  lemma PlaceAtHomeSlot<K>(s: seq<Slot<K>>, hash: K -> nat, t: nat, w: Witness, key: K, i: int)
    requires Linked(s, hash, t, w, [])
    requires s[Home(hash, t, key)].mode == Free
    requires Occupied(s[Home(hash, t, key) := Slot(Used, key, -1, -1)], i)
    ensures var h := Home(hash, t, key);
            var s2 := s[h := Slot(Used, key, -1, -1)];
            Shaped(s2, t, Rooted(w, h)) && SettledOk(s2, hash, t, Rooted(w, h), [], i)
  {
    var h := Home(hash, t, key);
    var s2 := s[h := Slot(Used, key, -1, -1)];
    if i == h {
      assert IsPath(s2, [h]);
    } else {
      assert Occupied(s, i);
      PathFrame(s, s2, w.paths[i]);
    }
  }

  /** insert_, occupied home: linking the key's new slot behind the tail of the walk keeps the invariant. */
  lemma AppendNew<K>(s: seq<Slot<K>>, hash: K -> nat, t: nat, w: Witness, key: K, x: seq<int>, idx: nat)
    requires ChainInv(s, hash, t, w, []) && key !in KeySet(s)
    requires IsPath(s, x) && x[0] == Home(hash, t, key) && s[Last(x)].next == -1
    requires InRange(s, idx) && s[idx].mode == Free
    ensures var tl := Last(x);
            var s2 := s[idx := Slot(Used, key, -1, tl)][tl := s[tl].(next := idx)];
            ChainInv(s2, hash, t, Appended(w, idx, x), []) &&
            UsedCount(s2) == UsedCount(s) + 1 &&
            KeySet(s2) == KeySet(s) + {key}
  {
    var tl := Last(x);
    var v := Slot(Used, key, -1, tl);
    var s1 := s[idx := v];
    var s2 := s1[tl := s[tl].(next := idx)];
    var w2 := Appended(w, idx, x);
    FillSlot(s, idx, v);
    RelinkSlot(s1, tl, s[tl].(next := idx));
    forall i {:trigger Occupied(s2, i)} | Occupied(s2, i)
      ensures SettledOk(s2, hash, t, w2, [], i)
    {
      if i == idx {
        AppendNewSlot(s, hash, t, w, key, x, idx);
      } else {
        AppendOtherSlot(s, hash, t, w, key, x, idx, i);
      }
    }
  }

  /** Appending at the new slot itself: its walk is `x` followed by it. */
  lemma AppendNewSlot<K>(s: seq<Slot<K>>, hash: K -> nat, t: nat, w: Witness, key: K, x: seq<int>, idx: nat)
    requires Linked(s, hash, t, w, [])
    requires IsPath(s, x) && x[0] == Home(hash, t, key) && s[Last(x)].next == -1
    requires InRange(s, idx) && s[idx].mode == Free
    ensures var tl := Last(x);
            var s2 := s[idx := Slot(Used, key, -1, tl)][tl := s[tl].(next := idx)];
            Shaped(s2, t, Appended(w, idx, x)) && SettledOk(s2, hash, t, Appended(w, idx, x), [], idx)
  {
    var tl := Last(x);
    var s2 := s[idx := Slot(Used, key, -1, tl)][tl := s[tl].(next := idx)];
    forall k | 0 <= k < |x| - 1 ensures s2[x[k]].next == s[x[k]].next {
      assert s[x[k]].next == x[k + 1] && InRange(s, x[k + 1]);
    }
    PathFrame(s, s2, x);
    assert IsPath(s2, x + [idx]);
    assert Occupied(s, tl);
    assert x[0] != idx;
  }

  /** Appending at any other occupied slot: its walk and its links are untouched. */
  lemma AppendOtherSlot<K>(s: seq<Slot<K>>, hash: K -> nat, t: nat, w: Witness, key: K, x: seq<int>, idx: nat, i: int)
    requires Linked(s, hash, t, w, [])
    requires IsPath(s, x) && x[0] == Home(hash, t, key) && s[Last(x)].next == -1
    requires InRange(s, idx) && s[idx].mode == Free
    requires Occupied(s[idx := Slot(Used, key, -1, Last(x))][Last(x) := s[Last(x)].(next := idx)], i) && i != idx
    ensures var tl := Last(x);
            var s2 := s[idx := Slot(Used, key, -1, tl)][tl := s[tl].(next := idx)];
            Shaped(s2, t, Appended(w, idx, x)) && SettledOk(s2, hash, t, Appended(w, idx, x), [], i)
  {
    var tl := Last(x);
    var s2 := s[idx := Slot(Used, key, -1, tl)][tl := s[tl].(next := idx)];
    assert Occupied(s, tl);
    assert Occupied(s, i);
    assert SettledOk(s, hash, t, w, [], i);
    var y := w.paths[i];
    forall k | 0 <= k < |y| - 1 ensures s2[y[k]].next == s[y[k]].next {
      assert s[y[k]].next == y[k + 1] && InRange(s, y[k + 1]);
    }
    PathFrame(s, s2, y);
    assert s[i].prev != tl;
  }
}
