/**
 * The chain repair of ADS_set::erase, as lemmas over the slot sequence.
 *
 * erase frees the target slot `p`, cuts the link of its predecessor and then
 * re-settles, in chain order, every node that followed `p`. Those nodes are
 * the run `rem` of the chain invariant. Each step takes the head `n` of `rem`:
 *  - case A, the home slot of `n`'s key is free: the key moves there and
 *    `n`'s slot is freed;
 *  - case B, the home slot is used: `n` stays where it is and is linked behind
 *    the tail of the chain through its home.
 * The lemmas show that each step keeps the invariant with `rem` one shorter,
 * so the repair can neither revisit a node nor close a cycle.
 */
module Repair {
  import opened Slots
  import opened Chains

  /** The table right after erase has freed `p` and cut the link of `p`'s predecessor. */
  function Cut<K>(s: seq<Slot<K>>, p: int): (s2: seq<Slot<K>>)
    requires InRange(s, p) && (s[p].prev == -1 || 0 <= s[p].prev < |s|)
    ensures |s2| == |s| && s2[p] == Slot(Free, s[p].key, -1, -1)
    ensures s[p].prev != -1 ==> s[p].prev == p || s2[s[p].prev] == s[s[p].prev].(next := -1)
    ensures forall i :: 0 <= i < |s| && i != p && i != s[p].prev ==> s2[i] == s[i]
  {
    var s1 := s[p := Slot(Free, s[p].key, -1, -1)];
    var q := s[p].prev;
    if q == -1 then s1 else s1[q := s1[q].(next := -1)]
  }

  /** The table after case A: the key of slot `n` is stored, unlinked, in slot `h`, and `n` is freed. */
  function MovedHome<K>(s: seq<Slot<K>>, n: int, h: int): (s2: seq<Slot<K>>)
    requires 0 <= n < |s| && 0 <= h < |s|
    ensures |s2| == |s|
  {
    s[n := Slot(Free, s[n].key, -1, -1)][h := Slot(Used, s[n].key, -1, -1)]
  }

  /** The table after case B: slot `n` becomes the new tail behind `tl`. */
  function LinkedBehind<K>(s: seq<Slot<K>>, n: int, tl: int): (s2: seq<Slot<K>>)
    requires 0 <= n < |s| && 0 <= tl < |s|
    ensures |s2| == |s|
  {
    s[n := s[n].(next := -1, prev := tl)][tl := s[tl].(next := n)]
  }

  /** Every node of the cut-off run still has its old predecessor in `prev`. */
  lemma RunPrev<K>(s: seq<Slot<K>>, hash: K -> nat, t: nat, w: Witness, p: int, rem: seq<int>, k: nat)
    requires Linked(s, hash, t, w, []) && Occupied(s, p)
    requires rem == ChainFrom(s, hash, t, w, s[p].next) && k < |rem|
    ensures s[rem[k]].prev == if k == 0 then p else rem[k - 1]
  {
    if k == 0 {
      assert Occupied(s, p);
    } else {
      assert Occupied(s, rem[k - 1]);
      assert s[rem[k - 1]].next == rem[k];
    }
  }

  /** No node of the cut-off run has its home at itself or further down the run. */
  lemma HomeNotAhead<K>(s: seq<Slot<K>>, hash: K -> nat, t: nat, w: Witness, p: int, rem: seq<int>, k: nat)
    requires Linked(s, hash, t, w, []) && Occupied(s, p)
    requires rem == ChainFrom(s, hash, t, w, s[p].next) && k < |rem|
    ensures Home(hash, t, s[rem[k]].key) !in rem[k..]
  {
    var r := rem[k];
    assert Occupied(s, r);
    var y := w.paths[r];
    RunPrev(s, hash, t, w, p, rem, k);
    assert |y| > 1;
    PathRank(s, hash, t, w, [], y);
    forall j | k <= j < |rem| ensures rem[j] != y[0] {
      assert j == k || w.rank[rem[k]] < w.rank[rem[j]];
    }
  }

  /** A walk that ends off a whole chain never touches it. */
  lemma PathOutside<K>(s: seq<Slot<K>>, x: seq<int>, c: seq<int>)
    requires IsPath(s, x) && WholeChain(s, c) && Last(x) !in c
    ensures forall k :: 0 <= k < |x| ==> x[k] !in c
  {
    forall k | 0 <= k < |x| - 1 && x[k] in c ensures x[k + 1] in c {
      var a :| 0 <= a < |c| && c[a] == x[k];
      assert s[x[k]].next == x[k + 1] && InRange(s, x[k + 1]);
      assert a < |c| - 1;
      assert c[a + 1] == x[k + 1];
    }
    var k := |x| - 1;
    while k > 0
      invariant 0 <= k < |x|
      invariant forall j :: k <= j < |x| ==> x[j] !in c
    {
      assert x[k] !in c;
      k := k - 1;
    }
  }

  /** The state after the cut satisfies the repair invariant with the cut-off run as `rem`. */
  lemma EraseStart<K>(s: seq<Slot<K>>, hash: K -> nat, t: nat, w: Witness, p: int)
    requires ChainInv(s, hash, t, w, []) && Occupied(s, p)
    ensures s[p].prev == -1 || InRange(s, s[p].prev)
    ensures var rem := ChainFrom(s, hash, t, w, s[p].next);
            var s2 := Cut(s, p);
            ChainInv(s2, hash, t, w, rem) &&
            UsedCount(s2) == UsedCount(s) - 1 &&
            KeySet(s2) == KeySet(s) - {s[p].key}
  {
    assert Occupied(s, p);
    CutCounts(s, p);
    EraseStartLinked(s, hash, t, w, p);
  }

  /** The links after the cut: every slot off the cut-off run is settled. */
  lemma EraseStartLinked<K>(s: seq<Slot<K>>, hash: K -> nat, t: nat, w: Witness, p: int)
    requires Linked(s, hash, t, w, []) && Occupied(s, p)
    ensures s[p].prev == -1 || InRange(s, s[p].prev)
    ensures Linked(Cut(s, p), hash, t, w, ChainFrom(s, hash, t, w, s[p].next))
  {
    assert Occupied(s, p);
    var rem := ChainFrom(s, hash, t, w, s[p].next);
    var s2 := Cut(s, p);
    CutFacts(s, hash, t, w, p, rem);
    CutRemOk(s, hash, t, w, p, rem);
    forall i {:trigger Occupied(s2, i)} | Occupied(s2, i) && i !in rem
      ensures SettledOk(s2, hash, t, w, rem, i)
    {
      EraseStartSlot(s, hash, t, w, p, rem, i);
    }
    CutShaped(s, t, w, p);
  }

  /** The cut changes no slot into or out of the sentinel. */
  lemma CutShaped<K>(s: seq<Slot<K>>, t: nat, w: Witness, p: int)
    requires Shaped(s, t, w) && InRange(s, p) && (s[p].prev == -1 || InRange(s, s[p].prev))
    ensures Shaped(Cut(s, p), t, w)
  {
    var s2 := Cut(s, p);
    forall i | 0 <= i < |s2| - 1 ensures s2[i].mode != End {
      assert s2[i].mode == s[i].mode || s2[i].mode == Free;
    }
  }

  /** The cut removes exactly the key of `p` and keeps free slots unlinked. */
  lemma CutCounts<K>(s: seq<Slot<K>>, p: int)
    requires Unique(s) && Occupied(s, p) && (s[p].prev == -1 || Occupied(s, s[p].prev))
    requires forall i :: InRange(s, i) && s[i].mode == Free ==> s[i].next == -1 && s[i].prev == -1
    ensures var s2 := Cut(s, p);
            UsedCount(s2) == UsedCount(s) - 1 && KeySet(s2) == KeySet(s) - {s[p].key} && Unique(s2) &&
            (forall i :: InRange(s2, i) && s2[i].mode == Free ==> s2[i].next == -1 && s2[i].prev == -1)
  {
    var q := s[p].prev;
    var s1 := s[p := Slot(Free, s[p].key, -1, -1)];
    ClearSlot(s, p, Slot(Free, s[p].key, -1, -1));
    if q != -1 {
      RelinkSlot(s1, q, s1[q].(next := -1));
    }
  }

  /** The cut-off run satisfies the run part of the invariant in the cut table. */
  lemma CutRemOk<K>(s: seq<Slot<K>>, hash: K -> nat, t: nat, w: Witness, p: int, rem: seq<int>)
    requires Linked(s, hash, t, w, []) && Occupied(s, p)
    requires rem == ChainFrom(s, hash, t, w, s[p].next)
    ensures RemOk(Cut(s, p), hash, t, rem)
  {
    CutFacts(s, hash, t, w, p, rem);
    forall k | 0 <= k < |rem| ensures Home(hash, t, s[rem[k]].key) !in rem[k..] {
      HomeNotAhead(s, hash, t, w, p, rem, k);
    }
    forall a, b | 0 <= a < b < |rem| ensures rem[a] != rem[b] {
      assert w.rank[rem[a]] < w.rank[rem[b]];
    }
  }

  /** Where `p`, its predecessor and the run sit relative to each other. */
  lemma CutFacts<K>(s: seq<Slot<K>>, hash: K -> nat, t: nat, w: Witness, p: int, rem: seq<int>)
    requires Linked(s, hash, t, w, []) && Occupied(s, p)
    requires rem == ChainFrom(s, hash, t, w, s[p].next)
    ensures p !in rem && s[p].prev !in rem && s[p].prev != p
    ensures WholeChain(s, [p] + rem)
    ensures forall k :: 0 <= k < |rem| ==> Cut(s, p)[rem[k]] == s[rem[k]]
  {
    assert Occupied(s, p);
    var q := s[p].prev;
    forall k | 0 <= k < |rem| ensures rem[k] != p {
      assert w.rank[p] < w.rank[rem[0]];
      assert k == 0 || w.rank[rem[0]] < w.rank[rem[k]];
    }
    if q != -1 {
      assert Occupied(s, q);
      forall k | 0 <= k < |rem| ensures rem[k] != q {
        assert k == |rem| - 1 || s[rem[k]].next == rem[k + 1];
      }
    }
  }

  lemma EraseStartSlot<K>(s: seq<Slot<K>>, hash: K -> nat, t: nat, w: Witness, p: int, rem: seq<int>, i: int)
    requires Linked(s, hash, t, w, []) && Occupied(s, p)
    requires rem == ChainFrom(s, hash, t, w, s[p].next)
    requires p !in rem && s[p].prev !in rem && s[p].prev != p && WholeChain(s, [p] + rem)
    requires Occupied(Cut(s, p), i) && i !in rem
    ensures Shaped(Cut(s, p), t, w) && SettledOk(Cut(s, p), hash, t, w, rem, i)
  {
    assert Occupied(s, i);
    assert SettledOk(s, hash, t, w, [], i);
    CutNextOk(s, hash, t, w, p, rem, i);
    CutPrevOk(s, hash, t, w, p, rem, i);
    CutPathOk(s, hash, t, w, p, rem, i);
  }

  /** After the cut, the successor link of a settled slot is still consistent. */
  lemma CutNextOk<K>(s: seq<Slot<K>>, hash: K -> nat, t: nat, w: Witness, p: int, rem: seq<int>, i: int)
    requires Linked(s, hash, t, w, []) && Occupied(s, p)
    requires rem == ChainFrom(s, hash, t, w, s[p].next)
    requires p !in rem && s[p].prev !in rem && s[p].prev != p
    requires Occupied(Cut(s, p), i) && i !in rem
    ensures var s2 := Cut(s, p);
            var j := s2[i].next;
            j == -1 || (Settled(s2, rem, j) && s2[j].prev == i && w.rank[i] < w.rank[j])
  {
    var q := s[p].prev;
    assert Occupied(s, p);
    assert i != p;
    assert Occupied(s, i);
    var e := s[i];
    if e.next != -1 && i != q {
      assert SettledOk(s, hash, t, w, [], i);
      assert Occupied(s, e.next);
      assert e.next != p;
      forall k | 0 <= k < |rem| ensures rem[k] != e.next {
        RunPrev(s, hash, t, w, p, rem, k);
      }
    }
  }

  /** After the cut, the predecessor link of a settled slot is still consistent. */
  lemma CutPrevOk<K>(s: seq<Slot<K>>, hash: K -> nat, t: nat, w: Witness, p: int, rem: seq<int>, i: int)
    requires Linked(s, hash, t, w, []) && Occupied(s, p)
    requires rem == ChainFrom(s, hash, t, w, s[p].next)
    requires p !in rem && s[p].prev !in rem && s[p].prev != p && WholeChain(s, [p] + rem)
    requires Occupied(Cut(s, p), i) && i !in rem
    ensures var s2 := Cut(s, p);
            var j := s2[i].prev;
            j == s[i].prev && (j == -1 || (Settled(s2, rem, j) && s2[j].next == i))
  {
    var q := s[p].prev;
    assert Occupied(s, p);
    assert i != p;
    assert Occupied(s, i);
    var e := s[i];
    if e.prev != -1 {
      assert SettledOk(s, hash, t, w, [], i);
      assert Occupied(s, e.prev);
      assert e.prev != p;
      assert e.prev != q;
      forall k | 0 <= k < |rem| ensures rem[k] != e.prev {
        assert k == |rem| - 1 || s[rem[k]].next == rem[k + 1];
      }
    }
  }

  /** After the cut, the walk from the home of a settled slot is intact and avoids the run. */
  lemma CutPathOk<K>(s: seq<Slot<K>>, hash: K -> nat, t: nat, w: Witness, p: int, rem: seq<int>, i: int)
    requires Linked(s, hash, t, w, []) && Occupied(s, p)
    requires rem == ChainFrom(s, hash, t, w, s[p].next)
    requires p !in rem && s[p].prev !in rem && s[p].prev != p && WholeChain(s, [p] + rem)
    requires Occupied(Cut(s, p), i) && i !in rem
    ensures var y := w.paths[i];
            IsPath(Cut(s, p), y) && (forall k :: 0 <= k < |y| ==> y[k] !in rem)
  {
    var s2 := Cut(s, p);
    var c := [p] + rem;
    assert Occupied(s, p);
    assert i != p;
    assert Occupied(s, i);
    assert SettledOk(s, hash, t, w, [], i);
    var y := w.paths[i];
    PathOutside(s, y, c);
    forall k | 0 <= k < |y| - 1 ensures s2[y[k]].next == s[y[k]].next {
      assert s[y[k]].next == y[k + 1];
      assert y[k + 1] !in c;
    }
    forall k | 0 <= k < |y| ensures y[k] !in rem {
      assert y[k] !in c;
    }
    PathFrame(s, s2, y);
  }

  /** Case A: the head of the run moves into its free home slot. */
  lemma StepA<K>(s: seq<Slot<K>>, hash: K -> nat, t: nat, w: Witness, rem: seq<int>)
    requires ChainInv(s, hash, t, w, rem) && |rem| > 0
    requires s[Home(hash, t, s[rem[0]].key)].mode == Free
    ensures var n := rem[0];
            var h := Home(hash, t, s[n].key);
            var s2 := MovedHome(s, n, h);
            ChainInv(s2, hash, t, Rooted(w, h), rem[1..]) &&
            UsedCount(s2) == UsedCount(s) &&
            KeySet(s2) == KeySet(s)
  {
    var n := rem[0];
    var key := s[n].key;
    var h := Home(hash, t, key);
    var s1 := s[n := Slot(Free, key, -1, -1)];
    ClearSlot(s, n, Slot(Free, key, -1, -1));
    FillSlot(s1, h, Slot(Used, key, -1, -1));
    assert key in KeySet(s);
    StepALinked(s, hash, t, w, rem);
  }

  /** The links of case A: every settled slot stays settled, and the moved key is rooted at its home. */
  lemma StepALinked<K>(s: seq<Slot<K>>, hash: K -> nat, t: nat, w: Witness, rem: seq<int>)
    requires Linked(s, hash, t, w, rem) && |rem| > 0
    requires s[Home(hash, t, s[rem[0]].key)].mode == Free
    ensures var n := rem[0];
            var h := Home(hash, t, s[n].key);
            var s2 := MovedHome(s, n, h);
            Linked(s2, hash, t, Rooted(w, h), rem[1..])
  {
    var n := rem[0];
    var key := s[n].key;
    var h := Home(hash, t, key);
    var s2 := MovedHome(s, n, h);
    var w2 := Rooted(w, h);
    assert RemOk(s2, hash, t, rem[1..]) by {
      forall k | 0 <= k < |rem| - 1 ensures s2[rem[k + 1]] == s[rem[k + 1]] && rem[1..][k..] == rem[k + 1..] {
        assert rem[k + 1] != n;
      }
    }
    forall i {:trigger Occupied(s2, i)} | Occupied(s2, i) && i !in rem[1..]
      ensures SettledOk(s2, hash, t, w2, rem[1..], i)
    {
      StepASlot(s, hash, t, w, rem, i);
    }
  }

  lemma StepASlot<K>(s: seq<Slot<K>>, hash: K -> nat, t: nat, w: Witness, rem: seq<int>, i: int)
    requires Linked(s, hash, t, w, rem) && |rem| > 0
    requires s[Home(hash, t, s[rem[0]].key)].mode == Free
    requires var n := rem[0];
             var h := Home(hash, t, s[n].key);
             var s2 := MovedHome(s, n, h);
             Occupied(s2, i) && i !in rem[1..]
    ensures var n := rem[0];
            var h := Home(hash, t, s[n].key);
            var s2 := MovedHome(s, n, h);
            Shaped(s2, t, Rooted(w, h)) && SettledOk(s2, hash, t, Rooted(w, h), rem[1..], i)
  {
    var n := rem[0];
    var key := s[n].key;
    var h := Home(hash, t, key);
    var s2 := MovedHome(s, n, h);
    if i == h {
      assert IsPath(s2, [h]);
      assert h !in rem;
    } else {
      assert i != n;
      assert Occupied(s, i);
      assert SettledOk(s, hash, t, w, rem, i);
      var y := w.paths[i];
      PathFrame(s, s2, y);
      forall k | 0 <= k < |y| ensures y[k] !in rem[1..] {
        assert y[k] !in rem;
      }
      var e := s[i];
      if e.next != -1 {
        assert e.next !in rem[1..];
      }
      if e.prev != -1 {
        assert e.prev !in rem[1..];
      }
    }
  }

  /** Case B: the head of the run is linked behind the tail `Last(x)` of the chain through its home. */
  lemma StepB<K>(s: seq<Slot<K>>, hash: K -> nat, t: nat, w: Witness, rem: seq<int>, x: seq<int>)
    requires ChainInv(s, hash, t, w, rem) && |rem| > 0
    requires IsPath(s, x) && x[0] == Home(hash, t, s[rem[0]].key) && s[Last(x)].next == -1
    requires forall k :: 0 <= k < |x| ==> x[k] !in rem
    ensures var n := rem[0];
            var tl := Last(x);
            var s2 := LinkedBehind(s, n, tl);
            ChainInv(s2, hash, t, Appended(w, n, x), rem[1..]) &&
            UsedCount(s2) == UsedCount(s) &&
            KeySet(s2) == KeySet(s)
  {
    var n := rem[0];
    var tl := Last(x);
    var s1 := s[n := s[n].(next := -1, prev := tl)];
    assert tl != n;
    RelinkSlot(s, n, s[n].(next := -1, prev := tl));
    RelinkSlot(s1, tl, s[tl].(next := n));
    StepBLinked(s, hash, t, w, rem, x);
  }

  /** The links of case B: every settled slot stays settled, and the relinked key extends the chain `x`. */
  lemma StepBLinked<K>(s: seq<Slot<K>>, hash: K -> nat, t: nat, w: Witness, rem: seq<int>, x: seq<int>)
    requires Linked(s, hash, t, w, rem) && |rem| > 0
    requires IsPath(s, x) && x[0] == Home(hash, t, s[rem[0]].key) && s[Last(x)].next == -1
    requires forall k :: 0 <= k < |x| ==> x[k] !in rem
    ensures var n := rem[0];
            var tl := Last(x);
            var s2 := LinkedBehind(s, n, tl);
            Linked(s2, hash, t, Appended(w, n, x), rem[1..])
  {
    var n := rem[0];
    var tl := Last(x);
    var s2 := LinkedBehind(s, n, tl);
    var w2 := Appended(w, n, x);
    assert tl != n;
    assert RemOk(s2, hash, t, rem[1..]) by {
      forall k | 0 <= k < |rem| - 1 ensures s2[rem[k + 1]] == s[rem[k + 1]] && rem[1..][k..] == rem[k + 1..] {
        assert rem[k + 1] != n;
        assert rem[k + 1] != tl;
      }
    }
    forall i {:trigger Occupied(s2, i)} | Occupied(s2, i) && i !in rem[1..]
      ensures SettledOk(s2, hash, t, w2, rem[1..], i)
    {
      if i == n {
        StepBSlotMoved(s, hash, t, w, rem, x);
      } else {
        StepBSlotOther(s, hash, t, w, rem, x, i);
      }
    }
  }

  /** Case B at the relinked slot itself: its walk is `x` followed by it. */
  lemma StepBSlotMoved<K>(s: seq<Slot<K>>, hash: K -> nat, t: nat, w: Witness, rem: seq<int>, x: seq<int>)
    requires Linked(s, hash, t, w, rem) && |rem| > 0
    requires IsPath(s, x) && x[0] == Home(hash, t, s[rem[0]].key) && s[Last(x)].next == -1
    requires forall k :: 0 <= k < |x| ==> x[k] !in rem
    ensures var n := rem[0];
            var tl := Last(x);
            var s2 := LinkedBehind(s, n, tl);
            Shaped(s2, t, Appended(w, n, x)) && SettledOk(s2, hash, t, Appended(w, n, x), rem[1..], n)
  {
    var n := rem[0];
    var tl := Last(x);
    var s2 := LinkedBehind(s, n, tl);
    assert Occupied(s, tl);
    assert SettledOk(s, hash, t, w, rem, tl);
    assert n !in rem[1..];
    forall k | 0 <= k < |x| - 1 ensures s2[x[k]].next == s[x[k]].next {
      assert s[x[k]].next == x[k + 1] && InRange(s, x[k + 1]);
    }
    PathFrame(s, s2, x);
    assert IsPath(s2, x + [n]);
    assert x[0] != n;
  }

  /** Case B at any other settled slot: its walk and its links are untouched. */
  lemma StepBSlotOther<K>(s: seq<Slot<K>>, hash: K -> nat, t: nat, w: Witness, rem: seq<int>, x: seq<int>, i: int)
    requires Linked(s, hash, t, w, rem) && |rem| > 0
    requires IsPath(s, x) && x[0] == Home(hash, t, s[rem[0]].key) && s[Last(x)].next == -1
    requires forall k :: 0 <= k < |x| ==> x[k] !in rem
    requires var n := rem[0];
             var tl := Last(x);
             var s2 := LinkedBehind(s, n, tl);
             Occupied(s2, i) && i !in rem[1..] && i != n
    ensures var n := rem[0];
            var tl := Last(x);
            var s2 := LinkedBehind(s, n, tl);
            Shaped(s2, t, Appended(w, n, x)) && SettledOk(s2, hash, t, Appended(w, n, x), rem[1..], i)
  {
    var n := rem[0];
    var tl := Last(x);
    var s2 := LinkedBehind(s, n, tl);
    assert Occupied(s, tl);
    assert SettledOk(s, hash, t, w, rem, tl);
    assert i !in rem;
    assert Occupied(s, i);
    assert SettledOk(s, hash, t, w, rem, i);
    var y := w.paths[i];
    forall k | 0 <= k < |y| - 1 ensures s2[y[k]].next == s[y[k]].next {
      assert s[y[k]].next == y[k + 1] && InRange(s, y[k + 1]);
    }
    PathFrame(s, s2, y);
    forall k | 0 <= k < |y| ensures y[k] !in rem[1..] {
      assert y[k] !in rem;
    }
    var e := s[i];
    if e.next != -1 && i != tl {
      assert e.next !in rem[1..];
    }
    if e.prev != -1 {
      assert e.prev !in rem[1..];
      assert e.prev != tl;
    }
  }
}
