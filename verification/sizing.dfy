/**
 * Sizing rules of ADS_set: the load-factor ceiling `max_lf` = 0.7 and the
 * cellar ratio `cellar` = 0.1628, both written as exact rationals (7/10 and
 * 1628/10000) instead of single-precision floats.
 */
module Sizing {

  const LoadNum: nat := 7
  const LoadDen: nat := 10
  const CellarNum: nat := 1628
  const CellarDen: nat := 10000

  /** `n` keys would exceed the load-factor ceiling of a primary region of `t` slots. */
  predicate OverLoaded(n: nat, t: nat): (b: bool)
    ensures !b ==> n <= t
  {
    LoadDen * n > LoadNum * t
  }

  /** The number of cellar slots behind a primary region of `t` slots (the product rounded down). */
  function CellarSize(t: nat): nat
  {
    t * CellarNum / CellarDen
  }

  /** The index of the sentinel: primary region plus cellar. */
  function FullSize(t: nat): (f: nat)
    ensures t <= f
  {
    t + CellarSize(t)
  }

  /** The primary size that `count` keys fill to the ceiling, rounded down. */
  function GrowthFloor(count: nat): (g: nat)
    ensures count <= g
  {
    count * LoadDen / LoadNum
  }

  /** The primary size chosen by rehash: the largest of the minimum `minSize`, the request `n` and GrowthFloor(count). */
  function RehashSize(minSize: nat, n: nat, count: nat): (t: nat)
    ensures minSize <= t && n <= t && count <= t
    ensures t == minSize || t == n || t == GrowthFloor(count)
  {
    var g := GrowthFloor(count);
    if minSize >= n && minSize >= g then minSize
    else if n >= g then n
    else g
  }

  /** One step of reserve's growth loop: double the size and add one. */
  function Grown(t: nat): (u: nat)
    ensures u > t
  {
    t * 2 + 1
  }

  /**
   * A table size that keeps `n` keys under the ceiling leaves a free slot
   * for the n-th key: reserve(curr_size + 1) makes room for one insertion.
   */
  lemma RoomAfterReserve(n: nat, t: nat)
    requires n > 0 && !OverLoaded(n, t)
    ensures n - 1 < t && n - 1 < FullSize(t)
  {
  }
}
