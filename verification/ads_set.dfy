/**
 * ADS_set: a set of keys stored by coalesced hashing in one array of slots.
 *
 * Slots `0 .. tableSize-1` are the primary region addressed by the hash,
 * slots `tableSize .. fullTable-1` the cellar, and slot `fullTable` the `End`
 * sentinel. Keys whose home slot is taken are placed in a free slot found by
 * the downward cursor `tableLast` and linked at the tail of the chain that
 * starts at their home slot.
 */
module AdsSet {
  import opened Slots
  import opened Sizing
  import opened Chains
  import opened Repair

  class AdsSet<Key(==,0)> {
    var table: array<Slot<Key>>
    var currSize: nat
    var tableSize: nat
    var fullTable: nat
    var tableLast: nat
    /** `hasher{}`: the hash of a key. */
    const hash: Key -> nat
    /** The template parameter `N`: the smallest primary region. */
    const N: nat
    /** Proof-only: the walks from the homes and the ranks along the chains. */
    ghost var w: Witness

    /** The keys stored in the table. */
    ghost function Keys(): set<Key>
      reads this, table
    {
      KeySet(table[..])
    }

    /**
     * The representation invariant: the sizes agree, the chains are
     * well-formed (see ChainInv), every slot at or above the cursor is used,
     * and `currSize` counts the used slots.
     */
    ghost predicate Valid()
      reads this, table
    {
      N > 0 &&
      table.Length == fullTable + 1 && fullTable == FullSize(tableSize) &&
      ChainInv(table[..], hash, tableSize, w, []) &&
      tableLast <= fullTable &&
      (forall j :: tableLast <= j < fullTable ==> table[j].mode == Used) &&
      currSize == UsedCount(table[..])
    }

    /**
     * The load-factor ceiling `size() <= table_size * max_lf`. Every public
     * operation keeps it, and every insertion of a new key establishes it.
     */
    ghost predicate WithinLoad()
      reads this
    {
      !OverLoaded(currSize, tableSize)
    }

    /** What rehash needs of the table it replaces. */
    ghost predicate Rebuildable()
      reads this, table
    {
      table.Length == fullTable + 1 && table[fullTable].mode == End &&
      Unique(table[..]) && currSize == UsedCount(table[..])
    }

    /** `ADS_set()`: an empty set built by `rehash(N)`. */
    constructor(hash: Key -> nat, N: nat)
      requires N > 0
      ensures Valid() && Keys() == {} && currSize == 0 && WithinLoad() && fresh(table)
      ensures tableSize == N && fullTable == FullSize(N)
    {
      var k0: Key := *;
      this.hash := hash;
      this.N := N;
      table := new Slot<Key>[1](_ => Slot(End, k0, -1, -1));
      currSize := 0;
      tableSize := 0;
      fullTable := 0;
      tableLast := 0;
      w := Witness([], [], 0);
      new;
      assert table[..] == [Slot(End, k0, -1, -1)];
      Rehash(N);
    }

    /** `size()`: the number of stored keys. */
    function Size(): (n: nat)
      reads this, table
      requires Valid()
      ensures n == |Keys()|
    {
      KeySetCard(table[..]);
      currSize
    }

    /** `empty()`. */
    predicate Empty(): (b: bool)
      reads this, table
      requires Valid()
      ensures b <==> Keys() == {}
    {
      KeySetCard(table[..]);
      currSize == 0
    }

    /** `g`: move the cursor one slot down and return it. */
    method Probe() returns (idx: nat)
      requires 0 < tableLast <= fullTable
      modifies this`tableLast
      ensures tableLast == old(tableLast) - 1 && idx == tableLast
    {
      tableLast := tableLast - 1;
      idx := tableLast % fullTable;
    }

    /** The first branch of `insert_`: the home slot is free and takes the key. */
    method SetHome(key: Key) returns (idx: nat)
      requires table.Length == fullTable + 1 && 0 < tableSize <= fullTable
      requires table[Home(hash, tableSize, key)].mode == Free
      modifies this`currSize, table
      ensures idx == Home(hash, tableSize, key)
      ensures table[..] == old(table[..])[idx := Slot(Used, key, -1, -1)]
      ensures currSize == old(currSize) + 1
    {
      idx := Home(hash, tableSize, key);
      table[idx] := Slot(Used, key, -1, -1);
      currSize := currSize + 1;
    }

    /**
     * `insert_`: store a key that is not in the set. It goes to its home slot
     * when that is free; otherwise to the next free slot below the cursor,
     * linked behind the tail of the chain through its home.
     */
    method InsertFresh(key: Key) returns (idx: nat)
      requires Valid() && key !in Keys() && currSize < fullTable
      modifies this, table
      ensures Valid() && Keys() == old(Keys()) + {key} && currSize == old(currSize) + 1
      ensures table == old(table) && tableSize == old(tableSize) && fullTable == old(fullTable)
      ensures idx < fullTable && old(table[idx].mode) == Free
      ensures old(table[Home(hash, tableSize, key)].mode) == Free ==> idx == Home(hash, tableSize, key)
      ensures table[idx] == Slot(Used, key, -1, table[idx].prev)
      ensures var q := table[idx].prev;
              (q == -1 <==> idx == Home(hash, tableSize, key)) &&
              (q == -1 ==> table[..] == old(table[..])[idx := Slot(Used, key, -1, -1)]) &&
              (q != -1 ==> 0 <= q < fullTable && old(table[q]).next == -1 &&
                           table[..] == old(table[..])[idx := Slot(Used, key, -1, q)][q := old(table[q]).(next := idx)])
      ensures table[idx].prev != -1 ==>
                exists x :: IsPath(old(table[..]), x) && x[0] == Home(hash, tableSize, key) && Last(x) == table[idx].prev
      ensures idx == Home(hash, tableSize, key) ==> tableLast == old(tableLast)
      ensures idx != Home(hash, tableSize, key) ==> idx == tableLast < old(tableLast)
    {
      ghost var s := table[..];
      idx := Home(hash, tableSize, key);
      if table[idx].mode == Free {
        PlaceAtHome(s, hash, tableSize, w, key);
        idx := SetHome(key);
        w := Rooted(w, idx);
        return;
      }
      if table[idx].mode == Used {
        idx := InsertChained(key, idx);
      }
    }

    /**
     * The second branch of `insert_`: the home slot is used, so the key goes
     * to the free slot found by probing and is linked behind the tail of the
     * chain through its home.
     */
    method InsertChained(key: Key, home: nat) returns (idx: nat)
      requires Valid() && key !in Keys() && currSize < fullTable
      requires home == Home(hash, tableSize, key) && table[home].mode == Used
      modifies this, table
      ensures Valid() && Keys() == old(Keys()) + {key} && currSize == old(currSize) + 1
      ensures table == old(table) && tableSize == old(tableSize) && fullTable == old(fullTable)
      ensures idx == tableLast < old(tableLast) && idx != home && old(table[idx].mode) == Free
      ensures var q := table[idx].prev;
              0 <= q < fullTable && q != idx && old(table[q]).next == -1 &&
              table[..] == old(table[..])[idx := Slot(Used, key, -1, q)][q := old(table[q]).(next := idx)]
      ensures exists x :: IsPath(old(table[..]), x) && x[0] == home && Last(x) == table[idx].prev
    {
      ghost var s := table[..];
      ghost var x;
      var lastInChain;
      assert Occupied(s, home);
      lastInChain, x := TailOf(home, s, []);
      SomeFreeBelowCursor();
      idx := ProbeFree(home);
      AttachNew(key, idx, lastInChain, x);
    }

    /** The end of `insert_`'s second branch: store the key at the free slot `idx` behind the tail `last`. */
    method AttachNew(key: Key, idx: nat, last: nat, ghost x: seq<int>)
      requires table.Length == fullTable + 1 && fullTable == FullSize(tableSize) && N > 0
      requires ChainInv(table[..], hash, tableSize, w, []) && key !in Keys() && currSize == UsedCount(table[..])
      requires IsPath(table[..], x) && x[0] == Home(hash, tableSize, key) && Last(x) == last && table[last].next == -1
      requires InRange(table[..], idx) && table[idx].mode == Free
      requires idx == tableLast <= fullTable && forall j :: tableLast < j < fullTable ==> table[j].mode == Used
      modifies this`currSize, this`w, table
      ensures Valid() && Keys() == old(Keys()) + {key} && currSize == old(currSize) + 1
      ensures table[idx].prev == last && last != idx
      ensures table[..] == old(table[..])[idx := Slot(Used, key, -1, last)][last := old(table[last]).(next := idx)]
    {
      AppendNew(table[..], hash, tableSize, w, key, x, idx);
      LinkTail(key, idx, last);
      w := Appended(w, idx, x);
    }

    /** The writes of `insert_`'s second branch: fill the slot `idx` and link it behind `last`. */
    method LinkTail(key: Key, idx: nat, last: nat)
      requires idx < table.Length && last < table.Length && idx != last
      modifies this`currSize, table
      ensures table[..] == old(table[..])[idx := Slot(Used, key, -1, last)][last := old(table[last]).(next := idx)]
      ensures currSize == old(currSize) + 1
    {
      table[idx] := Slot(Used, key, -1, last);
      table[last] := table[last].(next := idx);
      currSize := currSize + 1;
    }

    /**
     * The walk to the tail of a chain (in `insert_` and in erase's case B)
     * from the settled slot `start` of the table `s`; `x` is the walk itself.
     * Erase walks while the slots of its run `rem` are being relinked, so
     * the walk reads only slots outside `rem`, which agree with `s`.
     */
    method TailOf(start: nat, ghost s: seq<Slot<Key>>, ghost rem: seq<int>) returns (last: nat, ghost x: seq<int>)
      requires |s| == table.Length && ChainInv(s, hash, tableSize, w, rem)
      requires Occupied(s, start) && start !in rem
      requires forall j :: 0 <= j < table.Length && j !in rem ==> table[j] == s[j]
      ensures IsPath(s, x) && x[0] == start && Last(x) == last && s[last].next == -1
      ensures forall k :: 0 <= k < |x| ==> x[k] !in rem
    {
      x := [start];
      last := start;
      var nextEle := table[start].next;
      while nextEle != -1
        invariant IsPath(s, x) && x[0] == start && Last(x) == last
        invariant forall k :: 0 <= k < |x| ==> x[k] !in rem
        invariant nextEle == s[last].next
        decreases w.bound - w.rank[last]
      {
        assert Occupied(s, last);
        last := nextEle;
        nextEle := table[nextEle].next;
        x := x + [last];
      }
    }

    /**
     * The probe loop of `insert_`: step the cursor down until it reaches a
     * free slot. It stops because some free slot lies below the cursor and
     * every slot at or above the cursor is used.
     */
    method ProbeFree(start: nat) returns (idx: nat)
      requires table.Length == fullTable + 1 && start < fullTable && table[start].mode != Free
      requires forall j :: 0 <= j < fullTable ==> table[j].mode != End
      requires tableLast <= fullTable && forall j :: tableLast <= j < fullTable ==> table[j].mode == Used
      requires exists j :: 0 <= j < tableLast && table[j].mode == Free
      modifies this`tableLast
      ensures idx == tableLast < old(tableLast) && table[idx].mode == Free
      ensures forall j :: tableLast < j < fullTable ==> table[j].mode == Used
    {
      idx := start;
      while table[idx].mode != Free
        invariant 0 <= idx < fullTable && tableLast <= old(tableLast)
        invariant idx != start ==> idx == tableLast < old(tableLast)
        invariant table[idx].mode != Free ==> exists j :: 0 <= j < tableLast && table[j].mode == Free
        invariant forall j :: tableLast <= j < fullTable && j != idx ==> table[j].mode == Used
        decreases tableLast
      {
        idx := Probe();
      }
    }

    /** Under the invariant, a table with fewer used slots than places has a free slot below the cursor. */
    lemma SomeFreeBelowCursor()
      requires Valid() && currSize < fullTable
      ensures exists j :: 0 <= j < tableLast && table[j].mode == Free
    {
      var s := table[..fullTable];
      assert table[..][..fullTable] == s;
      DropSentinel(table[..]);
      SomeUnused(s);
      var j :| 0 <= j < |s| && s[j].mode != Used;
      assert table[j].mode == Free;
    }

    /**
     * `find_`: the slot holding `key`, or -1 for a null result. The search
     * follows the chain that starts at the home slot of `key`.
     */
    method FindSlot(key: Key) returns (r: int)
      requires Valid()
      ensures r == -1 <==> key !in Keys()
      ensures r != -1 ==> 0 <= r < fullTable && table[r].mode == Used && table[r].key == key
    {
      ghost var s := table[..];
      ghost var target := -1;
      if key in Keys() {
        target :| 0 <= target < |s| && s[target].mode == Used && s[target].key == key;
        assert Occupied(s, target);
      }
      var idx := Home(hash, tableSize, key);
      var nextEle := table[idx].next;
      match table[idx].mode {
        case Free =>
          return -1;
        case Used =>
          if table[idx].key == key {
            return idx;
          }
          if nextEle == -1 {
            if target != -1 {
              PathNext(s, w.paths[target], idx);
            }
            return -1;
          }
          r := SearchChain(key, idx, s, target);
        case End =>
          return -1;
      }
    }

    /**
     * The do-while loop of `find_`: follow the chain from the used slot `cur`
     * (not holding `key`) until a slot holds `key` or the chain ends. When
     * `key` is stored at `target`, whose walk from the home passes `cur`, the
     * search reaches it.
     */
    method SearchChain(key: Key, cur: nat, ghost s: seq<Slot<Key>>, ghost target: int) returns (r: int)
      requires s == table[..] && Linked(s, hash, tableSize, w, [])
      requires Occupied(s, cur) && s[cur].key != key && s[cur].next != -1
      requires target != -1 ==> Occupied(s, target) && s[target].key == key && cur in w.paths[target]
      ensures r != -1 ==> InRange(s, r) && s[r].mode == Used && s[r].key == key
      ensures target != -1 ==> r != -1
    {
      var cur := cur;
      var nextEle := table[cur].next;
      while true
        invariant InRange(s, cur) && s[cur].mode == Used && s[cur].key != key
        invariant nextEle == s[cur].next && nextEle != -1
        invariant target != -1 ==> cur in w.paths[target]
        decreases w.bound - w.rank[cur]
      {
        assert Occupied(s, cur);
        if table[nextEle].mode == Free {
          return -1;
        }
        if table[nextEle].key == key {
          return nextEle;
        }
        if target != -1 {
          PathNext(s, w.paths[target], cur);
        }
        cur := nextEle;
        nextEle := table[nextEle].next;
        if nextEle == -1 {
          if target != -1 {
            PathNext(s, w.paths[target], cur);
          }
          return -1;
        }
      }
    }

    /** `find(key)`: an iterator at the slot holding `key`, or `end()` when it is not stored. */
    method Find(key: Key) returns (it: Iterator<Key>)
      requires Valid()
      ensures fresh(it) && it.table == table && it.Valid()
      ensures key in Keys() ==> it.pos < fullTable && table[it.pos].mode == Used && table[it.pos].key == key
      ensures key !in Keys() ==> it.pos == fullTable
    {
      var p := FindSlot(key);
      if p != -1 {
        it := new Iterator(table, p);
        return;
      }
      it := EndIter();
    }

    /** `count`: 1 when the key is stored, 0 otherwise. */
    method Count(key: Key) returns (c: nat)
      requires Valid()
      ensures c == if key in Keys() then 1 else 0
    {
      var p := FindSlot(key);
      c := if p != -1 then 1 else 0;
    }

    /**
     * `rehash(n)`: move every stored key into a fresh table whose primary
     * region has `max(N, n, currSize / max_lf)` slots.
     */
    method Rehash(n: nat)
      requires Rebuildable() && N > 0
      modifies this
      ensures Valid() && fresh(table)
      ensures Keys() == old(Keys()) && currSize == old(currSize)
      ensures tableSize == RehashSize(N, n, old(currSize)) && fullTable == FullSize(tableSize)
    {
      var newTableSize := RehashSize(N, n, currSize);
      var oldFullTable := fullTable;
      var oldTable := table;
      ghost var oldSlots := oldTable[..];
      Reset(newTableSize);
      Reinsert(oldTable, oldFullTable);
      DropSentinel(oldSlots);
    }

    /** The first half of `rehash`: an empty table of the new size, with the cursor at the sentinel. */
    method Reset(newTableSize: nat)
      requires newTableSize >= N > 0
      modifies this
      ensures fresh(table) && Valid() && Keys() == {} && currSize == 0
      ensures tableSize == newTableSize && fullTable == FullSize(newTableSize) && tableLast == fullTable
    {
      var newFullTable := FullSize(newTableSize);
      var k0: Key := *;
      var newTable := new Slot<Key>[newFullTable + 1](i => if i == newFullTable then Slot(End, k0, -1, -1) else Slot(Free, k0, -1, -1));
      currSize := 0;
      table := newTable;
      tableSize := newTableSize;
      fullTable := newFullTable;
      tableLast := newFullTable;
      w := Witness(seq(newFullTable + 1, _ => [0]), seq(newFullTable + 1, _ => 0), 0);
      EmptyChains(table[..], hash, tableSize, w);
    }

    /** The second half of `rehash`: insert the key of every used slot of the old table, in slot order. */
    method Reinsert(oldTable: array<Slot<Key>>, oldFullTable: nat)
      requires Valid() && Keys() == {} && currSize == 0 && oldTable != table
      requires oldTable.Length == oldFullTable + 1 && Unique(oldTable[..])
      requires UsedCount(oldTable[..]) <= tableSize
      modifies this, table
      ensures Valid() && table == old(table) && tableSize == old(tableSize) && fullTable == old(fullTable)
      ensures Keys() == KeySet(oldTable[..][..oldFullTable]) && currSize == UsedCount(oldTable[..][..oldFullTable])
    {
      ghost var oldSlots := oldTable[..];
      for idx := 0 to oldFullTable
        invariant Valid() && table == old(table) && tableSize == old(tableSize) && fullTable == old(fullTable)
        invariant Keys() == KeySet(oldSlots[..idx]) && currSize == UsedCount(oldSlots[..idx])
      {
        KeySetStep(oldSlots, idx);
        if oldTable[idx].mode == Used {
          UsedCountPrefix(oldSlots, idx);
          KeySetPrefixUnique(oldSlots, idx);
          var slot := InsertFresh(oldTable[idx].key);
        }
      }
    }

    /** `reserve(n)`: grow the table until `n` keys stay under the load-factor ceiling. */
    method Reserve(n: nat)
      requires Valid()
      modifies this
      ensures Valid() && Keys() == old(Keys()) && currSize == old(currSize)
      ensures table == old(table) || fresh(table)
      ensures !OverLoaded(n, tableSize) && old(tableSize) <= tableSize
      ensures old(WithinLoad()) ==> WithinLoad()
      ensures !OverLoaded(n, old(tableSize)) ==> table == old(table) && tableSize == old(tableSize) && unchanged(this)
    {
      if OverLoaded(n, tableSize) {
        var newTableSize := Grown(tableSize);
        while OverLoaded(n, newTableSize)
          invariant tableSize < newTableSize
          decreases LoadDen * n - LoadNum * newTableSize
        {
          newTableSize := Grown(newTableSize);
        }
        assert Rebuildable();
        Rehash(newTableSize);
      }
    }

    /**
     * `insert(key)`: a stored key leaves everything as it was; a new key is
     * stored after making room for one more. Returns the slot of the key and
     * whether it was inserted.
     */
    method Insert(key: Key) returns (idx: nat, inserted: bool)
      requires Valid()
      modifies this, table
      ensures Valid() && Keys() == old(Keys()) + {key}
      ensures inserted <==> key !in old(Keys())
      ensures table == old(table) || fresh(table)
      ensures idx < fullTable && table[idx].mode == Used && table[idx].key == key
      ensures currSize == old(currSize) + (if inserted then 1 else 0)
      ensures !inserted ==> unchanged(this) && unchanged(table)
      ensures inserted ==> WithinLoad()
      ensures old(WithinLoad()) ==> WithinLoad()
    {
      var p := FindSlot(key);
      if p != -1 {
        return p, false;
      }
      idx := ReserveAndInsert(key);
      inserted := true;
    }

    /** The path of `insert` for a new key: `reserve(curr_size + 1)`, then `insert_`. */
    method ReserveAndInsert(key: Key) returns (idx: nat)
      requires Valid() && key !in Keys()
      modifies this, table
      ensures Valid() && Keys() == old(Keys()) + {key} && currSize == old(currSize) + 1
      ensures table == old(table) || fresh(table)
      ensures idx < fullTable && table[idx].mode == Used && table[idx].key == key
      ensures WithinLoad()
    {
      Reserve(currSize + 1);
      RoomAfterReserve(currSize + 1, tableSize);
      idx := InsertFresh(key);
    }

    /** `insert(first, last)`: insert every key of the range that is not yet stored. */
    method InsertRange(keys: seq<Key>)
      requires Valid()
      modifies this, table
      ensures Valid() && Keys() == old(Keys()) + set k | k in keys
      ensures table == old(table) || fresh(table)
      ensures Keys() != old(Keys()) ==> WithinLoad()
      ensures old(WithinLoad()) ==> WithinLoad()
    {
      ghost var start := Keys();
      for i := 0 to |keys|
        invariant Valid() && Keys() == start + set k | k in keys[..i]
        invariant (old(WithinLoad()) || Keys() != start) ==> WithinLoad()
        invariant table == old(table) || fresh(table)
      {
        assert keys[..i + 1] == keys[..i] + [keys[i]];
        InsertIfAbsent(keys[i]);
      }
      assert keys[..|keys|] == keys;
    }

    /** One step of the range insertion: a key not yet stored is inserted after reserving room for one more. */
    method InsertIfAbsent(key: Key)
      requires Valid()
      modifies this, table
      ensures Valid() && Keys() == old(Keys()) + {key}
      ensures table == old(table) || fresh(table)
      ensures key !in old(Keys()) ==> WithinLoad()
      ensures old(WithinLoad()) ==> WithinLoad()
    {
      var c := Count(key);
      if c == 0 {
        var slot := ReserveAndInsert(key);
      }
    }

    /**
     * `erase(key)`: free the slot of `key`, cut its predecessor's link, and
     * re-settle every slot that followed it in its chain: into the slot's home
     * when that is free, or behind the tail of the chain through its home.
     * Returns the number of keys removed.
     */
    method Erase(key: Key) returns (c: nat)
      requires Valid()
      modifies this, table
      ensures Valid() && Keys() == old(Keys()) - {key}
      ensures c == if key in old(Keys()) then 1 else 0
      ensures currSize == old(currSize) - c
      ensures table == old(table) && tableSize == old(tableSize) && fullTable == old(fullTable)
      ensures c == 1 ==> tableLast == fullTable
      ensures c == 0 ==> unchanged(this) && unchanged(table)
      ensures old(WithinLoad()) ==> WithinLoad()
    {
      var p := FindSlot(key);
      if p == -1 {
        return 0;
      }
      var nextOne;
      ghost var rem;
      nextOne, rem := Unlink(p);
      RepairRun(nextOne, rem);
      tableLast := fullTable;
      return 1;
    }

    /**
     * The repair loop of `erase`: re-settle the run `rem` that starts at
     * `nextOne`, one slot per round, until the run is empty.
     */
    method RepairRun(nextOne: int, ghost rem: seq<int>)
      requires table.Length == fullTable + 1
      requires ChainInv(table[..], hash, tableSize, w, rem)
      requires nextOne == -1 <==> rem == []
      requires nextOne != -1 ==> nextOne == rem[0]
      requires currSize == UsedCount(table[..])
      modifies this`currSize, this`w, table
      ensures ChainInv(table[..], hash, tableSize, w, [])
      ensures currSize == UsedCount(table[..]) && currSize == old(currSize)
      ensures KeySet(table[..]) == old(KeySet(table[..]))
    {
      var nextOne := nextOne;
      var again := nextOne;
      ghost var rest := rem;
      while nextOne != -1
        invariant ChainInv(table[..], hash, tableSize, w, rest)
        invariant nextOne == -1 <==> rest == []
        invariant nextOne != -1 ==> nextOne == rest[0]
        invariant again == nextOne
        invariant currSize == UsedCount(table[..]) && currSize == old(currSize)
        invariant KeySet(table[..]) == old(KeySet(table[..]))
        decreases |rest|
      {
        assert |rest| == 1 || table[rest[0]].next == rest[1];
        again := table[again].next;
        Resettle(nextOne, rest);
        rest := rest[1..];
        nextOne := again;
      }
    }

    /**
     * The start of `erase` on the used slot `p`: free it, cut the link from
     * its predecessor, and return its old successor, the head of the run
     * `rem` that still has to be re-settled.
     */
    method Unlink(p: nat) returns (nextOne: int, ghost rem: seq<int>)
      requires table.Length == fullTable + 1 && currSize == UsedCount(table[..])
      requires ChainInv(table[..], hash, tableSize, w, []) && Occupied(table[..], p)
      modifies this`currSize, table
      ensures table.Length == fullTable + 1
      ensures ChainInv(table[..], hash, tableSize, w, rem)
      ensures nextOne == -1 <==> rem == []
      ensures nextOne != -1 ==> nextOne == rem[0]
      ensures currSize == UsedCount(table[..]) && currSize == old(currSize) - 1
      ensures KeySet(table[..]) == old(Keys()) - {old(table[p].key)}
    {
      ghost var s0 := table[..];
      assert Occupied(s0, p);
      nextOne := table[p].next;
      EraseStart(s0, hash, tableSize, w, p);
      rem := ChainFrom(s0, hash, tableSize, w, nextOne);
      ApplyCut(p);
    }

    /** The writes at the start of `erase`: free slot `p` and cut the link from its predecessor. */
    method ApplyCut(p: nat)
      requires p < table.Length - 1 && (table[p].prev == -1 || 0 <= table[p].prev < table.Length) && currSize > 0
      modifies this`currSize, table
      ensures table[..] == Cut(old(table[..]), p) && currSize == old(currSize) - 1
    {
      var previous := table[p].prev;
      table[p] := Slot(Free, table[p].key, -1, -1);
      currSize := currSize - 1;
      if previous != -1 {
        table[previous] := table[previous].(next := -1);
      }
    }

    /**
     * One round of erase's repair loop on the head `n` of the run `rem`:
     * move it into its home slot when that is free, or else link it behind the
     * tail of the chain through its home. The run shrinks by one.
     */
    method Resettle(n: nat, ghost rem: seq<int>)
      requires table.Length == fullTable + 1
      requires ChainInv(table[..], hash, tableSize, w, rem) && rem != [] && n == rem[0]
      requires currSize == UsedCount(table[..])
      modifies this`currSize, this`w, table
      ensures ChainInv(table[..], hash, tableSize, w, rem[1..])
      ensures currSize == UsedCount(table[..]) && currSize == old(currSize)
      ensures KeySet(table[..]) == old(KeySet(table[..]))
    {
      ghost var s := table[..];
      var index := Home(hash, tableSize, table[n].key);
      table[n] := table[n].(next := -1);
      if table[index].mode == Free {
        MoveHome(n, index, s, rem);
      } else {
        LinkBehind(n, index, s, rem);
      }
    }

    /** Case A of the repair: the key of slot `n` moves into its free home slot `index`. */
    method MoveHome(n: nat, index: nat, ghost s: seq<Slot<Key>>, ghost rem: seq<int>)
      requires table.Length == fullTable + 1 && |s| == table.Length
      requires ChainInv(s, hash, tableSize, w, rem) && rem != [] && n == rem[0]
      requires index == Home(hash, tableSize, s[n].key) && s[index].mode == Free
      requires table[..] == s[n := s[n].(next := -1)]
      requires currSize == UsedCount(s)
      modifies this`currSize, this`w, table
      ensures ChainInv(table[..], hash, tableSize, w, rem[1..])
      ensures currSize == UsedCount(table[..]) && currSize == old(currSize)
      ensures KeySet(table[..]) == KeySet(s)
    {
      StepA(s, hash, tableSize, w, rem);
      UsedCountPrefix(s, n);
      MoveKey(n, index, s);
      w := Rooted(w, index);
    }

    /**
     * The writes of case A: uncount the key of slot `n`, store it again with
     * the first branch of `insert_` (its home `index` is free), and free `n`.
     */
    method MoveKey(n: nat, index: nat, ghost s: seq<Slot<Key>>)
      requires table.Length == fullTable + 1 && 0 < tableSize <= fullTable && |s| == table.Length
      requires n < fullTable && index == Home(hash, tableSize, s[n].key) && n != index && s[index].mode == Free
      requires table[..] == s[n := s[n].(next := -1)] && currSize > 0
      modifies this`currSize, table
      ensures table[..] == MovedHome(s, n, index)
      ensures currSize == old(currSize)
    {
      currSize := currSize - 1;
      var home := SetHome(table[n].key);
      table[n] := Slot(Free, table[n].key, -1, -1);
      assert table[..] == MovedHome(s, n, index);
    }

    /** Case B of the repair: slot `n` stays and is linked behind the tail of the chain through its home `index`. */
    method LinkBehind(n: nat, index: nat, ghost s: seq<Slot<Key>>, ghost rem: seq<int>)
      requires table.Length == fullTable + 1 && |s| == table.Length
      requires ChainInv(s, hash, tableSize, w, rem) && rem != [] && n == rem[0]
      requires index == Home(hash, tableSize, s[n].key) && s[index].mode != Free
      requires table[..] == s[n := s[n].(next := -1)]
      requires currSize == UsedCount(s)
      modifies this`w, table
      ensures ChainInv(table[..], hash, tableSize, w, rem[1..])
      ensures currSize == UsedCount(table[..])
      ensures KeySet(table[..]) == KeySet(s)
    {
      assert Home(hash, tableSize, s[rem[0]].key) !in rem[0..];
      assert Occupied(s, index);
      var tail;
      ghost var x;
      tail, x := TailOf(index, s, rem);
      Relink(n, tail, s, rem, x);
    }

    /** The end of case B: with `x` the walk from the home of slot `n` to the tail `tail`, link `n` behind it. */
    method Relink(n: nat, tail: nat, ghost s: seq<Slot<Key>>, ghost rem: seq<int>, ghost x: seq<int>)
      requires table.Length == fullTable + 1 && |s| == table.Length
      requires ChainInv(s, hash, tableSize, w, rem) && rem != [] && n == rem[0]
      requires IsPath(s, x) && x[0] == Home(hash, tableSize, s[n].key) && Last(x) == tail && s[tail].next == -1
      requires forall k :: 0 <= k < |x| ==> x[k] !in rem
      requires table[..] == s[n := s[n].(next := -1)]
      requires currSize == UsedCount(s)
      modifies this`w, table
      ensures ChainInv(table[..], hash, tableSize, w, rem[1..])
      ensures currSize == UsedCount(table[..])
      ensures KeySet(table[..]) == KeySet(s)
    {
      StepB(s, hash, tableSize, w, rem, x);
      Splice(n, tail, s);
      w := Appended(w, n, x);
    }

    /** The writes of case B: link slot `n` behind `tail`. */
    method Splice(n: nat, tail: nat, ghost s: seq<Slot<Key>>)
      requires n < table.Length && tail < table.Length && n != tail && |s| == table.Length
      requires table[..] == s[n := s[n].(next := -1)]
      modifies table
      ensures table[..] == LinkedBehind(s, n, tail)
    {
      table[tail] := table[tail].(next := n);
      table[n] := table[n].(prev := tail);
      assert table[..] == LinkedBehind(s, n, tail);
    }

    /** `begin()`: an iterator at the first used slot, or at the sentinel. */
    method BeginIter() returns (it: Iterator<Key>)
      requires Valid()
      ensures fresh(it) && it.table == table && it.Valid() && it.pos == NextStop(table[..], 0)
    {
      it := new Iterator(table, 0);
    }

    /** `end()`: an iterator at the sentinel. */
    method EndIter() returns (it: Iterator<Key>)
      requires Valid()
      ensures fresh(it) && it.table == table && it.Valid() && it.pos == fullTable
    {
      it := new Iterator(table, fullTable);
    }

    /**
     * A range-for over the set: iterate from `begin()` to `end()` and collect
     * the keys. Each stored key is yielded exactly once, `size()` keys in all.
     */
    method Elements() returns (ks: seq<Key>)
      requires Valid()
      ensures |ks| == currSize
      ensures forall a, b :: 0 <= a < b < |ks| ==> ks[a] != ks[b]
      ensures forall k :: k in ks <==> k in Keys()
    {
      var it := BeginIter();
      var stop := EndIter();
      ks := Collect(it, stop);
      UsedKeysMembers(table[..]);
      UsedKeysDistinct(table[..]);
    }

    /** The loop of a range-for: advance `it` to `stop`, collecting the key at each position it reaches. */
    method Collect(it: Iterator<Key>, stop: Iterator<Key>) returns (ks: seq<Key>)
      requires it.Valid() && it.table == table && it.pos == NextStop(table[..], 0)
      requires it != stop && stop.table == table && stop.pos == table.Length - 1
      requires forall j :: 0 <= j < table.Length - 1 ==> table[j].mode != End
      modifies it
      ensures ks == UsedKeys(table[..])
    {
      ghost var s := table[..];
      ks := [];
      UsedKeysSkip(s, 0, it.pos);
      while !it.Equals(stop)
        invariant it.table == table && it.Valid()
        invariant ks == UsedKeys(s[..it.pos])
        invariant it.pos == stop.pos || s[it.pos].mode == Used
        decreases stop.pos - it.pos
      {
        ks := ks + [it.Current()];
        UsedKeysStep(s, it.pos);
        var p := it.pos;
        it.Next();
        UsedKeysSkip(s, p + 1, it.pos);
      }
      UsedKeysSkip(s, stop.pos, |s|);
      assert s[..|s|] == s;
    }
  }

  /** A position in the table; `pos` plays the role of the element pointer. */
  class Iterator<Key> {
    const table: array<Slot<Key>>
    var pos: nat

    ghost predicate Valid()
      reads this, table
    {
      0 < table.Length && table[table.Length - 1].mode == End && pos < table.Length
    }

    /** `Iterator(pos)`: start at `pos` and skip to the next used slot or the sentinel. */
    constructor(table: array<Slot<Key>>, pos: nat)
      requires 0 < table.Length && table[table.Length - 1].mode == End && pos < table.Length
      ensures this.table == table && Valid() && this.pos == NextStop(table[..], pos)
    {
      this.table := table;
      this.pos := pos;
      new;
      Skip();
    }

    /** `skip`: advance over free slots. */
    method Skip()
      requires Valid()
      modifies this`pos
      ensures Valid() && pos == NextStop(table[..], old(pos))
    {
      ghost var start := pos;
      while table[pos].mode != Used && table[pos].mode != End
        invariant Valid() && start <= pos
        invariant NextStop(table[..], start) == NextStop(table[..], pos)
        decreases table.Length - pos
      {
        pos := pos + 1;
      }
    }

    /** `operator++`: step past a used slot and skip; the sentinel stays put. */
    method Next()
      requires Valid()
      modifies this`pos
      ensures Valid()
      ensures old(table[pos].mode) == End ==> pos == old(pos)
      ensures old(table[pos].mode) != End ==> old(pos) + 1 < table.Length && pos == NextStop(table[..], old(pos) + 1)
    {
      if table[pos].mode != End {
        pos := pos + 1;
      }
      Skip();
    }

    /** `operator*`: the key at the current slot, a stored key whenever the slot is used. */
    function Current(): (k: Key)
      reads this, table
      requires Valid()
      ensures table[pos].mode == Used ==> k in KeySet(table[..])
    {
      table[pos].key
    }

    /** `operator==`: both iterators point at the same slot, so they yield the same key. */
    predicate Equals(other: Iterator<Key>): (b: bool)
      reads this, other, table
      ensures this == other ==> b
      ensures b ==> (Valid() <==> other.Valid()) && (Valid() ==> Current() == other.Current())
    {
      table == other.table && pos == other.pos
    }
  }
}
