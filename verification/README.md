# ADS_set: coalesced hashing, modelled and verified in Dafny

`ADS_set<Key, N>` is a set container that stores its keys by coalesced
hashing in one array of slots. The table has three parts:

- the primary region, slots `0 .. table_size-1`, which the hash `h(key)` addresses;
- the cellar, the next `table_size * 0.1628` slots (rounded down), which only collisions reach;
- one `end` sentinel at index `full_table`.

Each slot has a mode (`free`, `used`, `end`), a key, and two integer links,
`next` and `prev`, where -1 means "no link". A key whose home slot is taken
goes to a free slot. The free slot is found by moving the cursor
`table_last` downwards (`g`). It is then linked behind the tail of the chain
that runs through the home slot. Chains of different homes can merge.

The model is one Dafny class, `AdsSet.AdsSet`. Its `array` of `Slot` values
and its fields `currSize`, `tableSize`, `fullTable` and `tableLast` are
updated in place, as the C++ class updates them. `AdsSet.Iterator` walks the
same array.

Modules:

- `Slots` (slots.dfy): the slot datatype, the home index, counting of used slots and stored keys, and the iterator's stopping point.
- `Sizing` (sizing.dfy): the load-factor ceiling `max_lf` = 7/10, the cellar ratio 1628/10000, and the sizes chosen by `reserve` and `rehash`.
- `Chains` (chains.dfy): the chain invariant, and its preservation by both branches of `insert_`.
- `Repair` (repair.dfy): the chain repair of `erase`, one lemma per step.
- `AdsSet` (ads_set.dfy): the class and its operations, each proved against the invariant and the set of stored keys `Keys()`.

The invariant `Valid()` states:

- `currSize` is the number of used slots;
- no key is stored twice;
- the sentinel is the last slot and the only `end` slot;
- free slots carry no links;
- every slot from the cursor up to the sentinel is used, so the probe loop always ends at a free slot;
- every used slot's `next` and `prev` links point at used slots that link back;
- every stored key is reachable from its home slot along `next` links, and chains are acyclic.

The last two facts are stated with a ghost witness: a walk from the home to
each used slot, and a rank that strictly increases along every `next` link.

The load-factor ceiling `size() <= table_size * max_lf` is the separate
predicate `WithinLoad()`. It is not part of `Valid()`, because `insert_` and
`rehash` on their own do not keep it: `rehash` rounds `curr_size / max_lf`
down. The public operations keep it, and inserting a new key establishes it,
because `insert` first calls `reserve(curr_size + 1)`.

The repair loop of `erase` (ADS_set.h:142-168) is proved correct. During the
loop, the invariant holds with the not-yet-processed part of the cut-off
chain set aside. The home of an unprocessed node is never that node itself
and never a node further down the chain (`Repair.HomeNotAhead`). So the
loop never revisits a node and never closes a `next` cycle. Each round
re-settles one node and keeps every stored key and the count.

The German comment at ADS_set.h:432-462 describes the two repair cases in
narrower terms than the code. In case A the home hits the gap just made; in
case B the home hits a node of the chain already processed. The code tests
only whether the home slot is free (case A) or used (case B). The model
follows the code, and the proofs cover the wider conditions.

## Model

| member | source | states |
|---|---|---|
| Slots.Home | ADS_set.h:39 | the home of every key lies in the primary region `[0, table_size)`: never a cellar slot, never the sentinel |
| Slots.NextStop | ADS_set.h:516-518 | where `skip` stops from `p`: the first used slot or the sentinel at or after `p`; every slot passed over is free |
| Slots.KeySetCard | ADS_set.h:81-84 | when keys are unique, the number of used slots equals the number of distinct stored keys, so `curr_size` is the cardinality of the set |
| Slots.UsedKeysMembers | ADS_set.h:177-182 | the keys of the used slots in slot order are exactly the stored keys |
| Slots.UsedKeysDistinct | ADS_set.h:516-532 | when keys are unique, the keys of the used slots in slot order have no repetition |
| Slots.FillSlot | ADS_set.h:244-248 | writing a key into an unused slot adds exactly that key and one used slot; uniqueness is kept when the key was absent |
| Slots.ClearSlot | ADS_set.h:134-138 | freeing a used slot removes exactly its key and one used slot |
| Slots.RelinkSlot | ADS_set.h:163-164 | changing only the links of a slot keeps the stored keys, their count and their uniqueness |
| Slots.SomeUnused | ADS_set.h:271-273 | a table with fewer used slots than slots has an unused slot, which the probe loop needs in order to stop |
| Slots.UsedCountPrefix | ADS_set.h:231-233 | a used slot at `i` means fewer used slots before `i` than in the whole table, so re-insertion never overfills the new table |
| Slots.KeySetPrefixUnique | ADS_set.h:231-233 | with unique keys, the key of a used slot is absent from the slots before it, so every key re-inserted by `rehash` is new |
| Slots.EmptyTable | ADS_set.h:220-221 | a table with no used slot stores no key and counts zero |
| Sizing.OverLoaded | ADS_set.h:202-207 | the test `n > table_size * max_lf` of `reserve`; a count under the ceiling never exceeds the primary size |
| Sizing.FullSize | ADS_set.h:218 | the sentinel index is at least the primary size |
| Sizing.GrowthFloor | ADS_set.h:217 | `curr_size / max_lf`, rounded down, is at least `curr_size`, so re-inserting the keys never needs more than the primary region's places |
| Sizing.RehashSize | ADS_set.h:217 | the new primary size is at least `N`, at least `n` and at least `curr_size`, and is one of the three candidates |
| Sizing.Grown | ADS_set.h:206 | each round of reserve's growth loop strictly enlarges the size, so the loop ends |
| Sizing.RoomAfterReserve | ADS_set.h:118-121 | a table size that keeps `curr_size + 1` keys under the ceiling has a free place for the new key |
| Chains.PathRank | ADS_set.h:264-267 | rank strictly increases along a walk of `next` links, so the walk to the tail of a chain ends |
| Chains.NextIsUsed | ADS_set.h:140-168 | under the invariant, no used slot has a `next` link to a free slot or to the sentinel |
| Chains.PathDistinct | ADS_set.h:142-168 | chains are acyclic: a walk along `next` links never visits a slot twice |
| Chains.ChainFrom | ADS_set.h:129-142 | the chain behind a used slot, collected along `next`: a whole chain that ends with `next == -1`, in increasing rank |
| Chains.PathNext | ADS_set.h:303-307 | a walk that passes a slot before its end continues with that slot's successor, so `find_` stays on the walk to the key |
| Chains.StoredOnChain | ADS_set.h:289-315 | a key is stored exactly when a walk along `next` links from its home ends at a slot that holds it |
| Chains.EmptyChains | ADS_set.h:220-229 | a fresh table of free, unlinked slots followed by the sentinel satisfies the invariant and stores nothing |
| Chains.PlaceAtHome | ADS_set.h:241-250 | storing a new key in its free home slot keeps the invariant, adds exactly that key and one used slot |
| Chains.AppendNew | ADS_set.h:275-280 | storing a new key in a free slot linked behind the tail of the chain from its home keeps the invariant, adds exactly that key and one used slot |
| Repair.RunPrev | ADS_set.h:129-140 | every node of the cut-off chain still has its old predecessor in `prev` |
| Repair.HomeNotAhead | ADS_set.h:146-149 | the home of an unprocessed node is neither that node nor a node further down the cut-off chain, so the repair loop never revisits a node |
| Repair.PathOutside | ADS_set.h:156-161 | a walk that ends outside a whole chain never touches it, so the walk to the tail in case B stays clear of the unprocessed nodes |
| Repair.EraseStart | ADS_set.h:129-140 | after the target is freed and its predecessor's link cut, the invariant holds with the cut-off chain set aside, one used slot fewer and exactly the target key gone |
| Repair.Cut | ADS_set.h:134-140 | the first writes of `erase`: slot `p` becomes free and unlinked, its predecessor loses only its `next` link, and no other slot changes |
| Repair.CutCounts | ADS_set.h:134-140 | the cut removes exactly the target key, keeps keys unique and free slots unlinked |
| Repair.StepA | ADS_set.h:149-155 | case A (home free): moving the head of the run into its home keeps the invariant with the run one shorter, and keeps every key and the count |
| Repair.StepB | ADS_set.h:156-166 | case B (home used): linking the head of the run behind the tail of the chain through its home keeps the invariant with the run one shorter, and keeps every key and the count |
| AdsSet.AdsSet.constructor | ADS_set.h:49-52 | the default constructor builds an empty valid set by `rehash(N)`, with primary size `N` and the load-factor ceiling met, in a fresh table that the set alone owns |
| AdsSet.AdsSet.Size | ADS_set.h:81-84 | `size()` is the number of stored keys |
| AdsSet.AdsSet.Empty | ADS_set.h:85-88 | `empty()` holds exactly when no key is stored |
| AdsSet.AdsSet.Probe | ADS_set.h:40 | `g` moves the cursor one slot down and returns it |
| AdsSet.AdsSet.SetHome | ADS_set.h:241-250 | the first branch of `insert_` writes the key with no links at its home, changes no other slot and counts one more |
| AdsSet.AdsSet.InsertFresh | ADS_set.h:239-285 | `insert_` of an absent key keeps the invariant and adds exactly that key. It uses a slot that was free: the home, with no links and the cursor unchanged; or a slot below the cursor, linked behind the slot that ended the chain walked from the key's home. A free home always takes the key. No other slot changes |
| AdsSet.AdsSet.InsertChained | ADS_set.h:254-280 | the second branch of `insert_`: the key goes to the free slot at the new cursor, linked as the new tail behind the last slot of the chain walked from its home; only those two slots change |
| AdsSet.AdsSet.AttachNew | ADS_set.h:275-280 | the writes at a free slot behind the tail keep the invariant and add exactly the key |
| AdsSet.AdsSet.LinkTail | ADS_set.h:275-280 | the new slot holds the key with `next = -1` and `prev = tail`, the tail's `next` is the new slot, and nothing else changes |
| AdsSet.AdsSet.TailOf | ADS_set.h:259-269 | the walk from a used slot reaches the tail of its chain, a slot with `next == -1`, along a walk of `next` links |
| AdsSet.AdsSet.ProbeFree | ADS_set.h:271-273 | the probe loop stops at a free slot at the new cursor, and every slot above the cursor is still used |
| AdsSet.AdsSet.SomeFreeBelowCursor | ADS_set.h:271-273 | under the invariant, with fewer keys than slots, some free slot lies below the cursor, so the probe loop ends |
| AdsSet.AdsSet.FindSlot | ADS_set.h:289-315 | `find_` returns a slot exactly when the key is stored, and that slot holds the key; it changes nothing |
| AdsSet.AdsSet.SearchChain | ADS_set.h:303-307 | the do-while of `find_` returns only slots that hold the key, and reaches the key when it lies further down the walk |
| AdsSet.AdsSet.Find | ADS_set.h:94-97 | `find` gives an iterator at the slot of a stored key, or at the sentinel for an absent key |
| AdsSet.AdsSet.Count | ADS_set.h:90-93 | `count` is 1 for a stored key and 0 otherwise |
| AdsSet.AdsSet.Rehash | ADS_set.h:215-236 | `rehash` moves every stored key into a fresh table of primary size `max(N, n, curr_size / max_lf)` and full size `table_size + cellar`; the keys and the count are kept |
| AdsSet.AdsSet.Reset | ADS_set.h:217-229 | the new table is empty and valid, with the cursor at the sentinel |
| AdsSet.AdsSet.Reinsert | ADS_set.h:231-233 | re-inserting the used slots of the old table in slot order stores exactly their keys |
| AdsSet.AdsSet.Reserve | ADS_set.h:199-211 | afterwards `n` keys stay under the ceiling and the primary size has not shrunk, so the ceiling for the stored keys is kept; when `n` keys already fit, nothing changes |
| AdsSet.AdsSet.Insert | ADS_set.h:118-122 | `insert(key)` adds the key and returns its slot. The flag is true exactly when the key was absent. A present key leaves everything unchanged. The set keeps its table or owns a fresh one. After a new key is inserted, `size()` is within the load-factor ceiling, and the ceiling is never lost |
| AdsSet.AdsSet.ReserveAndInsert | ADS_set.h:120-121 | `reserve(curr_size + 1)` then `insert_` stores an absent key and counts one more, and leaves `size()` within the load-factor ceiling |
| AdsSet.AdsSet.InsertRange | ADS_set.h:318-326 | `insert(first, last)` adds exactly the keys of the range, and the set keeps its table or owns a fresh one; once a new key has been added, or when it held before, `size()` is within the load-factor ceiling |
| AdsSet.AdsSet.InsertIfAbsent | ADS_set.h:320-324 | one round of the range insertion adds the key; a new key leaves `size()` within the load-factor ceiling, which is never lost |
| AdsSet.AdsSet.Erase | ADS_set.h:126-175 | `erase` removes exactly the key and keeps the invariant, so every other key stays findable. It returns 1 and counts one fewer for a stored key, and resets the cursor to the sentinel. It returns 0 and changes nothing for an absent key. The load-factor ceiling is kept |
| AdsSet.AdsSet.Unlink | ADS_set.h:129-140 | freeing the target and cutting its predecessor's link leaves the invariant with the cut-off chain set aside, one key fewer, and returns the head of that chain |
| AdsSet.AdsSet.ApplyCut | ADS_set.h:134-140 | the writes of the cut: the target is freed with no links, the predecessor's `next` becomes -1 |
| AdsSet.AdsSet.RepairRun | ADS_set.h:142-168 | the repair loop re-settles the whole cut-off chain, keeping every key and the count, and ends with the invariant restored |
| AdsSet.AdsSet.Resettle | ADS_set.h:144-166 | one round of the repair loop shortens the unprocessed chain by one and keeps every key and the count |
| AdsSet.AdsSet.MoveHome | ADS_set.h:149-155 | case A keeps the invariant with the unprocessed chain one shorter, and keeps every key and the count |
| AdsSet.AdsSet.MoveKey | ADS_set.h:150-154 | the writes of case A: the key moves from its slot into its free home with no links; the old slot is freed; the count is net unchanged |
| AdsSet.AdsSet.LinkBehind | ADS_set.h:156-166 | case B keeps the invariant with the unprocessed chain one shorter, and keeps every key and the count |
| AdsSet.AdsSet.Relink | ADS_set.h:163-164 | linking the node behind the tail reached from its home keeps the invariant |
| AdsSet.AdsSet.Splice | ADS_set.h:163-164 | the writes of case B: the tail's `next` is the node, the node's `prev` is the tail, and nothing else changes |
| AdsSet.AdsSet.BeginIter | ADS_set.h:177-179 | `begin()` is at the first used slot, or at the sentinel |
| AdsSet.AdsSet.EndIter | ADS_set.h:180-182 | `end()` is at the sentinel |
| AdsSet.AdsSet.Elements | ADS_set.h:177-182 | iterating from `begin()` to `end()` yields every stored key exactly once, `size()` keys in all |
| AdsSet.AdsSet.Collect | ADS_set.h:528-532 | advancing with `++` from `begin()` to `end()` visits the used slots in slot order |
| AdsSet.Iterator.constructor | ADS_set.h:521 | an iterator built at a position skips to the next used slot or the sentinel |
| AdsSet.Iterator.Skip | ADS_set.h:516-518 | `skip` stops at the first used slot or the sentinel at or after the position |
| AdsSet.Iterator.Current | ADS_set.h:522-524 | `operator*` on a used slot yields a key stored in the table |
| AdsSet.Iterator.Equals | ADS_set.h:538 | `operator==`: an iterator equals itself, and equal iterators are valid together and yield the same key |
| AdsSet.Iterator.Next | ADS_set.h:528-532 | `++` on the sentinel stays there; elsewhere it steps past the slot and skips |

## Left out

- `dump` (ADS_set.h:328-347) writes to an output stream only.
- The copy constructor, both `operator=`, `swap`, `clear`, and the initializer-list and range constructors (ADS_set.h:53-79, 99-112) are not modelled. They only move ownership of a table or call `insert`.
- The set's `operator==` and `operator!=` (ADS_set.h:186-190) are not modelled.
- The iterator's `operator->`, postfix `++` and `operator!=` (ADS_set.h:525-539) are not modelled. They are thin wrappers over `operator*`, prefix `++` and `operator==`.
- The iterator's default null position (ADS_set.h:521) is not modelled: every model iterator points into a table.
- The commented-out code (ADS_set.h:355-428, 466-495, 545-577) is not modelled; it is not compiled.
- Memory management is not modelled. `rehash` allocates a fresh Dafny array and drops the old one, with no `delete[]`. The constructor's null table is a one-slot table holding only the sentinel, so the first `rehash` has nothing to copy, as in the C++ code.
- `max_lf` and `cellar` are exact rationals, 7/10 and 1628/10000. The C++ code uses `float` products and a float division by `max_lf`. For very large sizes these can round differently from the exact values.
- `size_t` arithmetic is unbounded in the model. `next`/`prev` are `int` in C++; tables of more than 2^31 slots are not modelled.
- AdsSet.AdsSet.constructor: requires `N > 0`, and `Valid()` includes `N > 0`. The C++ template accepts `ADS_set<Key, 0>`: there `rehash(0)` of an empty set picks a primary size of 0 (ADS_set.h:217), and the first `find_` then takes `hash % 0` in `h` (ADS_set.h:39), which is undefined. `insert`, `count`, `find` and `erase` all call `find_`.
- A model `Iterator` keeps the array it was built on. A C++ iterator's `pos` pointer dangles once `rehash` replaces the table, so using it afterwards is undefined behaviour; the model does not capture that.
- AdsSet.AdsSet.Probe: requires `table_last > 0`. The C++ decrement in `g` would wrap at 0. The cursor invariant keeps the cursor positive whenever the probe loop runs, so the wrap never happens.
- AdsSet.AdsSet.InsertFresh: requires the key to be absent and a free slot to exist, which `insert_` itself does not check. `insert`, the range `insert` and `rehash` guarantee both. Erase's case A calls `insert_` while the key is still stored in the slot being re-settled (ADS_set.h:151-152); the model does not route that call through `InsertFresh` but through `SetHome`, the first branch of `insert_`, which is what runs there because the home slot is free.
- `std::hash` is not visible. The hash is a function value `hash: Key -> nat` fixed at construction, and `std::equal_to` is Dafny equality.
- `find_` and `insert_` return a slot index instead of a pointer; null is -1.
- `insert(key)` returns the slot and the flag instead of an iterator pair.
- AdsSet.AdsSet.Rehash: does not promise `table_last == full_table` afterwards. Re-inserting a key whose home is already taken moves the cursor down (ADS_set.h:271-273). So only `table_last <= full_table`, with every slot from the cursor up used, holds after `rehash`.
