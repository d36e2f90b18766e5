# Mountain Climbing Tracker: a verified model

This project models the core of a mountain-climbing tracker in Dafny.

- **Mountains.** A mountain has a name, a difficulty and a length. Mountains are ordered by length, then by name. The order is non-strict on the name.
- **Organiser.** A `MountainOrganiser` keeps the mountains it has been given in a sorted list. It grows that list by merging in a merge-sorted batch. It ranks a mountain by binary search.
- **Trails.** A trail is a tree of series (a mountain, then the rest of the trail) and splits (a top and a bottom branch that join into a following trail). `follow_path` walks one path through it with an explicit stack.
- **Two hash tables.**
  - The `DoubleKeyTable` maps a pair `(key1, key2)` to a value. Its outer array is probed linearly from a rolling hash of `key1`. Each occupied slot holds `key1` and an inner table of `(key2, value)` pairs. The outer array grows through a fixed list of prime capacities. Deleting the last pair under a `key1` empties its outer slot and re-inserts the rest of that slot's probe cluster.
  - The `InfiniteHashTable` is a prefix trie of 27-slot tables. The slot at level `l` is the key's `l`-th character code modulo 26, or slot 26 once the key is used up. A slot is empty, holds a `(key, value)` leaf, or holds a `[prefix, table]` node. Inserting splits a leaf that is in the way into a node one level down. Deleting clears the leaf and may fold the top slot of its path into the one leaf left below it.

One Dafny module models each source file:

| source file | model file | module |
|---|---|---|
| `mountain.py` | `mountain.dfy` | `Mountains` |
| `algorithms/binary_search.py` | `binary_search.dfy` | `BinarySearch` |
| `mountain_organiser.py` | `mountain_organiser.dfy` | `MountainOrganisers` |
| `trail.py` | `trail.dfy` | `Trails` |
| `double_key_table.py` | `double_key_table.dfy` | `DoubleKeyTables` |
| `infinite_hash_table.py` | `infinite_hash_table.dfy` | `InfiniteHashTables` |

Two more modules stand in for code that is not part of this model, and state only the contracts the core relies on:

- `Sorting` (`mergesort.dfy`) stands in for `algorithms/mergesort.py`.
- `InnerTables` (`inner_table.dfy`) stands in for the inner `LinearProbeTable`.

`Options` (`options.dfy`) is the usual `Option` type.

Each imperative source file is modelled in its own form:

- **Double-key table.** A class over an `array` of outer slots with a pair count. Its probe, cluster re-insertion and rebuild loops are `while`/`for` loops with invariants. `Get(key1, key2)` is the map the table stands for.
- **Infinite table.** A class whose cursor field `self.table` points at a trie value. The trie value is rebuilt along the path when a deep slot is written. `Get(key)` is what the `get_location` descent finds.
- **Trail walk.** A loop over a sequence used as the stack. It is proved to add exactly the mountains of the walk that `Path` defines.

Three places where the code does something other than what its docstrings say are listed under "Findings". For each, the model has both the code as written and a corrected version. Two further divergences in the infinite table's `__setitem__` are modelled as written and described under "Left out": a key that runs out is `Dropped`, and a key equal to a node's prefix overwrites the node (`ReplacedNode`).

- The organiser's `CurPosition` follows the code: it raises `IndexError` where the docstring promises `KeyError`.
- The infinite table's `GetItem`, `Contains` and `DelItem` use the corrected lookup and the corrected collapse, because the code as written loses or misses keys that are stored.

## Model

| member | source | states |
|---|---|---|
| Mountains.Lt | mountain.py:11-18 | a shorter mountain is `<` a longer one, `<` never holds for a longer one, and two mountains with the same length and name are `<` each other |
| Mountains.Gt | mountain.py:28-35 | a longer mountain is `>` a shorter one, `>` never holds for a shorter one, and two mountains with the same length and name are `>` each other |
| Mountains.Eq | mountain.py:20-26 | `==` returns `None` exactly when the lengths differ, and `True` exactly when length and name agree |
| Mountains.NameLeReflexive | mountain.py:17 | Python's `<=` on names holds between a name and itself |
| Mountains.NameLeTotal | mountain.py:17 | of two names, one is `<=` the other |
| Mountains.NameLeAntisymmetric | mountain.py:34 | names that are `<=` each other are equal |
| Mountains.NameLeTransitive | mountain.py:17 | `<=` on names is transitive |
| Mountains.ComparisonWhenLengthsDiffer | mountain.py:16-35 | with different lengths, `<` holds iff the first is shorter, `>` iff it is longer, and exactly one of them holds |
| Mountains.ComparisonWhenLengthsAgree | mountain.py:16-34 | with equal lengths, `<` is `<=` on names and `>` is `>=` on names, so mountains with the same length and name satisfy both |
| Mountains.EqMeaning | mountain.py:25-26 | `==` is truthy iff length and name agree, and is `None` when the lengths differ |
| Mountains.GtIsConverseOfLt | mountain.py:11-35 | `a > b` holds exactly when `b < a` |
| Mountains.LtTotalPreorder | mountain.py:16-18 | `<` is reflexive, total and transitive, and two mountains are `<` each other iff length and name agree |
| BinarySearch.SearchAux | algorithms/binary_search.py:19-41 | a returned index lies in the range and holds an equal element; `IndexError` can only come from a range ending at `len(l)`; `ValueError` only when none of `>`, `<`, `==` holds at some index of the range; every call shrinks `hi - lo` |
| BinarySearch.Search | algorithms/binary_search.py:6-17 | the search over `0..len(l)` returns only indices of equal elements, and `ValueError` only for an element that none of the three operators relates to the item |
| BinarySearch.MountainEq | algorithms/binary_search.py:27 | the truth value the search tests is "same length and same name" |
| BinarySearch.SearchMountains | algorithms/binary_search.py:17 | on mountains, a returned index holds a mountain with the item's length and name |
| BinarySearch.SearchAuxIsLowerBound | algorithms/binary_search.py:26-37 | on a sorted list, a call whose range brackets the first mountain not below the item ends there, reporting `Found`, `KeyError` or `IndexError` from that one position |
| BinarySearch.SearchMountainsCorrect | algorithms/binary_search.py:6-41 | on a sorted list: never `ValueError`; `Found` iff a mountain with that length and name is present; `IndexError` iff every mountain lies below the item (the empty list included); `KeyError` otherwise |
| BinarySearch.AboveEveryMountainRaisesIndexError | algorithms/binary_search.py:26-29 | on the empty list, or with a mountain above every element, the code raises `IndexError` and not `KeyError` |
| BinarySearch.SearchAuxChecked | algorithms/binary_search.py:26-29 | the base case with a bounds check never raises `IndexError`, and a returned index holds an equal element |
| BinarySearch.CheckedDiffersOnlyInIndexError | algorithms/binary_search.py:19-41 | the checked search gives the same outcome as the code, except that it reports `KeyError` where the code raises `IndexError` |
| BinarySearch.SearchMountainsChecked | algorithms/binary_search.py:9-11 | a returned index holds a mountain with the item's length and name |
| BinarySearch.SearchMountainsCheckedCorrect | algorithms/binary_search.py:9-11 | on a sorted list, the checked search finds an index iff the mountain is present, and raises `KeyError` iff it is absent |
| Sorting.Merge | mountain_organiser.py:49 | `merge` returns the multiset union of its inputs, sorted when both inputs are sorted |
| Sorting.MergeSort | mountain_organiser.py:48 | `mergesort` returns a sorted permutation of its input |
| MountainOrganisers.MountainOrganiser.constructor | mountain_organiser.py:9-13 | a new organiser holds no mountains |
| MountainOrganisers.MountainOrganiser.AddMountains | mountain_organiser.py:28-49 | because the `is None` guard never holds, the list becomes `merge(mergesort(batch), old list)`; it then holds the old and the new mountains as a multiset, and stays sorted |
| MountainOrganisers.MountainOrganiser.CurPosition | mountain_organiser.py:16-25 | `binary_search(self.m_list, mountain)` as written. A returned rank holds a mountain with that length and name. On a sorted list: never `ValueError`; a rank exists iff the mountain was added; `IndexError` iff every listed mountain lies below it, the empty organiser included; `KeyError` otherwise |
| MountainOrganisers.AddedMountainsAreRanked | mountain_organiser.py:28-49 | after `add_mountains`, `binary_search` finds a rank for every mountain of the batch and every mountain already present |
| Trails.TrailSplit.RemoveBranch | trail.py:29-31 | removing a branch leaves a strictly smaller trail store |
| Trails.TrailSeries.RemoveMountain | trail.py:47-50 | removing the first mountain leaves a strictly smaller trail store |
| Trails.TrailSeries.AddMountainBefore | trail.py:53-58 | returns a series headed by the new mountain; removing that mountain gives back the original series |
| Trails.TrailSeries.AddEmptyBranchBefore | trail.py:61-68 | returns a split with two empty branches; removing the split gives back the original series |
| Trails.TrailSeries.AddMountainAfter | trail.py:70-77 | keeps the current mountain first and puts the new one second; removing both gives back the original following store |
| Trails.TrailSeries.AddEmptyBranchAfter | trail.py:79-85 | keeps the current mountain first and then puts a split with two empty branches; removing the mountain and then the split gives back the original following store |
| Trails.Trail.AddMountainBefore | trail.py:94-96 | returns a trail headed by the new mountain; removing that mountain gives back the original store |
| Trails.Trail.AddEmptyBranchBefore | trail.py:98-100 | returns a trail that starts with a split with two empty branches; removing the split gives back the original store |
| Trails.FollowPath | trail.py:102-132 | the mountains handed to `add_mountain` are exactly the walk `Path`: at each split it takes the chosen branch, then the following trail, innermost split first; the cursor ends on the store it started with |
| Trails.SeriesStep | trail.py:113-115 | a series step moves its mountain from what is left to walk to what has been added |
| Trails.SplitStep | trail.py:117-124 | a split step makes the chosen branch current and pushes the following trail, keeping what is left to walk |
| Trails.PopStep | trail.py:131-132 | popping the stack at the end of a branch keeps what is left to walk |
| Trails.SeriesAddMountainBeforePath | trail.py:53-58 | a mountain added before a series is met first on every walk, then the series as before |
| Trails.SeriesAddEmptyBranchBeforePath | trail.py:61-68 | an empty branch added before a series changes no walk |
| Trails.SeriesAddMountainAfterPath | trail.py:70-77 | a mountain added after the first one is met second on every walk |
| Trails.SeriesAddEmptyBranchAfterPath | trail.py:79-85 | an empty branch added after the first mountain changes no walk |
| Trails.TrailAddMountainBeforePath | trail.py:94-96 | `Trail.add_mountain_before` puts the mountain in front of every walk |
| Trails.TrailAddEmptyBranchBeforePath | trail.py:98-100 | `Trail.add_empty_branch_before` changes no walk |
| InnerTables.InnerTable.Get | double_key_table.py:251 | the inner lookup fails exactly when no entry has the key, and otherwise returns that entry's value |
| InnerTables.InnerTable.Put | double_key_table.py:268 | after an inner insert the key maps to the new value and every other key keeps its value; the entry count grows by one exactly when the key was new |
| InnerTables.InnerTable.Delete | double_key_table.py:296 | an inner delete removes exactly that key; the entry count drops by one exactly when the key was present |
| InnerTables.InnerTable.Len | double_key_table.py:295 | the inner length is zero exactly when no key is present |
| InnerTables.InnerTable.Keys | double_key_table.py:164-167 | the inner keys list holds one key per entry, and exactly the present keys |
| InnerTables.InnerTable.Values | double_key_table.py:219-222 | the inner values list holds each entry's value, in entry order |
| InnerTables.Empty | double_key_table.py:99 | a fresh inner table is well formed, empty, and has the given capacity |
| DoubleKeyTables.HashState | double_key_table.py:54-58 | the running hash value always stays below the capacity |
| DoubleKeyTables.RollingHash | double_key_table.py:54-59 | the rolling hash of a key lies in `[0, size)` for every capacity of at least 2 |
| DoubleKeyTables.SingleCharacterHash | double_key_table.py:54-59 | a one-character key hashes to its character code modulo the capacity |
| DoubleKeyTables.NextSlot | double_key_table.py:115 | `(pos + 1) % table_size` is the next slot, wrapping to 0 after the last |
| DoubleKeyTables.AbsentAfterProbe | double_key_table.py:91-105 | a probe that passed over slots holding other keys and then met an empty slot proves the key absent |
| DoubleKeyTables.FullAfterProbe | double_key_table.py:91-120 | a probe that passed over every slot without meeting `key1` shows the table has no vacancy and no slot for `key1`, so `FullError` is justified |
| DoubleKeyTables.StoreNew | double_key_table.py:98-103 | a new `key1` stored in the empty slot where its probe stops keeps the table well formed, adds exactly that key, and adds one occupied slot |
| DoubleKeyTables.StoreNewKey | double_key_table.py:99-101 | a new `key1` with a fresh inner table adds no pair and is found at its slot |
| DoubleKeyTables.PutPair | double_key_table.py:262-268 | putting `(key2, data)` into a slot's inner table changes the pair map at that one pair, and adds one to the pair count exactly when the pair was new |
| DoubleKeyTables.ReplaceInner | double_key_table.py:268 | replacing the inner table under an existing `key1` keeps the table well formed and changes only what `key1` maps to |
| DoubleKeyTables.ClearSlot | double_key_table.py:300 | emptying an occupied slot removes exactly its `key1`, one occupied slot, and that slot's entries |
| DoubleKeyTables.OuterKeysAreTheKeys | double_key_table.py:155-160 | `keys()` lists each stored `key1` exactly once, and nothing else |
| DoubleKeyTables.AllValuesAreTheValues | double_key_table.py:207-215 | `values()` has as many values as there are stored pairs, and lists exactly the values of the stored pairs |
| DoubleKeyTables.AllValuesArePairValues | double_key_table.py:207-215 | `values()` is, for each `key1` in `keys()` order, the value of each stored pair `(key1, key2)` in `keys(key1)` order; so each pair contributes its value once, and values are listed with their multiplicity |
| DoubleKeyTables.DoubleKeyTable.constructor | double_key_table.py:30-44 | a new table uses the given or default capacity schedules, starts at index 0 with one empty array of the first capacity and count 0, and maps no pair |
| DoubleKeyTables.DoubleKeyTable.TableSize | double_key_table.py:340-345 | the outer capacity is at least 2, and is the current entry of the schedule while it lasts |
| DoubleKeyTables.DoubleKeyTable.Len | double_key_table.py:347-352 | `len` is the number of stored pairs, and is 0 iff the table maps no pair |
| DoubleKeyTables.DoubleKeyTable.NoPairsIffNoEntries | double_key_table.py:352 | the inner tables hold no entries exactly when the table maps no pair |
| DoubleKeyTables.DoubleKeyTable.Hash1 | double_key_table.py:47-59 | the hash loop computes the rolling hash of `key1` over the outer capacity |
| DoubleKeyTables.DoubleKeyTable.Hash2 | double_key_table.py:61-73 | the hash loop computes the rolling hash of `key2` over the inner table's capacity |
| DoubleKeyTables.DoubleKeyTable.Probe | double_key_table.py:76-120 | ends at the slot of `key1`, at the empty slot where it would go (insert mode), with `FullError` (insert mode, no vacancy, `key1` absent), or with `KeyError` (lookup mode), which on a well-formed table is raised exactly when `key1` is absent or lacks `key2` |
| DoubleKeyTables.DoubleKeyTable.StorePair | double_key_table.py:261-268 | the pair map changes at `(key1, key2)` only, which now maps to `data`; `count` grows by one exactly when the pair was new; on `FullError` nothing changes |
| DoubleKeyTables.DoubleKeyTable.SetItem | double_key_table.py:253-275 | `self[key1, key2]` maps to the new value, every other pair keeps its value, and `count` grows by one exactly when the pair was absent; after a normal return at most half the outer slots are occupied unless the schedule is used up; `FullError` or `IndexError` raised before any rebuild changes nothing, and after a failed nested rebuild only the table's invariant holds |
| DoubleKeyTables.DoubleKeyTable.Rehash | double_key_table.py:315-337 | moves to the next capacity and keeps every pair and the count; at the end of the schedule it leaves the array as it is, and past the end it raises `IndexError` |
| DoubleKeyTables.DoubleKeyTable.Rebuild | double_key_table.py:328-337 | a fresh array of the new capacity into which every pair is set again: the same pairs, the same count, and the load bound |
| DoubleKeyTables.DoubleKeyTable.ReinsertEntries | double_key_table.py:333-337 | re-setting the entries of one old slot extends the rebuilt prefix by that slot |
| DoubleKeyTables.DoubleKeyTable.GetItem | double_key_table.py:240-251 | `table[key1, key2]` returns the pair's value, or `KeyError` when the pair is absent |
| DoubleKeyTables.DoubleKeyTable.Contains | double_key_table.py:227-238 | `(key1, key2) in table` holds iff the pair is present |
| DoubleKeyTables.DoubleKeyTable.DelItem | double_key_table.py:278-312 | an absent pair raises `KeyError` and changes nothing; a present pair is removed, every other pair keeps its value, `count` drops by one, and every remaining `key1` is reachable by probing |
| DoubleKeyTables.DoubleKeyTable.DeleteInner | double_key_table.py:295-297 | deleting from an inner table that keeps other pairs removes exactly that pair and decrements `count` |
| DoubleKeyTables.DoubleKeyTable.DeleteSlot | double_key_table.py:298-312 | deleting the last pair of an inner table clears its outer slot, re-inserts the cluster, removes exactly that pair and decrements `count` |
| DoubleKeyTables.DoubleKeyTable.ReinsertCluster | double_key_table.py:303-312 | the cluster loop leaves every key reachable again, keeping its inner table and the count |
| DoubleKeyTables.DoubleKeyTable.Keys | double_key_table.py:146-169 | `keys()` is the occupied slots' `key1`s in slot order; `keys(k)` raises `KeyError` iff `k` is absent and is otherwise `k`'s inner keys |
| DoubleKeyTables.DoubleKeyTable.Values | double_key_table.py:198-224 | `values()` is every inner table's values, slot after slot; `values(k)` raises `KeyError` iff `k` is absent and is otherwise `k`'s inner values |
| DoubleKeyTables.EmptyTable | double_key_table.py:43 | an array of empty slots is a well-formed table with no pairs |
| DoubleKeyTables.EmptyIffNoPairs | double_key_table.py:352 | a table holds no pair exactly when its inner tables hold no entries |
| DoubleKeyTables.MovedStep | double_key_table.py:334-337 | re-setting one entry during a rehash adds exactly that pair, which was not yet there |
| DoubleKeyTables.MovedAll | double_key_table.py:331-337 | once every old slot has been re-set, the rebuilt pairs are exactly the old table's pairs |
| DoubleKeyTables.ClearStep | double_key_table.py:308 | emptying the slot at the cluster cursor leaves unreachable only keys further along the cluster |
| DoubleKeyTables.FillStep | double_key_table.py:310-311 | re-inserting an entry where its fresh probe stops breaks no key's reachability |
| DoubleKeyTables.ExitRun | double_key_table.py:305 | once the cluster cursor reaches an empty slot, every key is reachable again |
| DoubleKeyTables.ReinsertStep | double_key_table.py:305-312 | one round of the cluster loop keeps the pair map; either the entry moves closer to its hash slot, or nothing changes and the cursor comes closer to the next empty slot, so the loop ends |
| DoubleKeyTables.DeletePair | double_key_table.py:296-297 | deleting from an inner table that keeps other pairs removes exactly that pair and one entry |
| DoubleKeyTables.ClearLastPair | double_key_table.py:299-301 | emptying the outer slot of an inner table's only pair removes exactly that pair and one entry, and leaves unreachable only keys in the cluster after it |
| InfiniteHashTables.Hash | infinite_hash_table.py:30-33 | the slot is below 27, and is the terminal slot 26 exactly when the key is used up, so it never collides with a character slot |
| InfiniteHashTables.EmptySlots | infinite_hash_table.py:26 | `ArrayR(TABLE_SIZE)` is 27 empty slots |
| InfiniteHashTables.Walk | infinite_hash_table.py:194-222 | the descent of `get_location`: `KeyError` at an empty slot or when the cursor is a value, success at a leaf holding the key, one level down otherwise, and falling off after the key's terminal slot. Its results are characterised by `LocationSound` and `LocationComplete` |
| InfiniteHashTables.LocationSound | infinite_hash_table.py:205-222 | an index path that `get_location` returns runs along the key's slots to a leaf that holds the key and the value found |
| InfiniteHashTables.LocationComplete | infinite_hash_table.py:205-222 | a leaf holding the key at the end of a path along the key's slots is what `get_location` finds, with that path |
| InfiniteHashTables.WalkThrough | infinite_hash_table.py:219-222 | a descent along a route of nodes passes them and carries on in the table the route reaches |
| InfiniteHashTables.WalkPut | infinite_hash_table.py:78 | writing a slot that a key's descent never reaches leaves that descent unchanged |
| InfiniteHashTables.FellOffAtValue | infinite_hash_table.py:209-222 | the loop of `get_location` can only run out of levels with the cursor on a leaf's value |
| InfiniteHashTables.Descend | infinite_hash_table.py:205-222 | the loop of `get_location` computes the descent `Walk` |
| InfiniteHashTables.PutLookup | infinite_hash_table.py:78 | writing a slot at the end of a route keeps every lookup whose slots avoid it, and decides the others in that table |
| InfiniteHashTables.PlaceLeaf | infinite_hash_table.py:77-85 | storing `(key, value)` on the key's path makes the key find `value` and keeps leaves placed; into an empty slot it was absent and no other key changes; over its own leaf it was present and no other key changes; other keys are unchanged or lost |
| InfiniteHashTables.SplitLeaf | infinite_hash_table.py:87-94 | splitting a leaf for another key into `[key[:level+1], fresh table]`, with that leaf moved one level down at its own slot, changes no lookup and keeps leaves placed |
| InfiniteHashTables.ClearLeaf | infinite_hash_table.py:147-149 | clearing the key's leaf at the end of its location removes exactly that key and keeps leaves placed |
| InfiniteHashTables.LastLeaf | infinite_hash_table.py:159-163 | `remaining_tuple` is empty iff the table holds no leaf, and otherwise is a leaf of the table |
| InfiniteHashTables.CountAt | infinite_hash_table.py:159-165 | a leaf or node slot is counted, and the only leaf of a table is the one kept as `remaining_tuple` |
| InfiniteHashTables.ChainFind | infinite_hash_table.py:154-172 | in a chain of tables each holding only the next node, ending in a table with only one leaf, the only key a descent finds is that leaf's key |
| InfiniteHashTables.CollapseRoot | infinite_hash_table.py:177-180 | folding such a chain under a top slot into its leaf keeps every found key's value, and when leaves are placed it changes no lookup |
| InfiniteHashTables.FollowPath | infinite_hash_table.py:156-157 | `for i in location_list[:level]` reaches the table at the end of that route |
| InfiniteHashTables.Scan | infinite_hash_table.py:158-165 | the scan counts the nodes in `key_count`, adds the leaves to `tuple_count`, and keeps the last leaf |
| InfiniteHashTables.ChainAt | infinite_hash_table.py:154-172 | when the tables below top slot `path[0]` form a chain, the table at each level holds one node and no leaf, and the deepest one holds one leaf and no node |
| InfiniteHashTables.FoldNeedsCounts | infinite_hash_table.py:154-172 | a fold happens only if each scanned table holds what a chain holds, so a table with any other content stops the collapse |
| InfiniteHashTables.Collapse | infinite_hash_table.py:152-180 | the corrected collapse. It computes `Folded`: when the tables from the one under top slot `path[0]` down to the one the deletion was made in each hold only the path's next node, and the deepest holds only one leaf, slot `path[0]` becomes that leaf; otherwise nothing changes. Every key found before is found after with the same value, and with placed leaves no lookup changes at all |
| InfiniteHashTables.ScanAsWritten | infinite_hash_table.py:158-169 | the scan with the give-up test inside the loop: when it runs to the end, its count and its remaining leaf agree |
| InfiniteHashTables.CollapseAsWritten | infinite_hash_table.py:152-180 | the collapse as written rewrites at most top slot `path[0]`, and then to a leaf |
| InfiniteHashTables.CollapseAsWrittenLosesKeys | infinite_hash_table.py:159-180 | deleting `"ac"` from `{"aa", "aba", "abb", "ac"}` makes the collapse as written fold the top slot into `"aa"`, so `"aba"` is no longer found |
| InfiniteHashTables.Store | infinite_hash_table.py:71-97 | the loop of `__setitem__`: the key finds the value unless the key ran out first; an insert into an empty slot means it was absent, an overwrite of its leaf means it was present, and neither changes another key; overwriting a node whose prefix is the key can only lose keys, and only keys whose slot path goes through the overwritten slot, that is, keys below the node; a key that runs out stores nothing and changes no lookup; leaves stay placed |
| InfiniteHashTables.GetItemAsWritten | infinite_hash_table.py:46-58 | `__getitem__` as written keeps indexing the top table and overwrites its slot, so its slots keep their number |
| InfiniteHashTables.GetItemAsWrittenMissesDeepKey | infinite_hash_table.py:46-58 | after `t["aa"] = 1` and `t["ab"] = 2`, `t["ab"]` raises `KeyError` as written, although the descent finds 2 |
| InfiniteHashTables.InfiniteHashTable.constructor | infinite_hash_table.py:23-27 | a new table is one empty 27-slot table with count 0 and maps no key |
| InfiniteHashTables.InfiniteHashTable.GetLocation | infinite_hash_table.py:194-222 | returns the descent's outcome; restores the cursor on `KeyError` and on success, and leaves it on the reached value when the loop runs out of levels |
| InfiniteHashTables.InfiniteHashTable.Len | infinite_hash_table.py:183-184 | `len(table)` is the counter that `SetItem` and `DelItem` adjust |
| InfiniteHashTables.InfiniteHashTable.GetItem | infinite_hash_table.py:35-58 | `table[key]` is the value the `get_location` descent finds, and `KeyError` when it finds none |
| InfiniteHashTables.InfiniteHashTable.Contains | infinite_hash_table.py:224-235 | `key in table` holds iff the descent finds the key |
| InfiniteHashTables.InfiniteHashTable.SetItem | infinite_hash_table.py:61-97 | an empty key, or a cursor left on a value, changes nothing; otherwise the key finds the value, `count` grows by one exactly for an insert into an empty slot, others keep their values, and the cursor is back on the top table; a key that runs out after a split stores nothing, changes no lookup of the top table, and leaves the cursor below |
| InfiniteHashTables.InfiniteHashTable.DelItem | infinite_hash_table.py:117-180 | deletes iff the key was found: `count` drops by one, every other found key keeps its value, and on a sound table exactly that key goes; the new top table is the old one with the key's leaf cleared and then `Folded` along the key's path; `KeyError` changes nothing; a `get_location` that runs out of levels gives `TypeError` with the cursor left on a value |

## Left out

- The inner `LinearProbeTable` is not part of this model. `InnerTables` keeps its entries in insertion order, and its slot layout, probing, resizing and `FullError` are not modelled. So `keys(k)` and `values(k)` list a key's entries in that order, which is not the inner table's slot order.
- `algorithms/mergesort.py` is not part of this model. `Sorting.Merge` and `Sorting.MergeSort` are verified merge and merge sort functions with the contracts the organiser relies on.
- `WalkerPersonality` is a parameter. `select_branch` is a function argument. `add_mountain` becomes the sequence `Trails.FollowPath` returns.
- `LinkedStack` is a sequence.
- `ArrayR` is an `array` of `Option` slots for the double-key table, and a 27-entry sequence inside the trie value for the infinite table.
- `__str__` of both tables is left out: it only formats text, and the infinite table's version raises `NotImplementedError`. `collect_all_mountains` and `length_k_paths` are left out because they are empty stubs. The unused `mountain_list` attribute is left out.
- `iter_keys` and `iter_values` are left out: they are generator forms of `keys` and `values`, which are modelled.
- Characters are their code points. No Unicode handling is modelled. Keys of both hash tables are strings.
- `DoubleKeyTables.DoubleKeyTable.constructor`: requires both schedules to be non-empty and every capacity in them to be at least 2. An empty `sizes` makes the code raise `IndexError` at `ArrayR(self.top_size[0])`, and a constructor cannot fail in the model. For capacities below 2 the hash reduces modulo `table_size - 1 <= 0`. Neither case is modelled.
- `InfiniteHashTables.InfiniteHashTable.Len`: its contract only says it returns the counter. No lemma relates the counter to the number of keys, because the code does not keep them equal: overwriting a node whose prefix is the key loses the keys under it without a decrement.
- `InfiniteHashTables.InfiniteHashTable.SetItem`: when a node whose prefix equals the key is overwritten, the other keys' contract is weaker than "unchanged". It says that every other key keeps its value or is lost, and that a key whose lookup changed has a slot path through the overwritten slot. It does not say that every key below the node is lost.
- `InfiniteHashTables.InfiniteHashTable.DelItem`: the exact "every other key unchanged" result is stated only for a sound table, one whose leaves all sit on their keys' slots. Without that, found keys keep their values and no more is promised.
- `InfiniteHashTables.InfiniteHashTable.GetItem`: models the lookup through the `get_location` descent, the intended behaviour. The code as written is `InfiniteHashTables.GetItemAsWritten` (see Findings). `Contains` builds on this corrected lookup.
- `InfiniteHashTables.InfiniteHashTable.DelItem`: uses the corrected collapse `InfiniteHashTables.Collapse`. The collapse as written is `InfiniteHashTables.CollapseAsWritten` (see Findings). The correction changes the test itself, not only where it is made. The code gives up when `key_count == 1 and tuple_count == 0 or tuple_count > 1`. The corrected collapse folds only when the deepest table holds exactly one leaf and no node, and each table above it holds only the path's node.
- The infinite table's cursor `self.level` is a local counter of the descents, not a field. Every operation resets it before use.
- Tables of the infinite table are never shared. So the trie is a value, and a write deep inside it rebuilds the path to that table. This is not modelled as an in-place update of shared arrays.
- Values of the infinite table are treated as `int`s. Indexing a value that the cursor was left on is a `TypeError`.
- A key shorter than a stored key can coexist with it. If the shorter key was set first, a later split moves its leaf to slot 26 of the child table (the hash of a key that has run out), and the lookup finds it there. For example, after `t["a"] = 1` and `t["ab"] = 2`, `"a"` is found at slots `[19, 26]`.
- `InfiniteHashTables.Store`: a key that runs out on the path of other keys is `Dropped`. The loop of `__setitem__` (infinite_hash_table.py:74-97) ends without writing it and without restoring `self.table` to the top table. This contradicts the docstring's promise to set the pair. The model keeps this behaviour: nothing is stored, no lookup changes, and the cursor is left in the table below. An example is `"{"` (code point 123, and 123 % 26 == 19) set after `"ab"` and `"ac"`.
- `InfiniteHashTables.Store`: a key equal to a node's prefix overwrites the node (`ReplacedNode`). The test at infinite_hash_table.py:81 compares `self.table[pos][0] == key` without checking that the slot holds a pair, so the node `[prefix, table]` is replaced by the leaf, and `count` is not changed. This also contradicts the docstring. The model keeps this behaviour, and the keys below the node are no longer found.
- Complexity statements in the docstrings are not modelled.

## Findings

| source | as written | input that shows it | evidently intended | confidence | as-written member | corrected member |
|---|---|---|---|---|---|---|
| algorithms/binary_search.py:26-29 | the base case reads `l[lo]` even when `lo == len(l)` | `binary_search([], m)`, or a mountain longer than every listed one | raise `KeyError("Item not in list!")` for a missing item, as the docstring says | not executed | BinarySearch.AboveEveryMountainRaisesIndexError | BinarySearch.SearchMountainsCheckedCorrect |
| infinite_hash_table.py:46-58 | `__getitem__` writes the slot's second component into the top table's slot and keeps indexing the top table, instead of descending into the node's table | after `t["aa"] = 1` and `t["ab"] = 2`, `t["ab"]` raises `KeyError` | descend into the child table, as `get_location` does | not executed | InfiniteHashTables.GetItemAsWrittenMissesDeepKey | InfiniteHashTables.InfiniteHashTable.GetItem |
| infinite_hash_table.py:159-180 | the collapse gives up only when its test fails after some slot, inside the `for` loop, so a leaf scanned before a node lets the node pass | keys `"aa"`, `"aba"`, `"abb"`, `"ac"`; deleting `"ac"` replaces the top slot by the leaf of `"aa"`, and `"aba"` and `"abb"` are lost | collapse only when the scanned tables hold nothing but one leaf and the nodes of the path | not executed | InfiniteHashTables.CollapseAsWrittenLosesKeys | InfiniteHashTables.Collapse |
