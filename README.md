# dictool in Dafny

dictool is a header-only C++ library with two parts, and this project models both:

- `MultiMap<K, V, C, D>`: an ordered dictionary (`std::map`) from each key to a container of values. Each container is either
  - a `std::vector`, where appending keeps order and duplicates, or
  - a `std::set`, where inserting removes duplicates.
- A handful of dictionary algorithms (`reverse`, two forms of `transform`, `new_by_set`, `values_of`, `update`).

The map also has a flattened, read-only iterator. It walks every `(key, value)` pair, keys in dictionary order and each key's values in container order. It skips containers that are empty.

## Modules

**OrderedDict** models `std::map<int, V>`.
- The map is a sequence of `Entry(key, value)` with strictly increasing keys.
- It provides `find`, lookup, store-through-`operator[]`, `emplace`, `erase(key)`.
- Class `Dict` stands for a map passed by reference and rewritten in place.

**Containers** models the per-key container.
- `Kind` is the container's capability: `Sequence` for `emplace_back` (vector), `Unique` for `emplace` (set).
- `Add` is `container_emplace`.
- Also here: range insertion, `std::find`, and the two erasures of one value.

**Buckets** holds the map's state, `Data`, and the invariant `Coherent`.
- Each mutator has its resulting state as a function (`Emplaced`, `ErasedValue`, `InsertedRange`, `InsertedPairs`, `Merged`).
- The lemmas say what each mutator does to `Bucket(d, k)`, which is `get(k)`, and to the total size.

**Iteration** holds the iteration order and iterator positions.
- `Flatten` is the iteration order.
- `Pos` is an iterator position: an outer and an inner cursor.
- `NextValid` is `advance_to_next_valid`, `Successor` is `operator++` and `SameIterator` is `operator==`.
- `Offset` gives a position's index into `Flatten`.
- It also holds the pure meaning of `equal_range` and of `erase(iterator)`.

**MultiDict** holds the two classes:
- `Iterator`: the snapshot of the dictionary it walks, plus the two cursors;
- `MultiMap`: a `data` field the mutators rewrite, and a constant container kind.

Every method is proved against the functions above.

**Algorithm** holds the six algorithms, as loops over ordered dictionaries with the callbacks as function parameters. `reverse` runs on a `MultiMap` with vector containers, as the source does.

Keys and values of the `MultiMap` are `int`. `std::set<int>` iterates in ascending order, so a set container is modelled as a strictly ascending sequence.

## Model

| member | source | states |
|---|---|---|
| Containers.Add | include/dictool/MultiDict.h:69-80 | a vector gets `v` appended after its old contents; a set gains `v` and keeps its other members, without duplicates, and grows only if `v` was new; the result stays well formed |
| Containers.InsertUnique | include/dictool/MultiDict.h:383-385 | `std::set::emplace`: the result is sorted, its members are the old ones plus `v`, and it grows by one exactly when `v` was absent |
| Containers.AddAll | include/dictool/MultiDict.h:359-363 | range insertion into a key's container keeps the container well formed for its kind |
| Containers.AddAllIsRepeatedAdd | include/dictool/MultiDict.h:359-363 | for both kinds, range insertion equals adding the range's values one by one with `container_emplace` |
| Containers.AddEach | include/dictool/MultiDict.h:362 | adding a range one value at a time yields exactly the old members plus the range's members |
| Containers.FirstIndex | include/dictool/MultiDict.h:404-405 | `std::find`: no earlier element equals `v`, the found element equals `v`, and the index is the end exactly when `v` is absent |
| Containers.Without | include/dictool/MultiDict.h:471 | `std::set::erase(value)`: the result's members are the old members other than `v`, and nothing changes when `v` is absent |
| Containers.WithoutSorted | include/dictool/MultiDict.h:469-472 | on a sorted container, erasing every copy of `v` is removing the first occurrence |
| Containers.EraseOne | include/dictool/MultiDict.h:462-472 | `erase(key, value)` on one container: exactly one copy of `v` leaves (multiset difference), namely the one at the first index; nothing changes without `v`; well-formedness is kept |
| OrderedDict.Find | include/dictool/MultiDict.h:442 | `std::map::find`: the index is below the end exactly when the key is present, and that entry holds the key |
| OrderedDict.Lookup | include/dictool/MultiDict.h:585 | the value under `k` exists exactly when `k` is a key, and it is that entry's value |
| OrderedDict.Insert | include/dictool/Aglorithm.h:136 | `std::map::emplace`: the keys gain `k`; a present key keeps its old value; an absent key maps to `v` and the map grows by one; other keys are unchanged |
| OrderedDict.Assign | include/dictool/Aglorithm.h:73 | `map[k] = v`: the map stays ordered, `k` maps to `v`, and every other key keeps its value |
| OrderedDict.Remove | include/dictool/MultiDict.h:445 | `std::map::erase`: `k` is no longer a key, the map shrinks by one exactly when `k` was present, and the other keys keep their values |
| OrderedDict.InsertGreatest | include/dictool/Aglorithm.h:53-54 | emplacing keys in ascending order appends each entry at the end |
| OrderedDict.KeysCardinality | include/dictool/MultiDict.h:627 | the number of entries is the number of distinct keys |
| Buckets.Bucket | include/dictool/MultiDict.h:583-586 | a key's container is the stored one, or empty for an absent key |
| Buckets.BucketBelowTotal | include/dictool/MultiDict.h:485-488 | a key's count never exceeds the map's size |
| Buckets.TotalSizeSplit | include/dictool/MultiDict.h:276-282 | the summed size splits around any one entry |
| Buckets.StoreThroughSubscript | include/dictool/MultiDict.h:358 | taking `data[key]`, creating it if needed, gives the key's current container; writing a new container through that reference stores it under the key |
| Buckets.Emplaced | include/dictool/MultiDict.h:375-387 | the state after `emplace` keeps the map's invariant |
| Buckets.EmplaceSequence | include/dictool/MultiDict.h:380-382 | with vectors, `emplace(k, v)` appends `v` to k's values; other keys are untouched; `k` becomes a key; `size()` grows by one |
| Buckets.EmplaceUnique | include/dictool/MultiDict.h:383-385 | with sets, k's set gains `v` and grows by one exactly when `v` was new; other keys are untouched; an existing `v` leaves the map as it was |
| Buckets.SubscriptCreatesEmpty | include/dictool/MultiDict.h:600 | `operator[]` makes `k` a key, keeps its container (empty if it was absent), and leaves other keys and the size alone |
| Buckets.EraseKeyEffect | include/dictool/MultiDict.h:441-449 | after `erase(k)`, `k` is absent, other keys keep their containers, and the size drops by k's old count |
| Buckets.ErasedValue | include/dictool/MultiDict.h:458-475 | the state after a successful `erase(k, v)` keeps the map's invariant |
| Buckets.EraseValueEffect | include/dictool/MultiDict.h:458-475 | a successful `erase(k, v)` keeps every key, even one whose container empties; it removes exactly one `v` from k's container and leaves other keys untouched; the size drops by one |
| Buckets.InsertedRange | include/dictool/MultiDict.h:357-364 | the state after `insert(key, first, last)` keeps the map's invariant |
| Buckets.InsertedRangeBucket | include/dictool/MultiDict.h:357-364 | the key's container receives the range by its kind's range insertion; other keys are untouched |
| Buckets.InsertedPairs | include/dictool/MultiDict.h:333-337 | inserting pairs one at a time keeps the map's invariant |
| Buckets.InsertedPairsSize | include/dictool/MultiDict.h:333-337 | with vectors, `size()` grows by the number of inserted pairs |
| Buckets.Merged | include/dictool/MultiDict.h:616-620 | the state after `merge` keeps the map's invariant |
| Buckets.MergeKeys | include/dictool/MultiDict.h:616-620 | after `merge`, the keys are the union of both maps' keys |
| Buckets.MergeSequence | include/dictool/MultiDict.h:616-620 | with vectors, each key's values become this map's values followed by the other map's, so `count(k)` grows by `other.count(k)` |
| Buckets.MergeUnique | include/dictool/MultiDict.h:616-620 | with sets, each key's set becomes the union of the two sets |
| Iteration.Pairs | include/dictool/MultiDict.h:182-191 | one entry contributes exactly its values, each paired with its key, in container order |
| Iteration.Flatten | include/dictool/MultiDict.h:276-282 | iteration visits as many pairs as `size()` counts |
| Iteration.FlattenKeys | include/dictool/MultiDict.h:168 | every visited pair carries a key of the map |
| Iteration.KeyOccurrences | include/dictool/MultiDict.h:141-148 | the pairs with a given key are contiguous: they are exactly that entry's pairs, at the position the earlier containers' sizes give |
| Iteration.FlattenSorted | include/dictool/MultiDict.h:198-204 | keys never decrease along the iteration |
| Iteration.End | include/dictool/MultiDict.h:538-541 | `end()` is the outer end, and its index is the length of the iteration, `size()` |
| Iteration.NextValid | include/dictool/MultiDict.h:141-148 | the skip loop only moves forward; where it stops is a real value or the end; it moves only from an exhausted container; it lands at the start of a container; every container it passes over is empty |
| Iteration.Successor | include/dictool/MultiDict.h:198-204 | `operator++` locates a real value or the end |
| Iteration.NextValidOffset | include/dictool/MultiDict.h:141-148 | skipping exhausted and empty containers passes over no pair |
| Iteration.OffsetBound | include/dictool/MultiDict.h:538-541 | a position's index is within the iteration, and equals its length exactly at `end()` |
| Iteration.SuccessorOffset | include/dictool/MultiDict.h:198-204 | `operator++` moves exactly one pair forward, and `end()` stays `end()` |
| Iteration.SameIterator | include/dictool/MultiDict.h:223-226 | `operator==`: two positions that designate a pair or the end compare equal exactly when they have the same index in the iteration |
| Iteration.OffsetsOrdered | include/dictool/MultiDict.h:223-226 | a position in an earlier entry has a smaller index; this is why `operator==` need not compare the inner cursors of different entries |
| Iteration.DesignatedPair | include/dictool/MultiDict.h:168-191 | a non-end position designates its entry's key and the value under its inner cursor, which is the pair at its index in the iteration |
| Iteration.KeyRange | include/dictool/MultiDict.h:511-518 | `equal_range` returns two valid positions: both `end()` for an absent key; for a present key, neither lies before the key's entry and the first does not follow the second. That exactly k's pairs lie between them is `Iteration.KeyRangeSpec` |
| Iteration.KeyRangeSpec | include/dictool/MultiDict.h:511-518 | between the two ends lie exactly the pairs with key `k`, which are k's values in container order; an absent key gives `end()` twice |
| Iteration.FirstIndexUnique | include/dictool/MultiDict.h:404-405 | in a set, `std::find` of a member's value finds that very member |
| Iteration.ErasedAt | include/dictool/MultiDict.h:397-418 | `erase(pos)` after reading `key()` and `value()` keeps the invariant and yields a valid position |
| Iteration.ErasedAtEffect | include/dictool/MultiDict.h:397-418 | erasing at a non-end position:<br>- drops exactly the first pair equal to the designated one from the iteration; with sets, that is the designated pair itself;<br>- the returned iterator designates what followed it;<br>- an emptied key disappears; every other key stays |
| Iteration.ErasedAtMiss | include/dictool/MultiDict.h:402-417 | if the key or the value is not found, nothing changes and `end()` is returned |
| Iteration.EraseInsideEntry | include/dictool/MultiDict.h:407-414 | removing one value from a container that keeps others drops that pair and returns the position after it |
| Iteration.EraseWholeEntry | include/dictool/MultiDict.h:408-412 | removing the last value of a container removes its key; the result is the next key's first value, or the end |
| MultiDict.Iterator.constructor | include/dictool/MultiDict.h:158-161 | a new iterator runs the skip loop from the given cursors |
| MultiDict.Iterator.AdvanceToNextValid | include/dictool/MultiDict.h:141-148 | the loop ends where `NextValid` says |
| MultiDict.Iterator.Key | include/dictool/MultiDict.h:168 | `key()` is the key of the pair at the iterator's index in the iteration |
| MultiDict.Iterator.Value | include/dictool/MultiDict.h:175 | `value()` is the value of the pair at the iterator's index in the iteration |
| MultiDict.Iterator.Current | include/dictool/MultiDict.h:182-191 | `operator*` is `(key(), value())`, the pair at the iterator's index in the iteration |
| MultiDict.Iterator.Increment | include/dictool/MultiDict.h:198-204 | prefix `++` moves to the successor position and stays valid |
| MultiDict.Iterator.PostIncrement | include/dictool/MultiDict.h:211-215 | postfix `++` returns a copy of the old position and advances this iterator |
| MultiDict.Iterator.Equals | include/dictool/MultiDict.h:223-234 | over one map, `==` holds exactly when both iterators designate the same index |
| MultiDict.Walk | tests/src/multidict/iterator.cc:19-27 | a loop `for (it = first; it != last; ++it)` terminates and visits exactly the pairs between the two indices, in order |
| MultiDict.Traverse | tests/src/multidict/iterator.cc:29-38 | a `begin()`-to-`end()` loop visits every pair in iteration order, `size()` pairs in all |
| MultiDict.TraverseKey | tests/src/multidict/search.cc:85-97 | a loop over `equal_range(k)` visits exactly k's values, in container order |
| MultiDict.MultiMap.constructor | include/dictool/MultiDict.h:242 | a default-constructed map is empty |
| MultiDict.MultiMap.FromPairs | include/dictool/MultiDict.h:251-260 | the range and initializer-list constructors insert every pair in order |
| MultiDict.MultiMap.Empty | include/dictool/MultiDict.h:269 | `empty()` holds exactly when there is no key; then the size is 0 |
| MultiDict.MultiMap.Size | include/dictool/MultiDict.h:276-282 | `size()` is the sum of the container sizes |
| MultiDict.MultiMap.TotalValueCount | include/dictool/MultiDict.h:642-648 | `total_value_count()` is the same sum |
| MultiDict.MultiMap.Clear | include/dictool/MultiDict.h:296 | `clear()` leaves no entry |
| MultiDict.MultiMap.Insert | include/dictool/MultiDict.h:306-308 | `insert(value)` is `emplace(value.first, value.second)`, and returns the same iterator, which for a vector is the value just appended |
| MultiDict.MultiMap.Emplace | include/dictool/MultiDict.h:375-387 | the new state is `Emplaced`; the returned iterator designates `(k, v)`; for a vector it is the last element of k's container, the one just appended |
| MultiDict.MultiMap.Place | include/dictool/MultiDict.h:378-385 | the update `emplace` makes, and the entry and container index where `v` now sits: the last index for a vector |
| MultiDict.MultiMap.InsertPairs | include/dictool/MultiDict.h:333-346 | `insert(first, last)` and `insert(init)` emplace every pair in order |
| MultiDict.MultiMap.InsertRange | include/dictool/MultiDict.h:357-364 | `insert(key, first, last)` creates the key even for an empty range, then range-inserts |
| MultiDict.MultiMap.EraseAt | include/dictool/MultiDict.h:397-418 | at `end()`, nothing changes and `end()` is returned; otherwise the new state and the returned position are `ErasedAt` of the designated key and value |
| MultiDict.MultiMap.EraseKey | include/dictool/MultiDict.h:441-449 | `erase(k)` removes `k` and returns its old count, 0 when `k` was absent |
| MultiDict.MultiMap.EraseValue | include/dictool/MultiDict.h:458-475 | returns true exactly when `k` is present and holds `v`; the new state is then `ErasedValue`; otherwise nothing changes |
| MultiDict.MultiMap.Count | include/dictool/MultiDict.h:485-488 | the size of k's container, 0 for an absent key, at most `size()` |
| MultiDict.MultiMap.Find | include/dictool/MultiDict.h:497-503 | the result is `end()` exactly when k's container is empty or absent; otherwise it designates `(k, first value)`, and no earlier pair has key `k` |
| MultiDict.MultiMap.EqualRange | include/dictool/MultiDict.h:511-518 | the two iterators enclose exactly the pairs with key `k`, which are k's values in order; both are `end()` for an absent key |
| MultiDict.MultiMap.Begin | include/dictool/MultiDict.h:527-531 | `begin()` is at index 0 of the iteration |
| MultiDict.MultiMap.End | include/dictool/MultiDict.h:538-541 | `end()` is at the outer end, index `size()` |
| MultiDict.MultiMap.Contains | include/dictool/MultiDict.h:551-553 | true exactly when `k` is a key, even with an empty container |
| MultiDict.MultiMap.KeyList | include/dictool/MultiDict.h:560-566 | `keys()` lists each key once, strictly ascending, in dictionary order |
| MultiDict.MultiMap.Get | include/dictool/MultiDict.h:583-586 | k's container if `k` is a key, else the default |
| MultiDict.MultiMap.Subscript | include/dictool/MultiDict.h:600 | `operator[]` returns k's container and leaves `k` present, inserting an empty container if needed |
| MultiDict.MultiMap.At | include/dictool/MultiDict.h:609 | `at(k)` succeeds exactly when `k` is a key, with its container; otherwise it fails with out-of-range |
| MultiDict.MultiMap.Merge | include/dictool/MultiDict.h:616-620 | the new state is `Merged`; the other map is unchanged |
| MultiDict.MultiMap.KeyCount | include/dictool/MultiDict.h:627 | the number of distinct keys |
| MultiDict.MultiMap.ValueCount | include/dictool/MultiDict.h:635 | the size of k's container |
| Algorithm.KeysWithValue | include/dictool/Aglorithm.h:23-32 | a group never holds more keys than the input has entries |
| Algorithm.KeysWithValueMembers | include/dictool/Aglorithm.h:23-32 | the group of `v` holds exactly the keys whose entry has value `v` |
| Algorithm.KeysWithValueSorted | include/dictool/Aglorithm.h:28 | over an ordered input, each group is strictly ascending |
| Algorithm.Grouped | include/dictool/Aglorithm.h:26-30 | emplacing `(value, key)` for each input entry keeps the map's invariant |
| Algorithm.GroupedGroups | include/dictool/Aglorithm.h:23-32 | that state groups the keys by value, with no empty group and as many values as inputs |
| Algorithm.GroupsStep | include/dictool/Aglorithm.h:28-30 | one loop round extends the grouping by the next input entry |
| Algorithm.GroupsNonEmpty | include/dictool/Aglorithm.h:23-32 | no value of the result maps to an empty group |
| Algorithm.Reverse | include/dictool/Aglorithm.h:23-32 | `reverse`:<br>- `out[v]` lists exactly the keys with value `v`, in key order;<br>- no group is empty;<br>- the group sizes sum to the input size;<br>- an empty input gives an empty output |
| Algorithm.TransformNew | include/dictool/Aglorithm.h:47-57 | a new dictionary with the same keys, each mapped to `func(key, value)` |
| Algorithm.TransformInPlace | include/dictool/Aglorithm.h:69-75 | every entry becomes `func(key, old value)`; the keys and their number are unchanged |
| Algorithm.NewBySet | include/dictool/Aglorithm.h:86-95 | the keys are exactly the set's elements, in ascending order, each mapped to `func(element)` |
| Algorithm.ValuesOf | include/dictool/Aglorithm.h:105-114 | a vector gets the values in key order, duplicates kept, `|d|` of them; for both kinds, the members are exactly the map's values |
| Algorithm.Update | include/dictool/Aglorithm.h:130-142 | an absent key is inserted with `value` and the map grows by one; a present key gets `func(key, old, value)` and the size stays the same; other keys are unchanged; the result locates `key` |

## Left out

- `print_stats` and `print_all` are left out: they only write to an output stream.
- `max_size` is left out: it is a library limit with no behaviour.
- The `HasEmplaceBack` / `HasEmplaceValue` traits and the `static_assert`s are compile-time checks. The two-variant `Kind` datatype replaces them. The container kind is a constant of each `MultiMap`.
- `UniqueMultiDict`, `VectorMultiDict` and their unused `DTemplate` parameter are not modelled separately. They are the `Unique` and `Sequence` kinds.
- `erase(first, last)` is not modelled. It calls `erase(first++)`, which, for a vector container, leaves `first` holding an inner iterator that the erase has invalidated. That is undefined behaviour, with no contract to state.
- `insert(value_type&&)` is not modelled separately: with `int` keys and values it behaves exactly as `insert(const value_type&)`.
- Iterator invalidation, copy and move semantics, and the aliasing of `cdata()` are not modelled. An iterator holds the dictionary it was made from, so a mutation after its creation does not affect it.
- Mutation through the reference that `operator[]` or `at` returns is not modelled. `Subscript` returns the container's value, and its state change is just the key's creation. Writes through `data[key]` inside the map's own members are modelled as one store (`StoreThroughSubscript`).
- Keys and values of the `MultiMap` are `int`. The algorithms use `int` keys, with generic values wherever no ordering of values is needed.
- `std::unordered_map` inputs are left out. Only ordered dictionaries are modelled, because hash iteration order is unspecified.
- `size_t` is modelled as an unbounded `nat`, so counts never wrap.
- The `std::function` callbacks of the algorithms are pure Dafny functions.
- `erase(iterator)` accepts any iterator, including one made before the map last changed. Such a stale iterator may designate a key or value that is no longer in the map. `MultiDict.MultiMap.EraseAt` then takes the source's not-found branches: the state is unchanged and `end()` comes back, as `Iteration.ErasedAtMiss` states. In C++ a stale iterator is invalid. The model reads it safely because an iterator keeps its own copy of the dictionary.
- `MultiDict.MultiMap.Merge` requires `other` to be a different map with the same container kind. With vectors, a self-merge inserts a range from the container being grown, which invalidates that range.
- `Algorithm.Update` returns the index of the key's entry rather than a `std::map` iterator.
- `Algorithm.TransformInPlace` is modelled for `std::map`, where assigning to an existing key does not restructure the map during the loop.
- `Algorithm.ValuesOf` is modelled for integer values, because a set result needs them ordered.
- The rule that a key is present exactly when its container is non-empty is not an invariant of the model, because the code does not keep it. `operator[]` and `insert(key, first, last)` can create an empty container. `erase(key, value)` leaves an emptied container under its key, as `Buckets.EraseValueEffect` states. Only `erase(iterator)` removes an emptied key.
