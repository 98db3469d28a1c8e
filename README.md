# go-list-map, modelled in Dafny

go-list-map offers two ordered maps with the same API. Each one pairs a Go
hash map (the *hash index*) with a second structure that records the order of
the keys:

- **ListMap** (`listmap.go`) keeps insertion order. The index maps each key to
  a `Value{val, element}`. `element` is the key's node in a `container/list`
  list. A new key is pushed at the back of the list. Re-putting a key rewrites
  only its value, so the key keeps its place.
- **TreeMap** (`treemap.go`) keeps ascending order. The order structure is an
  external B-tree of keys. `Delete`, `Pop` and `Pull` remove the key from the
  tree but write nil for it into the hash index. The index therefore keeps
  keys the tree no longer holds.

The model is split into these modules:

- `OrderedView` — the vocabulary both maps share.
  - `Nullable` stands for Go's nil-able `interface{}` values.
  - `Entry` is one pair of an Entries snapshot.
  - `State` is the abstract state: the keys in iteration order, plus the hash index.
  - `ValuesOf` and `EntriesOf` are the snapshots a state gives.
  - `AnyKey` is the next key of a `range` loop over a Go map.
  - `Without` removes a key from a key sequence, and `WithoutAll` removes a
    set of keys.
- `KeyList` — the linked list as a sequence of elements. Each element carries
  the handle the list issued for it, and `Remove` unlinks an element by its
  handle.
- `ListMapSpec` — each ListMap operation as a function on `State`. The
  properties the map promises are proved on these functions: order stability,
  FIFO and LIFO draining, the PutEntries round trip, and the map merge of
  PutMap.
- `ListMapRep` — the representation invariant `Consistent` of the list and
  the index, with one step lemma per operation linking the concrete update
  to the specification function.
- `ListMaps.ListMap` — the class. It has the fields `entries` (key to `Slot`),
  `keys` (the list) and `nextHandle`. Each method is proved to move `Model()`
  exactly as its `ListMapSpec` function says, and to keep `Valid()`.
- `SortedKeys` — the B-tree seen from outside: a strictly ascending `seq<int>`
  (`Ascending`), with `Insert`. Removal is `OrderedView.Without`, and `WithoutAscending`
  proves that it keeps the keys ascending.
- `TreeMapSpec` — each TreeMap operation as a function on `State`.
  - `Valid` is ascending keys, every tree key in the index, and nil for every
    indexed key the tree has dropped.
  - Lemmas cover the divergence between Len and the size of the index, the
    ascending and descending draining, the round trip for ascending entries,
    and the fact that insertion order does not change the tree's order.
- `TreeMaps.TreeMap` — the class. It has the fields `entries` and `keys`.
  `Values` and `Entries` fill an array of the tree's length in an indexed
  loop, as the Go code does.

## Model

| member | source | states |
|---|---|---|
| `ListMaps.ListMap.constructor` | listmap.go:22 | a new map is empty and consistent |
| `ListMaps.ListMap.Init` | listmap.go:24-32 | empties both the list and the hash index |
| `ListMaps.ListMap.Put` | listmap.go:34-41 | moves the abstract state as `ListMapSpec.Put`; a present key keeps its list element handle; consistency is kept |
| `ListMaps.ListMap.PutMap` | listmap.go:43-48 | whatever order the loop takes over the Go map: the result is PutEntries of those pairs; the map's values are merged in (`old vals + m`); the old key order is a prefix of the new one |
| `ListMaps.ListMap.PutEntries` | listmap.go:50-55 | equals `ListMapSpec.PutEntries` of the old state, keeping consistency |
| `ListMaps.ListMap.Delete` | listmap.go:57-63 | unlinks the key's element by its handle and drops its slot, as `ListMapSpec.Delete` |
| `ListMaps.ListMap.DeleteAll` | listmap.go:65-70 | equals `ListMapSpec.DeleteAll` of the old state |
| `ListMaps.ListMap.Keys` | listmap.go:72-78 | the keys in list order, each once, exactly the keys of the hash index |
| `ListMaps.ListMap.Values` | listmap.go:84-90 | as many values as keys; position i holds the value stored for the i-th key |
| `ListMaps.ListMap.Entries` | listmap.go:92-98 | as many pairs as keys; position i pairs the i-th key with its stored value |
| `ListMaps.ListMap.Get` | listmap.go:100-105 | the stored value for a held key, nil for any other key |
| `ListMaps.ListMap.Contains` | listmap.go:107-110 | true exactly when the key is in the key list |
| `ListMaps.ListMap.ContainsAll` | listmap.go:112-117 | true exactly when every given key is held (true for none) |
| `ListMaps.ListMap.ContainsAny` | listmap.go:119-124 | true exactly when some given key is held (false for none) |
| `ListMaps.ListMap.Len` | listmap.go:126-128 | the length of the list, which equals the number of index entries |
| `ListMaps.ListMap.Head` | listmap.go:130-133 | the value of the first key; nil when empty |
| `ListMaps.ListMap.Tail` | listmap.go:135-138 | the value of the last key; nil when empty |
| `ListMaps.ListMap.Pop` | listmap.go:140-148 | moves the state and returns the value as `ListMapSpec.Pop` |
| `ListMaps.ListMap.Pull` | listmap.go:150-158 | moves the state and returns the value as `ListMapSpec.Pull` |
| `ListMaps.ListMap.Empty` | listmap.go:160-162 | true exactly when the hash index is empty |
| `ListMaps.ListMap.NotEmpty` | listmap.go:164-166 | true exactly when the list, and so the hash index, is non-empty |
| `ListMaps.WalkKeys` | listmap.go:73-76 | the walk from Front to Back yields the key of each element in order |
| `ListMaps.WalkValues` | listmap.go:85-88 | the walk yields `ValuesOf` the abstract state |
| `ListMaps.WalkEntries` | listmap.go:93-96 | the walk yields `EntriesOf` the abstract state |
| `ListMapSpec.Valid` | listmap.go:8-16 | the abstract invariant: the list holds each key once, and exactly the keys of the hash index |
| `ListMapSpec.Put` | listmap.go:34-41 | new key appended at the back (Len + 1); present key: same order, only its value changes; other keys untouched; consistency kept |
| `ListMapSpec.Delete` | listmap.go:57-63 | a present key leaves both structures, at its one position in the list; an absent key changes nothing; consistency kept |
| `ListMapSpec.DeleteIdempotent` | listmap.go:57-63 | deleting a key twice is deleting it once |
| `ListMapSpec.DeleteAll` | listmap.go:65-70 | exactly the given keys leave both structures; every surviving key keeps its value; the surviving keys keep their relative order (`WithoutAll`); consistency kept |
| `ListMapSpec.Pop` | listmap.go:140-148 | the last key leaves both structures and its value is returned; empty map: nil and no change |
| `ListMapSpec.Pull` | listmap.go:150-158 | the first key leaves both structures and its value is returned; empty map: nil and no change |
| `ListMapSpec.PutEntries` | listmap.go:50-55 | Put for each entry, first to last: keeps the two structures consistent and adds exactly the keys it is given |
| `ListMapSpec.PutEntriesExtends` | listmap.go:50-55 | the old key order is a prefix of the new one |
| `ListMapSpec.PutEntriesSnoc` | listmap.go:50-55 | one more entry at the back is one more Put |
| `ListMapSpec.PutEntriesValues` | listmap.go:50-55 | entries with distinct keys are all stored; other keys keep their values |
| `ListMapSpec.PutEntriesOrder` | listmap.go:37-38 | fresh distinct keys are appended in the order given |
| `ListMapSpec.PutEntriesPresentKeepsOrder` | listmap.go:35-36 | re-putting present keys changes no position in the key list |
| `ListMapSpec.PutEntriesMerge` | listmap.go:43-48 | putting each pair of a map once, in any order, yields `old + m` |
| `ListMapSpec.RoundTripStep` | listmap.go:37-38 | putting a fresh key appends it and leaves the other fresh keys fresh |
| `ListMapSpec.EntriesAfterPutFresh` | listmap.go:37-38 | a fresh key's pair appears at the back of Entries |
| `ListMapSpec.PutEntriesRoundTrip` | listmap.go:92-98 | Entries after PutEntries of distinct-key entries into an empty map gives them back unchanged |
| `ListMapSpec.LenIsEntryCount` | listmap.go:126-128 | the list length equals the number of index entries |
| `ListMapSpec.ValuesAfterPull` | listmap.go:150-158 | Values before a Pull are the pulled value followed by Values after it |
| `ListMapSpec.ValuesAfterPop` | listmap.go:140-148 | Values before a Pop are Values after it followed by the popped value |
| `ListMapSpec.PullsDrainInOrder` | listmap.go:150-158 | pulling Len times returns the values in insertion order (FIFO) and empties the map |
| `ListMapSpec.PopsDrainReversed` | listmap.go:140-148 | popping Len times returns the values in reverse insertion order (LIFO) and empties the map |
| `ListMapRep.Consistent` | listmap.go:8-16 | the representation invariant: handles are unique and issued before the counter; the list holds each key once, exactly the index's keys; each key's slot holds the handle of the element carrying that key |
| `ListMapRep.AbstractValid` | listmap.go:8-16 | consistent structures stand for a map whose list has no duplicates and holds exactly the index's keys |
| `ListMapRep.PutPresentConsistent` | listmap.go:35-36 | rewriting a present key's slot, with its old element, keeps consistency |
| `ListMapRep.PutPresent` | listmap.go:35-36 | that rewrite is `ListMapSpec.Put` on a present key |
| `ListMapRep.PutFreshConsistent` | listmap.go:37-38 | pushing a fresh element and recording its handle keeps consistency |
| `ListMapRep.PutFresh` | listmap.go:37-38 | that push is `ListMapSpec.Put` on a new key |
| `ListMapRep.PutStep` | listmap.go:34-41 | both branches of Put keep consistency and realise `ListMapSpec.Put` |
| `ListMapRep.DeleteConsistent` | listmap.go:58-61 | unlinking a key's element and dropping its slot keeps consistency |
| `ListMapRep.DeleteAt` | listmap.go:58-61 | that removal is `ListMapSpec.Delete` |
| `ListMapRep.DeleteStep` | listmap.go:57-63 | Delete by handle keeps consistency and realises `ListMapSpec.Delete` |
| `ListMapRep.PopBack` | listmap.go:142-146 | removing the back element and its slot keeps consistency and is `ListMapSpec.Pop` |
| `ListMapRep.PopStep` | listmap.go:140-148 | Pop on a non-empty list realises `ListMapSpec.Pop` |
| `ListMapRep.PullFront` | listmap.go:152-156 | removing the front element and its slot keeps consistency and is `ListMapSpec.Pull` |
| `ListMapRep.PullStep` | listmap.go:150-158 | Pull on a non-empty list realises `ListMapSpec.Pull` |
| `ListMapRep.ValuesOfSlots` | listmap.go:84-90 | values read slot by slot along the list are `ValuesOf` the abstract state |
| `ListMapRep.EntriesOfSlots` | listmap.go:92-98 | pairs read slot by slot along the list are `EntriesOf` the abstract state |
| `KeyList.Remove` | listmap.go:59 | `list.Remove` by element: an unknown handle leaves the list unchanged; no element is added |
| `KeyList.RemoveAt` | listmap.go:59 | with unique handles, removing a handle takes out exactly the element at its position |
| `OrderedView.ValuesOf` | listmap.go:84-90 | one value per key, position i holds the stored value of key i (nil when missing) |
| `OrderedView.EntriesOf` | listmap.go:92-98 | one pair per key, position i pairs key i with its stored value |
| `OrderedView.Lookup` | treemap.go:95 | a Go map read: the stored value for a held key, nil for a missing one, as in Get and in the Values and Entries loops of both maps |
| `OrderedView.WithoutAll` | listmap.go:65-70 | a sequence with a set of keys taken out: the key set shrinks by exactly those keys and the rest keep their relative order |
| `OrderedView.AnyKey` | listmap.go:44 | a `range` over a Go map visits some key not yet visited |
| `SortedKeys.Insert` | treemap.go:30 | the tree's insert keeps keys ascending, adds exactly the key, and changes nothing when the key is held |
| `SortedKeys.WithoutAscending` | treemap.go:50 | the tree's delete keeps keys ascending and drops one position when the key was held |
| `OrderedView.Without` | treemap.go:50 | the key leaves the set of keys and no other key does; an absent key leaves the sequence as it was; no duplicate appears |
| `SortedKeys.AscendingUnique` | treemap.go:62-64 | a set of keys has exactly one ascending listing |
| `TreeMaps.TreeMap.constructor` | treemap.go:17 | a new map is empty and valid |
| `TreeMaps.TreeMap.Init` | treemap.go:19-27 | empties the hash index and the tree |
| `TreeMaps.TreeMap.Put` | treemap.go:29-33 | moves the state as `TreeMapSpec.Put`, keeping validity |
| `TreeMaps.TreeMap.PutMap` | treemap.go:35-40 | whatever order the loop takes: the map's values are merged in and the tree gains exactly its keys |
| `TreeMaps.TreeMap.PutEntries` | treemap.go:42-47 | equals `TreeMapSpec.PutEntries` of the old state |
| `TreeMaps.TreeMap.Delete` | treemap.go:49-53 | moves the state as `TreeMapSpec.Delete` (out of the tree, nil in the index) |
| `TreeMaps.TreeMap.DeleteAll` | treemap.go:55-60 | equals `TreeMapSpec.DeleteAll` of the old state |
| `TreeMaps.TreeMap.Keys` | treemap.go:62-64 | the tree's keys, strictly ascending, all of them in the hash index |
| `TreeMaps.TreeMap.Values` | treemap.go:70-78 | as many values as tree keys; slot i holds the index's value for the i-th key |
| `TreeMaps.TreeMap.Entries` | treemap.go:80-88 | as many pairs as tree keys; slot i pairs the i-th key with the index's value |
| `TreeMaps.TreeMap.Get` | treemap.go:94-96 | the indexed value; nil for any key the tree does not hold |
| `TreeMaps.TreeMap.Contains` | treemap.go:98-101 | true exactly when the hash index holds the key; every tree key is contained |
| `TreeMaps.TreeMap.ContainsAll` | treemap.go:103-109 | true exactly when the index holds every given key (true for none) |
| `TreeMaps.TreeMap.ContainsAny` | treemap.go:111-117 | true exactly when the index holds some given key (false for none) |
| `TreeMaps.TreeMap.Len` | treemap.go:119-121 | the number of tree keys, never more than the index's entries |
| `TreeMaps.TreeMap.Head` | treemap.go:123-125 | the value of the least key |
| `TreeMaps.TreeMap.Tail` | treemap.go:127-129 | the value of the greatest key |
| `TreeMaps.TreeMap.Pop` | treemap.go:131-136 | moves the state and returns the value as `TreeMapSpec.Pop` |
| `TreeMaps.TreeMap.Pull` | treemap.go:138-143 | moves the state and returns the value as `TreeMapSpec.Pull` |
| `TreeMaps.TreeMap.Empty` | treemap.go:145-147 | true exactly when the tree is empty; a non-empty tree means a non-empty index |
| `TreeMaps.TreeMap.NotEmpty` | treemap.go:149-151 | true exactly when the tree holds a key |
| `TreeMapSpec.Valid` | treemap.go:8-11 | the abstract invariant: tree keys strictly ascending, every tree key in the hash index, and nil for every indexed key the tree no longer holds |
| `TreeMapSpec.Put` | treemap.go:29-33 | the key joins the tree and its value is stored; Len grows only for a new key; other keys untouched; validity kept |
| `TreeMapSpec.Delete` | treemap.go:49-53 | the key leaves the tree but stays in the index with nil, even if it was never put; Len drops only for a held key |
| `TreeMapSpec.PutEntries` | treemap.go:42-47 | the tree and the index gain exactly the given keys; validity kept |
| `TreeMapSpec.DeleteAll` | treemap.go:55-60 | exactly the given keys leave the tree and the other keys keep their order (`WithoutAll`); each given key is nil in the index; other keys untouched |
| `TreeMapSpec.Pop` | treemap.go:131-136 | the greatest key leaves the tree, its old value is returned, its entry becomes nil |
| `TreeMapSpec.Pull` | treemap.go:138-143 | the least key leaves the tree, its old value is returned, its entry becomes nil |
| `TreeMapSpec.LenAtMostEntries` | treemap.go:119-121 | Len, the tree's count, never exceeds the number of index entries |
| `TreeMapSpec.DeleteSplitsLenFromEntries` | treemap.go:49-53 | deleting a held key lowers Len by one but keeps the index size, so Len falls below it |
| `TreeMapSpec.DeletedStillContained` | treemap.go:98-101 | after Delete(k), Contains(k) holds with value nil while Keys no longer lists k |
| `TreeMapSpec.DeleteIdempotent` | treemap.go:49-53 | deleting a key twice is deleting it once |
| `TreeMapSpec.PutEntriesSnoc` | treemap.go:42-47 | one more entry at the back is one more Put |
| `TreeMapSpec.PutEntriesValues` | treemap.go:42-47 | entries with distinct keys are all stored; other keys keep their values |
| `TreeMapSpec.PutEntriesOrderIndependent` | treemap.go:35-40 | putting the same keys in any order gives the same tree order |
| `TreeMapSpec.PutEntriesMerge` | treemap.go:35-40 | putting each pair of a map once, in any order, yields `old + m` |
| `TreeMapSpec.PutEntriesRoundTrip` | treemap.go:80-88 | Entries after PutEntries of ascending-key entries into an empty map gives them back unchanged |
| `TreeMapSpec.ValuesAfterPull` | treemap.go:138-143 | Values before a Pull are the pulled value followed by Values after it |
| `TreeMapSpec.ValuesAfterPop` | treemap.go:131-136 | Values before a Pop are Values after it followed by the popped value |
| `TreeMapSpec.PullsDrainAscending` | treemap.go:138-143 | pulling Len times returns the values in ascending key order and empties the tree, while the index keeps every key as nil |
| `TreeMapSpec.PopsDrainDescending` | treemap.go:131-136 | popping Len times returns the values in descending key order and empties the tree, while the index keeps every key as nil |

## Left out

- `String()` in both files (listmap.go:80-82, treemap.go:66-68) only formats `Entries()` with `fmt.Sprint`.
- `TreeMap.Map()` (treemap.go:90-92) hands out the internal map, so callers can alias it; aliasing is not modelled.
- The `*ListMap` / `*TreeMap` return values that allow call chaining are not modelled. The methods change the receiver and return nothing.
- `container/list` is modelled as a sequence of elements with handles (`KeyList`). Its linked nodes are not modelled.
- The B-tree of `github.com/ross-oreto/go-tree` is modelled only by the ascending sequence of its keys. Balancing and node layout are not modelled.
- TreeMap keys are modelled as mathematical integers ordered by `<`. The tree's comparison of `interface{}` values is not part of this model.
- ListMap keys are a generic type with equality. Go's dynamic `interface{}` equality, including panics on uncomparable keys, is not modelled.
- `TreeMaps.TreeMap.Head`, `TreeMaps.TreeMap.Tail`, `TreeMaps.TreeMap.Pop`, `TreeMaps.TreeMap.Pull`: these require a non-empty tree. What the external tree's `Head`, `Tail`, `Pop` and `Pull` return on an empty tree is not part of this model.
- `TreeMapSpec.Pop`, `TreeMapSpec.Pull`: likewise, these are defined only for a non-empty tree.
- `ListMaps.ListMap.PutMap`, `TreeMaps.TreeMap.PutMap`: Go leaves the iteration order of a map unspecified. `OrderedView.AnyKey` may pick any remaining key, and the order taken is returned as the ghost `picked`. The contracts hold for every order, but do not name the one Go uses.
- A stored nil and a missing key both read as nil, as in Go. `Get` does not tell them apart, and neither does the model's `Lookup`.
- The benchmarks and the random-permutation helpers of the tests are not modelled.
- Memory allocation failure is not modelled.
- TreeMap `Delete`, `Pop` and `Pull` follow the code: the key leaves the tree, but the hash index keeps it with the value nil. Even deleting a key that was never put adds a nil entry for it. ListMap's `Delete`, by contrast, removes the entry from its index (listmap.go:60). The model keeps each map's behaviour as written, and states the resulting split between `Len` and `Contains` in `TreeMapSpec.DeleteSplitsLenFromEntries` and `TreeMapSpec.DeletedStillContained`.
