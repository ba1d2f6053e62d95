# Insertion-ordered hash map, modelled in Dafny

This project models `HashMap<KeyType, ValueType, Hash>` from `hash_map.h`. It is a
separate-chaining hash table that also remembers insertion order. The map keeps two
structures in step:

- the **element list** (`elements_`) owns the (key, value) pairs in insertion order
  and gives the iteration order;
- the **bucket table** (`table_`) holds, per bucket, non-owning iterators into that
  list; the bucket of a key is `hash(key) % table_size_`.

The table starts with one bucket. After each insertion that makes the element count
equal to `table_size_`, the size is multiplied by `EXPANSION_COEFFICIENT` (2) and
every bucket is rebuilt from the element list.

The model is the class `HashMaps.HashMap`. Its fields are the source's fields:

- `table` is an `array<seq<Handle>>`;
- the element list is `order`, its nodes' handles in list order, together with
  `store`, the entry each live node owns;
- `nextHandle` allocates node identities;
- `nElements` and `tableSize` are the counter and the logical table size;
- `hasher` is a fixed function `K -> nat`;
- `defaultValue` plays `ValueType()`.

A ghost field `Contents` is the map's abstract value: the entries in iteration order.
The object invariant `Valid()` (predicate `HashMaps.ConsistentState`) says:

- the counter is the list's length;
- the list, read through `store`, is `Contents`;
- keys are distinct;
- `tableSize` is a power of two and above the element count;
- the table has at least `tableSize` buckets, and those past `tableSize` are empty
  (this happens after `clear`);
- every live node is referenced exactly once, from the bucket its key routes to;
- buckets reference only live nodes.

Each mutating method is proved to keep this invariant. `Insert`, `Index`, `Erase`,
`SetValue`, `InsertAll` and `FromPairs` state their new `Contents` through a pure
function from module `Entries`: `Inserted`, `Erased`, `Updated` or `FromEntries`. The
map behaviour of those functions is proved as round-trip lemmas about `Get`. The other
methods state their new `Contents` directly:

- `Expand` leaves it unchanged;
- `Clear` empties it;
- `Assign` makes it the other map's.

Modules:

- `Wrappers`: `Option` and `Result`.
- `Entries`: the abstract value and its operations.
- `Sizing`: the resize policy.
- `Buckets`: routing and the bucket invariant.
- `ElementStore`: the element list as handles plus an arena.
- `HashMaps`: the class.

Three details of the code shape the contracts:

- **Trigger.** `expand` grows the table when the count *equals* the table size, right
  after an insertion (hash_map.h:25). So after every insertion the count is *strictly*
  below the table size.
- **Size after n inserts.** After n distinct insertions into a fresh map, the table
  size is the smallest power of two *strictly greater* than n. For 100 insertions that
  is 128 (`Sizing.SizeAfterInsertsBelow128`). This differs from the least power of two
  that is at least n exactly when n is itself a power of two.
- **`clear`.** It resets the logical size to 1 but keeps the bucket vector and its
  length (hash_map.h:160-167). So the table may be longer than `tableSize`.

## Model

| member | source | states |
|---|---|---|
| HashMaps.HashMap.constructor | hash_map.h:38-43 | a new map is empty, consistent, with table size 1 and one bucket |
| HashMaps.HashMap.FromPairs | hash_map.h:45-59 | the range / initializer-list constructors give `FromEntries(pairs)` (first occurrence of a key wins), with the table size that repeated insertion reaches |
| HashMaps.HashMap.InsertAll | hash_map.h:52-54 | inserting the pairs one by one into an empty map ends in `Replays` of all the pairs: a valid map whose entries are `FromEntries(pairs)` and whose table size is `SizeAfterInserts` of the entry count |
| HashMaps.HashMap.InsertNext | hash_map.h:53 | one insertion extends the replay of the first i pairs to the first i+1 |
| HashMaps.HashMap.Size | hash_map.h:61-64 | size() is the number of entries |
| HashMaps.HashMap.Empty | hash_map.h:66-69 | empty() holds iff there are no entries |
| HashMaps.HashMap.Items | hash_map.h:101-109 | walking begin()..end() visits exactly the entries, in insertion order |
| HashMaps.HashMap.Scan | hash_map.h:121-130 | scanning the routed bucket stops at a node holding `k` iff `k` is present, and that node holds the value stored under `k` |
| HashMaps.HashMap.Find | hash_map.h:121-130 | find(k) returns a live node with key `k` and its stored value iff `k` is present, else the end sentinel; it changes nothing |
| HashMaps.HashMap.At | hash_map.h:151-157 | at(k) fails with out_of_range iff `k` is absent, else returns the value stored under `k`; it changes nothing |
| HashMaps.HashMap.Rebuild | hash_map.h:29-33 | pushing every node of the element list onto its routed bucket in a fresh table of `size` buckets yields a table satisfying the bucket invariant |
| HashMaps.HashMap.Expand | hash_map.h:23-34 | expand() doubles the table size exactly when the count equals it, restores count < size and a power-of-two size, and never touches the element list |
| HashMaps.HashMap.Insert | hash_map.h:76-86 | insert(k, v) appends (k, v) when `k` is absent and then expands; when `k` is present nothing at all changes; existing nodes keep their entries |
| HashMaps.HashMap.Link | hash_map.h:81-84 | counting a new node, appending it to the list and pushing it onto its routed bucket keeps the map consistent with `Contents + [(k, v)]` |
| HashMaps.HashMap.Erase | hash_map.h:88-99 | erase(k) leaves `Erased(Contents, k)`: the entry under `k` removed, the rest in order; no other node changes; the table never shrinks |
| HashMaps.HashMap.Unlink | hash_map.h:92-96 | unlinking the found node from the list and from its bucket and decrementing the count removes exactly that node and its entry |
| HashMaps.HashMap.Index | hash_map.h:143-149 | operator[](k) returns the node holding `k`; if `k` was absent (k, ValueType()) has been appended, otherwise nothing changed and the node holds the existing value; every node live before keeps its entry |
| HashMaps.HashMap.SetValue | hash_map.h:144-149 | writing through the reference operator[] returns replaces the value under that key in place, leaving keys, order and the table unchanged |
| HashMaps.HashMap.Clear | hash_map.h:159-167 | clear() leaves no entries, table size 1, the same bucket vector, and every bucket empty |
| HashMaps.HashMap.Assign | hash_map.h:169-180 | assignment makes the entries equal to the other map's, in order; self-assignment changes nothing |
| HashMaps.InsertedState | hash_map.h:81-84 | linking a node for an absent key into the list and its bucket preserves the whole invariant |
| HashMaps.ErasedState | hash_map.h:92-95 | unlinking a found node from its bucket and from the list preserves the whole invariant with the count one lower |
| HashMaps.PoppedState | hash_map.h:161-164 | popping the last node and emptying its bucket keeps the list and the table's shape consistent |
| HashMaps.UpdatedState | hash_map.h:148 | overwriting a value in place preserves the whole invariant |
| Sizing.Expanded | hash_map.h:25-28 | the expansion check never shrinks the table and at most doubles it |
| Sizing.SizeAfterInserts | hash_map.h:24-34 | after n distinct insertions into a fresh map the table size is above n |
| Sizing.ExpandedKeepsLoad | hash_map.h:24-28 | the expansion check yields a power of two, strictly above the count, and never smaller than before |
| Sizing.PowersOfTwoSpaced | hash_map.h:28 | two distinct powers of two are at least a factor two apart |
| Sizing.SizeAfterInsertsIsLeast | hash_map.h:24-34 | after n distinct insertions into a fresh map the table size is the least power of two strictly greater than n |
| Sizing.SizeAfterInsertsBelow128 | hash_map.h:24-34 | any number of distinct insertions from 64 to 127, 100 among them, ends with 128 buckets |
| Buckets.Route | hash_map.h:81 | a key's bucket is below the table size |
| Buckets.RouteIsRemainder | hash_map.h:81 | routing is `hash(k) % table_size` |
| Buckets.ModIsRemainder | hash_map.h:31 | the recursive remainder equals unsigned `%` |
| Buckets.NoDupIndices | hash_map.h:18 | a chain has no repeated handle iff no two positions hold the same handle |
| Buckets.ReferencedOnce | hash_map.h:18-19 | under the bucket invariant a live node occurs exactly once in its routed bucket and in no other |
| Buckets.Linked | hash_map.h:84 | pushing a fresh node onto its routed bucket keeps the bucket invariant |
| Buckets.RemovedAt | hash_map.h:94 | removing one position of a chain removes exactly the handle stored there |
| Buckets.Unlinked | hash_map.h:93-94 | removing a node from its bucket and from the store keeps the bucket invariant |
| Buckets.Cleared | hash_map.h:162-163 | emptying the bucket of the last node and dropping the node keeps buckets referencing only live, correctly routed nodes |
| Buckets.EmptiedTable | hash_map.h:160-166 | once no node is live, every bucket is empty and the table is valid for table size 1 |
| Buckets.RebuiltStep | hash_map.h:31-32 | pushing node i onto its routed bucket extends the rebuilt prefix by one node |
| Buckets.RebuiltAll | hash_map.h:30-33 | after every node of the list is pushed, the table references exactly the live nodes, each once from its routed bucket |
| Buckets.Relabeled | hash_map.h:148 | changing a value but not its key keeps the bucket invariant |
| ElementStore.Without | hash_map.h:93 | unlinking a node leaves exactly the other nodes |
| ElementStore.WithoutAt | hash_map.h:93 | unlinking a node of a repeat-free list removes exactly its position, keeping the others in order |
| ElementStore.Appended | hash_map.h:83 | push_back of a freshly allocated node keeps the list matching `contents + [e]` |
| ElementStore.Removed | hash_map.h:93 | dropping the node at position p keeps the list matching the contents without position p |
| ElementStore.Located | hash_map.h:124-126 | a live node holds the value stored under its key |
| ElementStore.AbsentFromBucket | hash_map.h:123-129 | a key carried by no node of its routed bucket is absent from the map |
| ElementStore.Overwritten | hash_map.h:148 | overwriting a node's value overwrites the value under its key, in place |
| Entries.Get | hash_map.h:122-130 | lookup finds nothing iff no entry has the key, and otherwise the value of the first entry with it |
| Entries.Inserted | hash_map.h:77-86 | insertion keeps every existing entry in place and grows the list by one exactly when the key was absent |
| Entries.FromEntries | hash_map.h:52-54 | inserting pairs one by one yields no more entries than there were pairs |
| Entries.FromEntriesFromPairs | hash_map.h:52-54 | every entry of a map built from pairs is one of the pairs |
| Entries.Erased | hash_map.h:89-99 | erasing never lengthens the list and leaves no entry with the key |
| Entries.Updated | hash_map.h:148 | overwriting keeps the list's length |
| Entries.UniqueKeysDistinct | hash_map.h:77-86 | keys distinct from the front is the same as pairwise distinct keys |
| Entries.GetDistinct | hash_map.h:124-126 | with distinct keys, the entry at any position is the one found under its key |
| Entries.GetAppend | hash_map.h:83 | lookup after appending one entry |
| Entries.InsertedGet | hash_map.h:77-86 | insert round trip: an absent key then maps to the new value, a present key keeps its value, other keys are unaffected |
| Entries.InsertedDistinct | hash_map.h:77-86 | insertion keeps keys distinct and grows the size by one exactly when the key was absent |
| Entries.ErasedGet | hash_map.h:89-99 | erase round trip: the key is then absent and every other key maps to what it did |
| Entries.ErasedAbsent | hash_map.h:89-99 | erasing an absent key changes nothing |
| Entries.ErasedAt | hash_map.h:89-99 | erasing the key at position p removes exactly that entry, keeping the others in order |
| Entries.ErasedTwice | hash_map.h:89-99 | erase is idempotent |
| Entries.ErasedLength | hash_map.h:89-99 | with distinct keys, erase shrinks the size by one exactly when the key was present |
| Entries.UpdatedGet | hash_map.h:148 | overwrite round trip: a present key then maps to the new value, every other key is unaffected |
| Entries.UpdatedAt | hash_map.h:148 | overwriting changes only the entries with that key, in place |
| Entries.FromEntriesStep | hash_map.h:52-54 | building from one more pair inserts that pair into what the earlier pairs built |
| Entries.FromEntriesGet | hash_map.h:45-59 | a map built from pairs maps each key to the value of its first occurrence |
| Entries.FromEntriesDistinct | hash_map.h:45-59 | a map built from pairs has distinct keys |
| Entries.FromEntriesPrefix | hash_map.h:52-54 | later pairs never change or reorder the entries built from earlier ones |
| Entries.FromEntriesOfDistinct | hash_map.h:175-177 | re-inserting a list with distinct keys rebuilds exactly that list, in order |
| Entries.RemovedDistinct | hash_map.h:93 | dropping a position keeps keys distinct |
| Entries.UpdatedDistinct | hash_map.h:148 | overwriting a value keeps keys distinct |

## Left out

- The `Hash` template parameter and `std::hash` are modelled as one fixed function `K -> nat`, supplied at construction. Keys need only equality.
- HashMaps.HashMap.Assign: requires both maps to have the same hash function. `operator=` re-inserts under this map's hasher and only then copies `other.hasher_` (hash_map.h:178). With differing hashers the buckets would be indexed under the old function. That case is not modelled.
- `hash_function()` (hash_map.h:72-74) is the public constant field `hasher`; no separate member models it.
- `size_t` overflow is not modelled: `table_size_ *= EXPANSION_COEFFICIENT` (hash_map.h:28), the counter and hash values are unbounded naturals.
- `std::list` nodes and iterators become handles (naturals) into an arena map. Node memory is not reclaimed and handles are never reused. Pointer identity beyond that is not modelled.
- `begin()`/`end()` (hash_map.h:101-109) are modelled only as the sequence of entries that iteration visits (`Items`).
- The const overloads of `begin`, `end` and `find` (hash_map.h:111-119, 132-141) are not modelled. They behave like the non-const ones, which are.
- The `std::out_of_range` exception of `at` is a `Failure(OutOfRange)` result, not C++ exception machinery.
- HashMaps.HashMap.Index: returns the node handle rather than a `ValueType&`. Writing through the reference is the separate method `SetValue`, and reading is `store[h].value`.
- Amortised complexity of insertion is not a property of the code's results and is not modelled.
- The copy constructor is not modelled. `hash_map.h` does not define one, and the compiler-generated one would copy `table_` with iterators into the other map's `elements_`.
- The iterator-range constructor takes any input iterator range. The model takes the range's contents as a sequence of pairs.
