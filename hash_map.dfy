/**
 A hash table with separate chaining that also remembers insertion order.
 The element list owns the entries and gives the iteration order; the bucket
 table holds, per bucket, the handles of the nodes whose key hashes there.
 */
module HashMaps {
  import opened Wrappers
  import opened Entries
  import opened Sizing
  import opened Buckets
  import opened ElementStore

  /** The error `at` reports for a missing key (std::out_of_range). */
  datatype KeyError = OutOfRange

  /**
   The invariant of the map's fields, stated on their values: the counter,
   the element list and the bucket table agree, keys are distinct, and the
   table size is a power of two no smaller than the element count.
   */
  ghost predicate ConsistentState<K, V>(t: seq<seq<Handle>>, order: seq<Handle>, store: map<Handle, Entry<K, V>>,
                                        contents: seq<Entry<K, V>>, next: Handle, n: nat, size: nat, hasher: K -> nat)
  {
    && n == |order|
    && Matches(order, store, contents, next)
    && UniqueKeys(contents)
    && IsPowerOfTwo(size)
    && n <= size
    && Indexes(t, store, hasher, size)
  }

  /** Linking a new node for an absent key into the list and into its bucket keeps the fields consistent. */
  lemma InsertedState<K, V>(t: seq<seq<Handle>>, order: seq<Handle>, store: map<Handle, Entry<K, V>>,
                            contents: seq<Entry<K, V>>, next: Handle, n: nat, size: nat, hasher: K -> nat, e: Entry<K, V>,
                            t': seq<seq<Handle>>, order': seq<Handle>, store': map<Handle, Entry<K, V>>, contents': seq<Entry<K, V>>)
    requires ConsistentState(t, order, store, contents, next, n, size, hasher) && n < size
    requires Get(contents, e.key).None?
    requires var b := Route(hasher, e.key, size);
             t' == t[b := t[b] + [next]] && order' == order + [next] && store' == store[next := e] && contents' == contents + [e]
    ensures next !in store
    ensures ConsistentState(t', order', store', contents', next + 1, n + 1, size, hasher)
  {
    Appended(order, store, contents, next, e);
    Linked(t, store, hasher, size, next, e);
    UniqueKeysDistinct(contents);
    InsertedDistinct(contents, e.key, e.value);
    UniqueKeysDistinct(contents');
  }

  /**
   Unlinking the node at position i of bucket b from that bucket and from the
   list, and dropping it, keeps the fields consistent once the entries under
   its key are erased from the contents.
   */
  lemma ErasedState<K, V>(t: seq<seq<Handle>>, order: seq<Handle>, store: map<Handle, Entry<K, V>>,
                          contents: seq<Entry<K, V>>, next: Handle, n: nat, size: nat, hasher: K -> nat, b: nat, i: nat,
                          t': seq<seq<Handle>>, order': seq<Handle>, store': map<Handle, Entry<K, V>>, contents': seq<Entry<K, V>>)
    requires ConsistentState(t, order, store, contents, next, n, size, hasher)
    requires b < |t| && i < |t[b]|
    requires t' == t[b := t[b][..i] + t[b][i + 1..]] && order' == Without(order, t[b][i]) && store' == store - {t[b][i]}
    requires t[b][i] in store && contents' == Erased(contents, store[t[b][i]].key)
    ensures 0 < n
    ensures ConsistentState(t', order', store', contents', next, n - 1, size, hasher)
  {
    var p :| 0 <= p < |order| && order[p] == t[b][i];
    UniqueKeysDistinct(contents);
    WithoutAt(order, p);
    Removed(order, store, contents, next, p);
    Unlinked(t, store, hasher, size, b, i);
    ErasedAt(contents, p);
    RemovedDistinct(contents, p);
    UniqueKeysDistinct(contents');
  }

  /** Popping the last node of the list and emptying its bucket keeps the list and the table's shape. */
  lemma PoppedState<K, V>(t: seq<seq<Handle>>, order: seq<Handle>, store: map<Handle, Entry<K, V>>,
                          contents: seq<Entry<K, V>>, next: Handle, size: nat, hasher: K -> nat,
                          t': seq<seq<Handle>>, order': seq<Handle>, store': map<Handle, Entry<K, V>>, contents': seq<Entry<K, V>>)
    requires Matches(order, store, contents, next) && RoutedLive(t, store, hasher, size) && order != []
    requires var h := order[|order| - 1];
             h in store && t' == t[Route(hasher, store[h].key, size) := []] && store' == store - {h}
    requires order' == order[..|order| - 1] && contents' == contents[..|order| - 1]
    ensures Matches(order', store', contents', next) && RoutedLive(t', store', hasher, size)
  {
    var h := order[|order| - 1];
    Cleared(t, store, hasher, size, h);
    Removed(order, store, contents, next, |order| - 1);
    assert order[|order|..] == [] && contents[|order|..] == [];
    assert order' == order[..|order| - 1] + order[|order|..];
    assert contents' == contents[..|order| - 1] + contents[|order|..];
  }

  /** Overwriting the value a live node holds keeps the fields consistent. */
  lemma UpdatedState<K, V>(t: seq<seq<Handle>>, order: seq<Handle>, store: map<Handle, Entry<K, V>>,
                           contents: seq<Entry<K, V>>, next: Handle, n: nat, size: nat, hasher: K -> nat, h: Handle, v: V)
    requires ConsistentState(t, order, store, contents, next, n, size, hasher) && h in store
    ensures ConsistentState(t, order, store[h := Entry(store[h].key, v)], Updated(contents, store[h].key, v), next, n, size, hasher)
  {
    UniqueKeysDistinct(contents);
    Overwritten(order, store, contents, next, h, v);
    UpdatedDistinct(contents, store[h].key, v);
    UniqueKeysDistinct(Updated(contents, store[h].key, v));
    Relabeled(t, store, hasher, size, h, v);
  }

  class HashMap<K(==), V> {
    /** The hash function, fixed at construction. */
    const hasher: K -> nat
    /** The value a missing key receives through indexing (ValueType()). */
    const defaultValue: V

    /** The bucket table; only its first `tableSize` buckets are in use. */
    var table: array<seq<Handle>>
    /** The nodes of the element list, in list order. */
    var order: seq<Handle>
    /** The entry each live node owns. */
    var store: map<Handle, Entry<K, V>>
    /** The identity the next allocated node receives. */
    var nextHandle: Handle
    var nElements: nat
    var tableSize: nat

    /** The entries in iteration order, which is insertion order. */
    ghost var Contents: seq<Entry<K, V>>

    /** Everything but the load factor: the state `expand` starts from. */
    ghost predicate Consistent()
      reads this, table
    {
      ConsistentState(table[..], order, store, Contents, nextHandle, nElements, tableSize, hasher)
    }

    /** The object invariant: consistent, with load factor below 1. */
    ghost predicate Valid()
      reads this, table
    {
      Consistent() && nElements < tableSize
    }

    /** The default constructor: one empty bucket. */
    constructor (hasher: K -> nat, defaultValue: V)
      ensures Valid() && fresh(table)
      ensures Contents == [] && tableSize == 1 && table.Length == 1
      ensures this.hasher == hasher && this.defaultValue == defaultValue
    {
      this.hasher := hasher;
      this.defaultValue := defaultValue;
      nElements, tableSize := 0, 1;
      table := new seq<Handle>[1](_ => []);
      order, store, nextHandle := [], map[], 0;
      Contents := [];
    }

    /** The iterator-range and initializer-list constructors: repeated insertion into an empty map. */
    constructor FromPairs(pairs: seq<Entry<K, V>>, hasher: K -> nat, defaultValue: V)
      ensures Valid() && fresh(table)
      ensures Contents == FromEntries(pairs)
      ensures tableSize == SizeAfterInserts(|Contents|)
      ensures this.hasher == hasher && this.defaultValue == defaultValue
    {
      this.hasher := hasher;
      this.defaultValue := defaultValue;
      nElements, tableSize := 0, 1;
      table := new seq<Handle>[1](_ => []);
      order, store, nextHandle := [], map[], 0;
      Contents := [];
      new;
      assert pairs[..0] == [];
      InsertAll(pairs);
      assert pairs[..|pairs|] == pairs;
    }

    /** size(): the number of entries. */
    method Size() returns (n: nat)
      requires Valid()
      ensures n == |Contents|
    {
      n := nElements;
    }

    /** empty(): whether there are no entries. */
    method Empty() returns (b: bool)
      requires Valid()
      ensures b <==> Contents == []
    {
      b := nElements == 0;
    }

    /** begin()..end(): the entries as iteration visits them. */
    method Items() returns (items: seq<Entry<K, V>>)
      requires Valid()
      ensures items == Contents
    {
      items := [];
      var i := 0;
      while i < |order|
        invariant 0 <= i <= |order|
        invariant items == Contents[..i]
      {
        items := items + [store[order[i]]];
        i := i + 1;
      }
    }

    /**
     The scan that find and erase run over the bucket `k` routes to: the
     position in that chain of the node holding `k`, or the chain's length.
     */
    method Scan(k: K) returns (i: nat)
      requires Valid()
      ensures i <= |table[Route(hasher, k, tableSize)]|
      ensures i == |table[Route(hasher, k, tableSize)]| <==> Get(Contents, k).None?
      ensures i < |table[Route(hasher, k, tableSize)]| ==>
                var h := table[Route(hasher, k, tableSize)][i];
                h in store && store[h].key == k && Get(Contents, k) == Some(store[h].value)
    {
      var chain := table[Route(hasher, k, tableSize)];
      i := 0;
      while i < |chain|
        invariant 0 <= i <= |chain|
        invariant forall j :: 0 <= j < i ==> store[chain[j]].key != k
      {
        if store[chain[i]].key == k {
          Located(order, store, Contents, nextHandle, chain[i]);
          return;
        }
        i := i + 1;
      }
      AbsentFromBucket(table[..], order, store, Contents, nextHandle, hasher, tableSize, k);
    }

    /** find(k): the node holding key `k`, or None for the end iterator. */
    method Find(k: K) returns (r: Option<Handle>)
      requires Valid()
      ensures r.None? <==> Get(Contents, k).None?
      ensures r.Some? ==> r.value in store && store[r.value].key == k
                          && Get(Contents, k) == Some(store[r.value].value)
    {
      var chain := table[Route(hasher, k, tableSize)];
      var i := Scan(k);
      if i < |chain| {
        return Some(chain[i]);
      }
      return None;
    }

    /** at(k): the value stored under `k`, or OutOfRange when `k` is absent. */
    method At(k: K) returns (r: Result<V, KeyError>)
      requires Valid()
      ensures r.Failure? <==> Get(Contents, k).None?
      ensures r.Success? ==> Get(Contents, k) == Some(r.value)
    {
      var found := Find(k);
      if found.None? {
        return Failure(OutOfRange);
      }
      found := Find(k);
      return Success(store[found.value].value);
    }

    /**
     The body of expand's rebuild: a fresh table of `size` empty buckets, then
     every node of the element list pushed, in list order, onto the bucket its
     key routes to under `size`.
     */
    method Rebuild(size: nat) returns (t: array<seq<Handle>>)
      requires 0 < size
      requires Matches(order, store, Contents, nextHandle)
      ensures fresh(t) && t.Length == size
      ensures Indexes(t[..], store, hasher, size)
    {
      t := new seq<Handle>[size](_ => []);
      var i := 0;
      while i < |order|
        invariant 0 <= i <= |order|
        invariant Rebuilt(t[..], order, store, hasher, i)
      {
        var h := order[i];
        var b := Route(hasher, store[h].key, size);
        NoDupFresh(order, i);
        RebuiltStep(t[..], order, store, hasher, i);
        t[b] := t[b] + [h];
        i := i + 1;
      }
      RebuiltAll(t[..], order, store, hasher);
    }

    /**
     expand(): when the element count has reached the table size, double the
     size and rebuild every bucket from the element list.
     */
    method Expand()
      requires Consistent()
      modifies this
      ensures Valid()
      ensures tableSize == Expanded(old(tableSize), nElements)
      ensures nElements == old(nElements) && order == old(order) && store == old(store)
      ensures nextHandle == old(nextHandle) && Contents == old(Contents)
      ensures table == old(table) || fresh(table)
    {
      ExpandedKeepsLoad(tableSize, nElements);
      if nElements != tableSize {
        return;
      }
      tableSize := tableSize * ExpansionCoefficient;
      table := Rebuild(tableSize);
    }

    /** insert((k, v)): add the pair unless `k` is present; the first value for a key wins. */
    method Insert(k: K, v: V)
      requires Valid()
      modifies this, table
      ensures Valid()
      ensures Contents == Inserted(old(Contents), k, v)
      ensures Get(old(Contents), k).Some? ==> unchanged(this) && unchanged(table)
      ensures Get(old(Contents), k).None? ==> tableSize == Expanded(old(tableSize), |Contents|)
      ensures table == old(table) || fresh(table)
      ensures forall h :: h in old(store) ==> h in store && store[h] == old(store[h])
    {
      var found := Find(k);
      if found.Some? {
        return;
      }
      Link(k, v);
      Expand();
    }

    /**
     The body of insert once the key is known to be absent: count the element,
     append its node to the list and push the node onto its bucket. The load
     factor may reach 1 here; expand restores it.
     */
    method Link(k: K, v: V)
      requires Valid() && Get(Contents, k).None?
      modifies this, table
      ensures Consistent()
      ensures Contents == old(Contents) + [Entry(k, v)]
      ensures nElements == old(nElements) + 1 && tableSize == old(tableSize) && table == old(table)
      ensures old(nextHandle) !in old(store) && store == old(store)[old(nextHandle) := Entry(k, v)]
    {
      var b := Route(hasher, k, tableSize);
      ghost var t0, order0, store0, contents0 := table[..], order, store, Contents;
      var h := nextHandle;
      nElements := nElements + 1;
      order, store, nextHandle := order + [h], store[h := Entry(k, v)], nextHandle + 1;
      Contents := Contents + [Entry(k, v)];
      table[b] := table[b] + [h];
      InsertedState(t0, order0, store0, contents0, h, nElements - 1, tableSize, hasher, Entry(k, v),
                    table[..], order, store, Contents);
    }

    /**
     The state after inserting the first i pairs, in order, into an empty map:
     the entries are their replay and the table has grown as repeated
     insertion grows it.
     */
    ghost predicate Replays(pairs: seq<Entry<K, V>>, i: nat)
      reads this, table
    {
      && i <= |pairs|
      && Valid()
      && Contents == FromEntries(pairs[..i])
      && tableSize == SizeAfterInserts(|Contents|)
    }

    /**
     Inserting a sequence of pairs, in order, into an empty map: the loop of the
     range constructor and of assignment.
     */
    method InsertAll(pairs: seq<Entry<K, V>>)
      requires Replays(pairs, 0)
      modifies this, table
      ensures Replays(pairs, |pairs|)
      ensures table == old(table) || fresh(table)
    {
      var i := 0;
      while i < |pairs|
        invariant Replays(pairs, i)
        invariant table == old(table) || fresh(table)
      {
        InsertNext(pairs, i);
        i := i + 1;
      }
    }

    /** One step of that loop: inserting the i-th pair extends the replay of the first i pairs by one. */
    method InsertNext(pairs: seq<Entry<K, V>>, i: nat)
      requires i < |pairs| && Replays(pairs, i)
      modifies this, table
      ensures Replays(pairs, i + 1)
      ensures Contents == FromEntries(pairs[..i + 1])
      ensures table == old(table) || fresh(table)
    {
      FromEntriesStep(pairs, i);
      Insert(pairs[i].key, pairs[i].value);
    }

    /** erase(k): unlink the node holding `k` from the list and from its bucket; nothing if absent. */
    method Erase(k: K)
      requires Valid()
      modifies this, table
      ensures Valid()
      ensures Contents == Erased(old(Contents), k)
      ensures tableSize == old(tableSize) && table == old(table)
      ensures forall h :: h in store ==> h in old(store) && store[h] == old(store[h])
      ensures forall h :: h in old(store) && old(store[h]).key != k ==> h in store
    {
      var b := Route(hasher, k, tableSize);
      var i := Scan(k);
      if i == |table[b]| {
        ErasedAbsent(Contents, k);
        return;
      }
      Unlink(b, i);
    }

    /** The body of erase once the scan has found `k` at position i of bucket b: both unlinks and the count. */
    method Unlink(b: nat, i: nat)
      requires Valid() && b < table.Length && i < |table[b]|
      modifies this, table
      ensures Valid()
      ensures old(table[b][i]) in old(store)
      ensures Contents == Erased(old(Contents), old(store[table[b][i]]).key)
      ensures store == old(store) - {old(table[b][i])}
      ensures tableSize == old(tableSize) && table == old(table)
    {
      var chain := table[b];
      var h := chain[i];
      ghost var t0, order0, store0, contents0 := table[..], order, store, Contents;
      order, store := Without(order, h), store - {h};
      table[b] := chain[..i] + chain[i + 1..];
      nElements := nElements - 1;
      Contents := Erased(Contents, store0[h].key);
      ErasedState(t0, order0, store0, contents0, nextHandle, nElements + 1, tableSize, hasher, b, i,
                  table[..], order, store, Contents);
    }

    /**
     operator[](k): the node holding `k`, inserting (k, ValueType()) first when
     `k` is absent. The caller reads or writes the value through it.
     */
    method Index(k: K) returns (h: Handle)
      requires Valid()
      modifies this, table
      ensures Valid()
      ensures Contents == Inserted(old(Contents), k, defaultValue)
      ensures h in store && store[h].key == k && Get(Contents, k) == Some(store[h].value)
      ensures Get(old(Contents), k).Some? ==> unchanged(this) && unchanged(table)
      ensures Get(old(Contents), k).None? ==> store[h].value == defaultValue
      ensures table == old(table) || fresh(table)
      ensures forall g :: g in old(store) ==> g in store && store[g] == old(store[g])
    {
      var found := Find(k);
      if found.None? {
        Insert(k, defaultValue);
        InsertedGet(old(Contents), k, defaultValue, k);
      }
      found := Find(k);
      h := found.value;
    }

    /** Assignment through the reference that indexing returns: `m[k] = v`. */
    method SetValue(h: Handle, v: V)
      requires Valid() && h in store
      modifies this
      ensures Valid()
      ensures Contents == Updated(old(Contents), old(store[h]).key, v)
      ensures store == old(store)[h := Entry(old(store[h]).key, v)]
      ensures order == old(order) && tableSize == old(tableSize) && table == old(table)
    {
      var k := store[h].key;
      UpdatedState(table[..], order, store, Contents, nextHandle, nElements, tableSize, hasher, h, v);
      store := store[h := Entry(k, v)];
      Contents := Updated(Contents, k, v);
    }

    /** clear(): pop every node, emptying its bucket; the table itself keeps its length. */
    method Clear()
      requires Valid()
      modifies this, table
      ensures Valid()
      ensures Contents == [] && tableSize == 1
      ensures table == old(table) && forall b :: 0 <= b < table.Length ==> table[b] == []
    {
      while order != []
        invariant table == old(table) && tableSize == old(tableSize) && IsPowerOfTwo(tableSize)
        invariant Matches(order, store, Contents, nextHandle)
        invariant RoutedLive(table[..], store, hasher, tableSize)
        decreases |order|
      {
        var last := |order| - 1;
        var h := order[last];
        ghost var t0, order0, store0, contents0 := table[..], order, store, Contents;
        table[Route(hasher, store[h].key, tableSize)] := [];
        order, store := order[..last], store - {h};
        Contents := Contents[..last];
        PoppedState(t0, order0, store0, contents0, nextHandle, tableSize, hasher, table[..], order, store, Contents);
      }
      assert store.Keys == {};
      EmptiedTable(table[..], store, hasher, tableSize, 1);
      nElements := 0;
      tableSize := 1;
    }

    /**
     operator=(other): clear, then insert every entry of `other` in its
     iteration order. Assigning a map to itself does nothing.
     */
    method Assign(other: HashMap<K, V>)
      requires Valid() && other.Valid()
      requires other.hasher == hasher
      modifies this, table
      ensures Valid()
      ensures Contents == old(other.Contents)
      ensures other == this ==> unchanged(this) && unchanged(table)
      ensures other != this ==> tableSize == SizeAfterInserts(|Contents|)
      ensures table == old(table) || fresh(table)
    {
      if other == this {
        return;
      }
      var items := other.Items();
      Clear();
      UniqueKeysDistinct(items);
      assert items[..0] == [];
      InsertAll(items);
      assert items[..|items|] == items;
      FromEntriesOfDistinct(items);
    }
  }
}
