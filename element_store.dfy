/**
 The element list: the nodes that own the entries, kept as the sequence of
 their handles in list order plus the entry each live handle owns. Nodes are
 never moved, so a handle stays valid until its own node is erased.
 */
module ElementStore {
  import opened Wrappers
  import opened Entries
  import opened Buckets

  /**
   `order` lists each live node once, in list order; `store` holds exactly the
   live nodes, all allocated below `next`; reading the entries along `order`
   gives `contents`.
   */
  ghost predicate Matches<K, V>(order: seq<Handle>, store: map<Handle, Entry<K, V>>, contents: seq<Entry<K, V>>, next: Handle) {
    && |order| == |contents|
    && NoDup(order)
    && (forall i :: 0 <= i < |order| ==> order[i] in store && store[order[i]] == contents[i])
    && (forall h :: h in store ==> h in order && h < next)
  }

  /** The list with the node `h` unlinked. */
  function Without(order: seq<Handle>, h: Handle): (r: seq<Handle>)
    ensures forall g :: g in r <==> g in order && g != h
  {
    if order == [] then []
    else if order[0] == h then Without(order[1..], h)
    else [order[0]] + Without(order[1..], h)
  }

  /** Unlinking a node that sits at position p removes exactly that position. */
  lemma {:induction false} WithoutAt(order: seq<Handle>, p: nat)
    requires NoDup(order) && p < |order|
    ensures Without(order, order[p]) == order[..p] + order[p + 1..]
  {
    var h := order[p];
    if p == 0 {
      assert forall g :: g in order[1..] ==> g != h;
      WithoutAbsent(order[1..], h);
    } else {
      assert order[1..][p - 1] == h;
      WithoutAt(order[1..], p - 1);
      assert order[..p] + order[p + 1..] == [order[0]] + (order[1..][..p - 1] + order[1..][p..]);
    }
  }

  lemma {:induction false} WithoutAbsent(order: seq<Handle>, h: Handle)
    requires h !in order
    ensures Without(order, h) == order
  {
    if order != [] {
      WithoutAbsent(order[1..], h);
      assert order == [order[0]] + order[1..];
    }
  }

  /** Appending a freshly allocated node for `e` keeps the list consistent with `contents + [e]`. */
  lemma Appended<K, V>(order: seq<Handle>, store: map<Handle, Entry<K, V>>, contents: seq<Entry<K, V>>, next: Handle, e: Entry<K, V>)
    requires Matches(order, store, contents, next)
    ensures next !in store
    ensures Matches(order + [next], store[next := e], contents + [e], next + 1)
  {
    NoDupAppend(order, next);
  }

  /** Unlinking the node at position p keeps the list consistent with the contents minus that entry. */
  lemma Removed<K, V>(order: seq<Handle>, store: map<Handle, Entry<K, V>>, contents: seq<Entry<K, V>>, next: Handle, p: nat)
    requires Matches(order, store, contents, next) && p < |order|
    ensures Matches(order[..p] + order[p + 1..], store - {order[p]}, contents[..p] + contents[p + 1..], next)
  {
    var h := order[p];
    var order', store' := order[..p] + order[p + 1..], store - {h};
    RemovedAt(order, p);
    var contents' := contents[..p] + contents[p + 1..];
    forall i | 0 <= i < |order'| ensures order'[i] in store' && store'[order'[i]] == contents'[i] {
      if i < p {
        assert order'[i] == order[i] && contents'[i] == contents[i];
      } else {
        assert order'[i] == order[i + 1] && contents'[i] == contents[i + 1];
      }
    }
  }

  /** A live node holds the entry stored under its key. */
  lemma Located<K, V>(order: seq<Handle>, store: map<Handle, Entry<K, V>>, contents: seq<Entry<K, V>>, next: Handle, h: Handle)
    requires Matches(order, store, contents, next) && UniqueKeys(contents) && h in store
    ensures Get(contents, store[h].key) == Some(store[h].value)
  {
    var p :| 0 <= p < |order| && order[p] == h;
    UniqueKeysDistinct(contents);
    GetDistinct(contents, p);
  }

  /** A key that none of the nodes in its routed bucket carries is absent from the list. */
  lemma AbsentFromBucket<K, V>(t: seq<seq<Handle>>, order: seq<Handle>, store: map<Handle, Entry<K, V>>, contents: seq<Entry<K, V>>,
                               next: Handle, hasher: K -> nat, size: nat, k: K)
    requires Matches(order, store, contents, next) && Indexes(t, store, hasher, size)
    requires forall h :: h in t[Route(hasher, k, size)] ==> store[h].key != k
    ensures Get(contents, k).None?
  {
    forall p | 0 <= p < |contents| ensures contents[p].key != k {
      var h := order[p];
      assert h in t[Route(hasher, store[h].key, size)];
    }
  }

  /** Overwriting the value of a live node overwrites the value stored under its key, in place. */
  lemma Overwritten<K, V>(order: seq<Handle>, store: map<Handle, Entry<K, V>>, contents: seq<Entry<K, V>>, next: Handle, h: Handle, v: V)
    requires Matches(order, store, contents, next) && DistinctKeys(contents) && h in store
    ensures Matches(order, store[h := Entry(store[h].key, v)], Updated(contents, store[h].key, v), next)
  {
    var k := store[h].key;
    var p :| 0 <= p < |order| && order[p] == h;
    var contents' := Updated(contents, k, v);
    forall i | 0 <= i < |contents| ensures contents'[i] == if i == p then Entry(k, v) else contents[i] {
      UpdatedAt(contents, k, v, i);
      if i != p {
        assert contents[i].key != k by {
          assert contents[p].key == k;
        }
      }
    }
  }
}
