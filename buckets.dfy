/**
 The bucket table: a vector of chains of non-owning handles into the element
 list. A handle names one node of the list; `Route` picks the chain a key
 belongs to under the current logical table size.
 */
module Buckets {
  import opened Entries

  /** Identity of one node of the element list (what a list iterator points at). */
  type Handle = nat

  /**
   The remainder of x divided by m, by repeated subtraction. Defined by
   recursion so that the bucket arithmetic stays linear for the solver;
   `ModIsRemainder` proves it is the remainder of unsigned division.
   */
  function Mod(x: nat, m: nat): (r: nat)
    requires 0 < m
    ensures r < m
    decreases x
  {
    if x < m then x else Mod(x - m, m)
  }

  lemma {:induction false} ModIsRemainder(x: nat, m: nat)
    requires 0 < m
    ensures Mod(x, m) == x % m
    decreases x
  {
    if x >= m {
      ModIsRemainder(x - m, m);
      RemainderShift(x - m, m);
    }
  }

  /** Adding the divisor once does not change the remainder. */
  lemma RemainderShift(y: nat, m: nat)
    requires 0 < m
    ensures (y + m) % m == y % m
  {
    var q := y / m;
    assert y + m == (q + 1) * m + y % m;
    RemainderUnique(y + m, m, q + 1, y % m);
  }

  /** A remainder below the divisor is the remainder. */
  lemma RemainderUnique(x: nat, m: nat, q: int, r: int)
    requires 0 < m && 0 <= r < m && x == q * m + r
    ensures r == x % m
  {
    var q0, r0 := x / m, x % m;
    assert x == q0 * m + r0;
    if q < q0 {
      MulMonotone(q + 1, q0, m);
    } else if q0 < q {
      MulMonotone(q0 + 1, q, m);
    }
  }

  lemma {:induction false} MulMonotone(a: int, b: int, m: nat)
    requires a <= b
    ensures a * m <= b * m
    decreases b - a
  {
    if a < b {
      MulMonotone(a, b - 1, m);
      assert b * m == (b - 1) * m + m;
    }
  }

  /** The bucket a key is routed to: hash(k) % table_size. */
  function Route<K>(hasher: K -> nat, k: K, size: nat): (b: nat)
    requires 0 < size
    ensures b < size
  {
    Mod(hasher(k), size)
  }

  /** Routing is the remainder of the hash modulo the table size. */
  lemma RouteIsRemainder<K>(hasher: K -> nat, k: K, size: nat)
    requires 0 < size
    ensures Route(hasher, k, size) == hasher(k) % size
  {
    ModIsRemainder(hasher(k), size);
  }

  /** No handle occurs twice in a chain: the first does not recur, and so on down the rest. */
  predicate NoDup(s: seq<Handle>) {
    s == [] || (s[0] !in s[1..] && NoDup(s[1..]))
  }

  /** The same property stated on positions: no two positions hold the same handle. */
  lemma {:induction false} NoDupIndices(s: seq<Handle>)
    ensures NoDup(s) <==> forall i, j :: 0 <= i < j < |s| ==> s[i] != s[j]
  {
    if s != [] {
      var r := s[1..];
      NoDupIndices(r);
      assert forall i :: 0 <= i < |r| ==> r[i] == s[i + 1];
      if NoDup(s) {
        forall i, j | 0 <= i < j < |s| ensures s[i] != s[j] {
          assert s[j] == r[j - 1];
          if i > 0 {
            assert s[i] == r[i - 1];
          }
        }
      }
    }
  }

  /**
   The table's shape, whatever the element list holds: it has at least
   `size` buckets, those past `size` are empty, no chain repeats a handle,
   and every handle in a chain names a live node whose key routes there.
   */
  ghost predicate RoutedLive<K, V>(t: seq<seq<Handle>>, store: map<Handle, Entry<K, V>>, hasher: K -> nat, size: nat) {
    && 0 < size <= |t|
    && (forall b :: size <= b < |t| ==> t[b] == [])
    && (forall b :: 0 <= b < |t| ==> NoDup(t[b]))
    && (forall b, h :: 0 <= b < |t| && h in t[b] ==> h in store && Route(hasher, store[h].key, size) == b)
  }

  /** The bucket invariant: additionally, every live node is referenced from its routed bucket. */
  ghost predicate Indexes<K, V>(t: seq<seq<Handle>>, store: map<Handle, Entry<K, V>>, hasher: K -> nat, size: nat) {
    && RoutedLive(t, store, hasher, size)
    && (forall h :: h in store ==> h in t[Route(hasher, store[h].key, size)])
  }

  /** Appending a handle that is not there yet keeps a chain free of repeats. */
  lemma {:induction false} NoDupAppend(s: seq<Handle>, h: Handle)
    requires NoDup(s) && h !in s
    ensures NoDup(s + [h])
  {
    if s != [] {
      assert (s + [h])[1..] == s[1..] + [h];
      NoDupAppend(s[1..], h);
    }
  }

  /** In a chain without repeats, no handle occurs before its own position. */
  lemma NoDupFresh(s: seq<Handle>, i: nat)
    requires NoDup(s) && i < |s|
    ensures s[i] !in s[..i]
  {
    NoDupIndices(s);
  }

  lemma {:induction false} NoDupCount(s: seq<Handle>, h: Handle)
    requires NoDup(s) && h in s
    ensures multiset(s)[h] == 1
  {
    if s[0] == h {
      assert h !in s[1..];
      assert s == [s[0]] + s[1..];
    } else {
      NoDupCount(s[1..], h);
      assert s == [s[0]] + s[1..];
    }
  }

  /** Every live node is referenced exactly once, from the bucket its key routes to. */
  lemma ReferencedOnce<K, V>(t: seq<seq<Handle>>, store: map<Handle, Entry<K, V>>, hasher: K -> nat, size: nat, h: Handle)
    requires Indexes(t, store, hasher, size) && h in store
    ensures multiset(t[Route(hasher, store[h].key, size)])[h] == 1
    ensures forall b :: 0 <= b < |t| && b != Route(hasher, store[h].key, size) ==> h !in t[b]
  {
    NoDupCount(t[Route(hasher, store[h].key, size)], h);
  }

  /** Linking a fresh node into its routed bucket keeps the bucket invariant. */
  lemma Linked<K, V>(t: seq<seq<Handle>>, store: map<Handle, Entry<K, V>>, hasher: K -> nat, size: nat, h: Handle, e: Entry<K, V>)
    requires Indexes(t, store, hasher, size) && h !in store
    ensures var b := Route(hasher, e.key, size);
            Indexes(t[b := t[b] + [h]], store[h := e], hasher, size)
  {
    var b := Route(hasher, e.key, size);
    var t', store' := t[b := t[b] + [h]], store[h := e];
    NoDupAppend(t[b], h);
    forall c, g | 0 <= c < |t'| && g in t'[c]
      ensures g in store' && Route(hasher, store'[g].key, size) == c
    {
      if c == b && g !in t[b] {
        assert g == h;
      }
    }
  }

  /** Removing position i of a chain without repeats removes exactly the handle stored there. */
  lemma {:induction false} RemovedAt(s: seq<Handle>, i: nat)
    requires NoDup(s) && i < |s|
    ensures NoDup(s[..i] + s[i + 1..])
    ensures forall g :: g in s[..i] + s[i + 1..] <==> g in s && g != s[i]
  {
    assert s == [s[0]] + s[1..];
    if i == 0 {
      assert s[..i] + s[i + 1..] == s[1..];
    } else {
      var r := s[1..];
      RemovedAt(r, i - 1);
      assert s[..i] + s[i + 1..] == [s[0]] + (r[..i - 1] + r[i..]);
    }
  }

  /** Unlinking the handle at position i of bucket b, and dropping its node, keeps the bucket invariant. */
  lemma Unlinked<K, V>(t: seq<seq<Handle>>, store: map<Handle, Entry<K, V>>, hasher: K -> nat, size: nat, b: nat, i: nat)
    requires Indexes(t, store, hasher, size) && b < |t| && i < |t[b]|
    ensures Indexes(t[b := t[b][..i] + t[b][i + 1..]], store - {t[b][i]}, hasher, size)
  {
    var h := t[b][i];
    var t', store' := t[b := t[b][..i] + t[b][i + 1..]], store - {h};
    RemovedAt(t[b], i);
    ReferencedOnce(t, store, hasher, size, h);
    forall c, g | 0 <= c < |t'| && g in t'[c]
      ensures g in store' && Route(hasher, store'[g].key, size) == c
    {
      assert g in t[c] && g != h;
    }
    forall g | g in store' ensures g in t'[Route(hasher, store'[g].key, size)] {
      assert g in t[Route(hasher, store[g].key, size)];
    }
  }

  /** Emptying the bucket of one node and dropping that node keeps the table's shape. */
  lemma Cleared<K, V>(t: seq<seq<Handle>>, store: map<Handle, Entry<K, V>>, hasher: K -> nat, size: nat, h: Handle)
    requires RoutedLive(t, store, hasher, size) && h in store
    ensures RoutedLive(t[Route(hasher, store[h].key, size) := []], store - {h}, hasher, size)
  {
  }

  /** A table with no live node to reference has only empty buckets, and is indexed under any size it can hold. */
  lemma EmptiedTable<K, V>(t: seq<seq<Handle>>, store: map<Handle, Entry<K, V>>, hasher: K -> nat, size: nat, size': nat)
    requires RoutedLive(t, store, hasher, size) && store == map[] && 0 < size' <= |t|
    ensures forall b :: 0 <= b < |t| ==> t[b] == []
    ensures Indexes(t, store, hasher, size')
  {
    forall b | 0 <= b < |t| ensures t[b] == [] {
      assert t[b] != [] ==> t[b][0] in t[b];
      assert forall h :: h in t[b] ==> h in store;
    }
  }

  /**
   A table being rebuilt from the first i nodes of `order`: no chain repeats a
   handle, every handle in a chain is one of those nodes and routes there, and
   each of those nodes is in its chain.
   */
  ghost predicate Rebuilt<K, V>(t: seq<seq<Handle>>, order: seq<Handle>, store: map<Handle, Entry<K, V>>, hasher: K -> nat, i: nat)
    requires i <= |order| && forall j :: 0 <= j < |order| ==> order[j] in store
  {
    && 0 < |t|
    && (forall b :: 0 <= b < |t| ==> NoDup(t[b]))
    && (forall b, h :: 0 <= b < |t| && h in t[b] ==> h in order[..i] && Route(hasher, store[h].key, |t|) == b)
    && (forall j :: 0 <= j < i ==> order[j] in t[Route(hasher, store[order[j]].key, |t|)])
  }

  /** Pushing node i of `order` onto its chain extends the rebuilt prefix by one. */
  lemma RebuiltStep<K, V>(t: seq<seq<Handle>>, order: seq<Handle>, store: map<Handle, Entry<K, V>>, hasher: K -> nat, i: nat)
    requires i < |order| && order[i] !in order[..i] && forall j :: 0 <= j < |order| ==> order[j] in store
    requires Rebuilt(t, order, store, hasher, i)
    ensures var b := Route(hasher, store[order[i]].key, |t|);
            Rebuilt(t[b := t[b] + [order[i]]], order, store, hasher, i + 1)
  {
    var h := order[i];
    var b := Route(hasher, store[h].key, |t|);
    var t' := t[b := t[b] + [h]];
    NoDupAppend(t[b], h);
    assert order[..i + 1] == order[..i] + [h];
    forall c, g | 0 <= c < |t'| && g in t'[c]
      ensures g in order[..i + 1] && Route(hasher, store[g].key, |t'|) == c
    {
      if c == b && g !in t[b] {
        assert g == h;
      }
    }
  }

  /** Once every node of `order` has been pushed, the table indexes exactly the live nodes. */
  lemma RebuiltAll<K, V>(t: seq<seq<Handle>>, order: seq<Handle>, store: map<Handle, Entry<K, V>>, hasher: K -> nat)
    requires forall j :: 0 <= j < |order| ==> order[j] in store
    requires forall h :: h in store ==> h in order
    requires Rebuilt(t, order, store, hasher, |order|)
    ensures Indexes(t, store, hasher, |t|)
  {
    assert order[..|order|] == order;
  }

  /** Changing the value a live node holds, but not its key, keeps the bucket invariant. */
  lemma Relabeled<K, V>(t: seq<seq<Handle>>, store: map<Handle, Entry<K, V>>, hasher: K -> nat, size: nat, h: Handle, v: V)
    requires Indexes(t, store, hasher, size) && h in store
    ensures Indexes(t, store[h := Entry(store[h].key, v)], hasher, size)
  {
  }
}
