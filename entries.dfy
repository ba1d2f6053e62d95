/**
 The map semantics of the element list: a sequence of (key, value) entries in
 insertion order, and what looking up, inserting, erasing and overwriting do to
 it. The hash map's element list is proved to always equal one of these values.
 */
module Entries {
  import opened Wrappers

  /** One element of the list: a key that never changes and its value. */
  datatype Entry<K, V> = Entry(key: K, value: V)

  /** Some entry of `s` has key `k`. */
  ghost predicate HasKey<K, V>(s: seq<Entry<K, V>>, k: K) {
    exists i :: 0 <= i < |s| && s[i].key == k
  }

  /** No two entries of `s` share a key. */
  ghost predicate DistinctKeys<K, V>(s: seq<Entry<K, V>>) {
    forall i, j :: 0 <= i < j < |s| ==> s[i].key != s[j].key
  }

  /**
   The same property stated from the front: the first key does not recur
   and the rest has distinct keys. This is the form the map keeps as its
   invariant; `UniqueKeysDistinct` proves the two forms agree.
   */
  ghost predicate UniqueKeys<K, V>(s: seq<Entry<K, V>>) {
    s == [] || (!HasKey(s[1..], s[0].key) && UniqueKeys(s[1..]))
  }

  /** The value of the first entry with key `k`, if there is one. */
  function Get<K(==), V>(s: seq<Entry<K, V>>, k: K): (r: Option<V>)
    ensures r.None? <==> !HasKey(s, k)
    ensures r.Some? ==> exists i :: 0 <= i < |s| && s[i] == Entry(k, r.value)
                                    && forall j :: 0 <= j < i ==> s[j].key != k
  {
    if s == [] then None
    else if s[0].key == k then Some(s[0].value)
    else
      var r := Get(s[1..], k);
      assert forall i :: 0 <= i < |s[1..]| ==> s[1..][i] == s[i + 1];
      r
  }

  /** Inserting `k` keeps the entry already stored under `k`; otherwise it appends. */
  function Inserted<K(==), V>(s: seq<Entry<K, V>>, k: K, v: V): (r: seq<Entry<K, V>>)
    ensures s <= r
    ensures |r| == if HasKey(s, k) then |s| else |s| + 1
  {
    if Get(s, k).Some? then s else s + [Entry(k, v)]
  }

  /** Drops the entries with key `k`, keeping the others in order. */
  function Erased<K(==), V>(s: seq<Entry<K, V>>, k: K): (r: seq<Entry<K, V>>)
    ensures |r| <= |s|
    ensures !HasKey(r, k)
  {
    if s == [] then []
    else if s[0].key == k then Erased(s[1..], k)
    else [s[0]] + Erased(s[1..], k)
  }

  /** Replaces the value of every entry with key `k` by `v`. */
  function Updated<K(==), V>(s: seq<Entry<K, V>>, k: K, v: V): (r: seq<Entry<K, V>>)
    ensures |r| == |s|
  {
    if s == [] then []
    else [if s[0].key == k then Entry(k, v) else s[0]] + Updated(s[1..], k, v)
  }

  /** The entries after inserting every pair of `ps`, in order, into an empty map. */
  function FromEntries<K(==), V>(ps: seq<Entry<K, V>>): (r: seq<Entry<K, V>>)
    ensures |r| <= |ps|
  {
    if ps == [] then []
    else
      var last := ps[|ps| - 1];
      Inserted(FromEntries(ps[..|ps| - 1]), last.key, last.value)
  }

  lemma {:induction false} UniqueKeysDistinct<K, V>(s: seq<Entry<K, V>>)
    ensures UniqueKeys(s) <==> DistinctKeys(s)
  {
    if s != [] {
      var r := s[1..];
      UniqueKeysDistinct(r);
      assert forall i :: 0 <= i < |r| ==> r[i] == s[i + 1];
      if UniqueKeys(s) {
        forall i, j | 0 <= i < j < |s| ensures s[i].key != s[j].key {
          assert s[j] == r[j - 1];
          if i > 0 {
            assert s[i] == r[i - 1];
          }
        }
      }
      if DistinctKeys(s) {
        assert !HasKey(r, s[0].key);
        assert DistinctKeys(r);
      }
    }
  }

  /** In a list with distinct keys, the entry at position p is the one found under its key. */
  lemma GetDistinct<K, V>(s: seq<Entry<K, V>>, p: nat)
    requires DistinctKeys(s) && p < |s|
    ensures Get(s, s[p].key) == Some(s[p].value)
  {
    var r := Get(s, s[p].key);
    var i :| 0 <= i < |s| && s[i] == Entry(s[p].key, r.value) && forall j :: 0 <= j < i ==> s[j].key != s[p].key;
    assert i == p;
  }

  /** Looking up in a list with one more entry at its end. */
  lemma {:induction false} GetAppend<K, V>(s: seq<Entry<K, V>>, e: Entry<K, V>, k: K)
    ensures Get(s + [e], k) == if Get(s, k).Some? then Get(s, k)
                               else if e.key == k then Some(e.value) else None
  {
    if s != [] {
      assert (s + [e])[1..] == s[1..] + [e];
      GetAppend(s[1..], e, k);
    }
  }

  /** Insert round trip: an absent key then maps to the inserted value; everything else is as before. */
  lemma InsertedGet<K, V>(s: seq<Entry<K, V>>, k: K, v: V, k': K)
    ensures Get(Inserted(s, k, v), k') == if k' == k && Get(s, k).None? then Some(v) else Get(s, k')
  {
    if Get(s, k).None? {
      GetAppend(s, Entry(k, v), k');
    }
  }

  /** Inserting keeps keys distinct: the first write of a key wins. */
  lemma InsertedDistinct<K, V>(s: seq<Entry<K, V>>, k: K, v: V)
    requires DistinctKeys(s)
    ensures DistinctKeys(Inserted(s, k, v))
    ensures |Inserted(s, k, v)| == if Get(s, k).Some? then |s| else |s| + 1
  {
    if Get(s, k).None? {
      var r := s + [Entry(k, v)];
      forall i, j | 0 <= i < j < |r| ensures r[i].key != r[j].key {
        if j == |s| {
          assert r[i] == s[i];
        }
      }
    }
  }

  /** Erase round trip: `k` is gone and every other key maps to what it did before. */
  lemma {:induction false} ErasedGet<K, V>(s: seq<Entry<K, V>>, k: K, k': K)
    ensures Get(Erased(s, k), k') == if k' == k then None else Get(s, k')
  {
    if s != [] && k' != k {
      ErasedGet(s[1..], k, k');
      if s[0].key != k {
        assert ([s[0]] + Erased(s[1..], k))[1..] == Erased(s[1..], k);
      }
    }
  }

  /** Erasing an absent key changes nothing. */
  lemma {:induction false} ErasedAbsent<K, V>(s: seq<Entry<K, V>>, k: K)
    requires !HasKey(s, k)
    ensures Erased(s, k) == s
  {
    if s != [] {
      assert !HasKey(s[1..], k) by {
        forall i | 0 <= i < |s[1..]| ensures s[1..][i].key != k {
          assert s[1..][i] == s[i + 1];
        }
      }
      ErasedAbsent(s[1..], k);
      assert s == [s[0]] + s[1..];
    }
  }

  /** Erasing a key stored at position p removes exactly that entry and keeps the others in order. */
  lemma {:induction false} ErasedAt<K, V>(s: seq<Entry<K, V>>, p: nat)
    requires DistinctKeys(s) && p < |s|
    ensures Erased(s, s[p].key) == s[..p] + s[p + 1..]
  {
    var k := s[p].key;
    if p == 0 {
      assert !HasKey(s[1..], k) by {
        forall i | 0 <= i < |s[1..]| ensures s[1..][i].key != k {
          assert s[1..][i] == s[i + 1];
        }
      }
      ErasedAbsent(s[1..], k);
    } else {
      assert DistinctKeys(s[1..]) by {
        forall i, j | 0 <= i < j < |s[1..]| ensures s[1..][i].key != s[1..][j].key {
          assert s[1..][i] == s[i + 1] && s[1..][j] == s[j + 1];
        }
      }
      assert s[1..][p - 1] == s[p];
      ErasedAt(s[1..], p - 1);
      assert s[0].key != k;
      assert s[..p] + s[p + 1..] == [s[0]] + (s[1..][..p - 1] + s[1..][p..]);
    }
  }

  /** Erasing is idempotent: a second erase of the same key changes nothing. */
  lemma {:induction false} ErasedTwice<K, V>(s: seq<Entry<K, V>>, k: K)
    ensures Erased(Erased(s, k), k) == Erased(s, k)
  {
    ErasedAbsent(Erased(s, k), k);
  }

  /** With distinct keys, erasing a present key removes exactly one entry; an absent one, none. */
  lemma ErasedLength<K, V>(s: seq<Entry<K, V>>, k: K)
    requires DistinctKeys(s)
    ensures |Erased(s, k)| == if HasKey(s, k) then |s| - 1 else |s|
  {
    if HasKey(s, k) {
      var p :| 0 <= p < |s| && s[p].key == k;
      ErasedAt(s, p);
    } else {
      ErasedAbsent(s, k);
    }
  }

  /** Overwrite round trip: a present key then maps to `v`; everything else is as before. */
  lemma {:induction false} UpdatedGet<K, V>(s: seq<Entry<K, V>>, k: K, v: V, k': K)
    ensures Get(Updated(s, k, v), k') == if k' == k && Get(s, k).Some? then Some(v) else Get(s, k')
  {
    if s != [] {
      UpdatedGet(s[1..], k, v, k');
      assert Updated(s, k, v)[1..] == Updated(s[1..], k, v);
    }
  }

  /** Overwriting touches only the entries with key `k`, in place. */
  lemma {:induction false} UpdatedAt<K, V>(s: seq<Entry<K, V>>, k: K, v: V, i: nat)
    requires i < |s|
    ensures Updated(s, k, v)[i] == if s[i].key == k then Entry(k, v) else s[i]
  {
    if i > 0 {
      UpdatedAt(s[1..], k, v, i - 1);
      assert Updated(s, k, v)[i] == Updated(s[1..], k, v)[i - 1];
    }
  }

  /** Building from one more pair inserts that pair into what the earlier pairs built. */
  lemma FromEntriesStep<K, V>(ps: seq<Entry<K, V>>, i: nat)
    requires i < |ps|
    ensures FromEntries(ps[..i + 1]) == Inserted(FromEntries(ps[..i]), ps[i].key, ps[i].value)
  {
    assert ps[..i + 1][..i] == ps[..i];
  }

  /** Building a map from pairs: the first occurrence of each key wins. */
  lemma {:induction false} FromEntriesGet<K, V>(ps: seq<Entry<K, V>>, k: K)
    ensures Get(FromEntries(ps), k) == Get(ps, k)
  {
    if ps != [] {
      var init, last := ps[..|ps| - 1], ps[|ps| - 1];
      FromEntriesGet(init, k);
      InsertedGet(FromEntries(init), last.key, last.value, k);
      assert ps == init + [last];
      GetAppend(init, last, k);
    }
  }

  /** Every entry of a map built from pairs is one of the pairs. */
  lemma {:induction false} FromEntriesFromPairs<K, V>(ps: seq<Entry<K, V>>)
    ensures forall e :: e in FromEntries(ps) ==> e in ps
  {
    if ps != [] {
      var init, last := ps[..|ps| - 1], ps[|ps| - 1];
      FromEntriesFromPairs(init);
      assert ps == init + [last];
    }
  }

  /** Building a map from pairs never produces two entries with the same key. */
  lemma {:induction false} FromEntriesDistinct<K, V>(ps: seq<Entry<K, V>>)
    ensures DistinctKeys(FromEntries(ps))
  {
    if ps != [] {
      var init, last := ps[..|ps| - 1], ps[|ps| - 1];
      FromEntriesDistinct(init);
      InsertedDistinct(FromEntries(init), last.key, last.value);
    }
  }

  /** Later pairs never reorder or change the entries built from earlier ones. */
  lemma {:induction false} FromEntriesPrefix<K, V>(ps: seq<Entry<K, V>>, n: nat)
    requires n <= |ps|
    ensures FromEntries(ps[..n]) <= FromEntries(ps)
  {
    if n < |ps| {
      var init := ps[..|ps| - 1];
      assert ps[..n] == init[..n];
      FromEntriesPrefix(init, n);
    } else {
      assert ps[..n] == ps;
    }
  }

  /** Pairs with distinct keys are all kept, in their order: this is what copying a map relies on. */
  lemma {:induction false} FromEntriesOfDistinct<K, V>(ps: seq<Entry<K, V>>)
    requires DistinctKeys(ps)
    ensures FromEntries(ps) == ps
  {
    if ps != [] {
      var init, last := ps[..|ps| - 1], ps[|ps| - 1];
      assert DistinctKeys(init) by {
        forall i, j | 0 <= i < j < |init| ensures init[i].key != init[j].key {
          assert init[i] == ps[i] && init[j] == ps[j];
        }
      }
      FromEntriesOfDistinct(init);
      assert !HasKey(init, last.key) by {
        forall i | 0 <= i < |init| ensures init[i].key != last.key {
          assert init[i] == ps[i];
        }
      }
      assert ps == init + [last];
    }
  }

  /** Dropping one position keeps keys distinct. */
  lemma RemovedDistinct<K, V>(s: seq<Entry<K, V>>, p: nat)
    requires DistinctKeys(s) && p < |s|
    ensures DistinctKeys(s[..p] + s[p + 1..])
  {
    var r := s[..p] + s[p + 1..];
    forall x, y | 0 <= x < y < |r| ensures r[x].key != r[y].key {
      var x', y' := if x < p then x else x + 1, if y < p then y else y + 1;
      assert r[x] == s[x'] && r[y] == s[y'];
    }
  }

  /** Overwriting a value never changes which keys are stored, so keys stay distinct. */
  lemma UpdatedDistinct<K, V>(s: seq<Entry<K, V>>, k: K, v: V)
    requires DistinctKeys(s)
    ensures DistinctKeys(Updated(s, k, v))
  {
    var r := Updated(s, k, v);
    forall i | 0 <= i < |s| ensures r[i].key == s[i].key {
      UpdatedAt(s, k, v, i);
    }
  }
}
