/**
 The resize policy: the logical table size starts at 1 and is multiplied by
 the expansion coefficient when, right after an insertion, the number of
 elements has reached it (load factor 1). Sizes are unbounded here.
 */
module Sizing {

  /** EXPANSION_COEFFICIENT: the factor the table size grows by. */
  const ExpansionCoefficient: nat := 2

  predicate IsPowerOfTwo(n: nat)
    decreases n
  {
    if n <= 1 then n == 1 else n % 2 == 0 && IsPowerOfTwo(n / 2)
  }

  /** The table size after the expansion check, given the size and element count before it. */
  function Expanded(size: nat, count: nat): (r: nat)
    ensures size <= r <= 2 * size
  {
    if count == size then size * ExpansionCoefficient else size
  }

  /** The table size after `n` insertions of distinct keys into a fresh (or cleared) map. */
  function SizeAfterInserts(n: nat): (r: nat)
    ensures n < r
  {
    if n == 0 then 1 else Expanded(SizeAfterInserts(n - 1), n)
  }

  /** The expansion check restores load factor below 1 and keeps the size a power of two. */
  lemma ExpandedKeepsLoad(size: nat, count: nat)
    requires IsPowerOfTwo(size) && count <= size
    ensures IsPowerOfTwo(Expanded(size, count))
    ensures count < Expanded(size, count)
    ensures size <= Expanded(size, count)
  {
    if count == size {
      assert IsPowerOfTwo(size * 2) by {
        assert (size * 2) / 2 == size;
      }
    }
  }

  /** Two different powers of two are at least a factor two apart. */
  lemma {:induction false} PowersOfTwoSpaced(p: nat, q: nat)
    requires IsPowerOfTwo(p) && IsPowerOfTwo(q) && p < q
    ensures 2 * p <= q
  {
    if p > 1 {
      PowersOfTwoSpaced(p / 2, q / 2);
    }
  }

  /** After n distinct insertions into a fresh map the table size is the smallest power of two above n. */
  lemma {:induction false} SizeAfterInsertsIsLeast(n: nat)
    ensures IsPowerOfTwo(SizeAfterInserts(n)) && n < SizeAfterInserts(n)
    ensures forall p :: IsPowerOfTwo(p) && n < p ==> SizeAfterInserts(n) <= p
  {
    if n > 0 {
      var r := SizeAfterInserts(n - 1);
      SizeAfterInsertsIsLeast(n - 1);
      ExpandedKeepsLoad(r, n);
      if n == r {
        forall p | IsPowerOfTwo(p) && n < p ensures 2 * r <= p {
          PowersOfTwoSpaced(r, p);
        }
      }
    }
  }

  /** Between 64 and 127 distinct insertions (100, say) leave the table at 128 buckets. */
  lemma SizeAfterInsertsBelow128(n: nat)
    requires 64 <= n < 128
    ensures SizeAfterInserts(n) == 128
  {
    var r := SizeAfterInserts(n);
    SizeAfterInsertsIsLeast(n);
    assert IsPowerOfTwo(64) && IsPowerOfTwo(128);
    PowersOfTwoSpaced(64, r);
  }
}
