/**
 * When a dictionary grows or shrinks (dict.h, the load-factor notes
 * before the API).  The load factor is `used / size` of the main table.
 */
module DictPolicy {
  import opened DictBits

  /** dict_force_resize_ratio */
  const FORCE_RESIZE_RATIO: nat := 5

  /** HASHTABLE_MIN_FILL: the percentage below which a table shrinks. */
  const MIN_FILL: nat := 10

  /** The test of `_dictExpandIfNeeded` for a table that has buckets:
      full, and either resizing is allowed or the integer load factor has
      gone past the forced ratio. */
  predicate ExpandNeeded(used: nat, size: nat, canResize: bool)
    requires size > 0
  {
    used >= size && (canResize || used / size > FORCE_RESIZE_RATIO)
  }

  /** The two expansion rules in terms of the load factor: with resizing
      allowed a table expands exactly when it holds at least one entry
      per bucket; with resizing held back exactly when it holds six or
      more entries per bucket, that is when the integer quotient
      `used / size` exceeds 5. */
  lemma ExpandRule(used: nat, size: nat, canResize: bool)
    requires size > 0
    ensures canResize ==> (ExpandNeeded(used, size, canResize) <==> used >= size)
    ensures !canResize ==> (ExpandNeeded(used, size, canResize) <==> used >= (FORCE_RESIZE_RATIO + 1) * size)
  {
    var q := used / size;
    assert used == q * size + used % size;
    if q > FORCE_RESIZE_RATIO {
      assert q * size >= (FORCE_RESIZE_RATIO + 1) * size by {
        MulMono(q, FORCE_RESIZE_RATIO + 1, size);
      }
    } else {
      assert q * size <= FORCE_RESIZE_RATIO * size by {
        MulMono(FORCE_RESIZE_RATIO, q, size);
      }
    }
  }

  lemma MulMono(a: nat, b: nat, c: nat)
    requires a >= b
    ensures a * c >= b * c
  {
    assert a * c == b * c + (a - b) * c;
  }

  /** htNeedsResize: a table bigger than the initial size whose fill,
      in whole percent, is under the minimum. */
  predicate ShrinkNeeded(used: nat, size: nat)
  {
    size > DICT_HT_INITIAL_SIZE && used * 100 / size < MIN_FILL
  }

  /** A table shrinks exactly when it is bigger than the initial size and
      its load factor is under 0.1. */
  lemma ShrinkRule(used: nat, size: nat)
    ensures ShrinkNeeded(used, size) <==> size > DICT_HT_INITIAL_SIZE && 10 * used < size
  {
    if size > DICT_HT_INITIAL_SIZE {
      var q := used * 100 / size;
      assert used * 100 == q * size + (used * 100) % size;
      if q < MIN_FILL {
        assert q * size <= (MIN_FILL - 1) * size by {
          MulMono(MIN_FILL - 1, q, size);
        }
      } else {
        assert q * size >= MIN_FILL * size by {
          MulMono(q, MIN_FILL, size);
        }
      }
    }
  }

  /** INT_MAX for the 32-bit `int` of the platforms redis runs on. */
  const INT_MAX: nat := 0x7FFF_FFFF

  /** An `unsigned long` stored in a 32-bit `int`: its low 32 bits read in
      two's complement, as the compilers redis is built with convert. */
  function ToInt(x: nat): (r: int)
    ensures -(INT_MAX + 1) <= r <= INT_MAX
    ensures x <= INT_MAX ==> r == x
  {
    var w := x % 0x1_0000_0000;
    if w > INT_MAX then w - 0x1_0000_0000 else w
  }

  /** The size dictResize asks for: the entry count held in its
      `int minimal`, raised to the initial size when below it.  Up to
      INT_MAX entries that is the entry count, but never below the
      initial size; from 2 to the 31st entries on the conversion loses
      the count and the size asked for is below it. */
  function ResizeTarget(used: nat): (r: nat)
    ensures DICT_HT_INITIAL_SIZE <= r <= INT_MAX
    ensures used <= INT_MAX ==> r >= used && (r == used || r == DICT_HT_INITIAL_SIZE)
    ensures used > INT_MAX ==> r < used
  {
    var minimal := ToInt(used);
    if minimal < DICT_HT_INITIAL_SIZE then DICT_HT_INITIAL_SIZE else minimal
  }

  /** The size `_dictExpandIfNeeded` asks for: twice the entry count in
      the 64-bit arithmetic of `unsigned long`. */
  function GrowTarget(used: nat): (r: uint64)
    ensures used < UINT64_LIMIT / 2 ==> r == 2 * used
  {
    (used * 2) % UINT64_LIMIT
  }

  /** dictExpand refuses a size smaller than the entry count or one that
      rounds to the current size.  A full table's doubled size is refused
      only once the doubling wraps around, that is from 2 to the 63rd
      entries on. */
  lemma GrowRefusedOnlyOnWrap(used: nat, size: nat)
    requires size > 0 && used >= size
    requires used > GrowTarget(used) || NextPow(GrowTarget(used)) == size
    ensures used >= LONG_MAX + 1
  {
    if used < LONG_MAX + 1 {
      NextPowIsNextPower(GrowTarget(used));
      assert false;
    }
  }

  /** Expanding a table that needs it, while the doubling does not wrap,
      makes it bigger. */
  lemma GrowMakesBigger(used: nat, size: nat, canResize: bool)
    requires size > 0 && ExpandNeeded(used, size, canResize) && used <= GrowTarget(used)
    ensures NextPow(GrowTarget(used)) > size
  {
    GrowWrapsBelow(used);
    NextPowIsNextPower(GrowTarget(used));
  }

  /** From 2 to the 63rd entries on, the doubled count wraps below the
      count itself. */
  lemma GrowWrapsBelow(used: nat)
    ensures used >= LONG_MAX + 1 ==> GrowTarget(used) < used
  {
    if LONG_MAX + 1 <= used < UINT64_LIMIT {
      DivModUnique(used * 2, UINT64_LIMIT, 1, used * 2 - UINT64_LIMIT);
    }
  }

  /** Resizing a table that needs shrinking makes it smaller. */
  lemma ShrinkMakesSmaller(used: nat, size: nat)
    requires ShrinkNeeded(used, size)
    ensures NextPow(ResizeTarget(used)) < size
  {
    ShrinkRule(used, size);
    NextPowIsNextPower(ResizeTarget(used));
  }
}
