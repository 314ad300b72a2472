/**
 * The arithmetic the hash table relies on (dict.h): bucket selection by
 * masking a hash with `sizemask`, table sizes that are powers of two, and
 * the size rounding done when a table is created or resized.
 */
module DictBits {

  /** The range of `uint64_t` and `unsigned long`. */
  const UINT64_LIMIT: nat := 0x1_0000_0000_0000_0000
  type uint64 = x: nat | x < UINT64_LIMIT

  const LONG_MAX: nat := 0x7FFF_FFFF_FFFF_FFFF

  /** DICT_HT_INITIAL_SIZE */
  const DICT_HT_INITIAL_SIZE: nat := 4

  /** `a & b`, bit by bit from the lowest. */
  function BitAnd(a: nat, b: nat): (r: nat)
    ensures r <= a && r <= b
  {
    if a == 0 || b == 0 then 0
    else 2 * BitAnd(a / 2, b / 2) + (if a % 2 == 1 && b % 2 == 1 then 1 else 0)
  }

  predicate IsPow2(n: nat)
  {
    if n <= 1 then n == 1 else n % 2 == 0 && IsPow2(n / 2)
  }

  /** Taking the lowest bit off and halving the rest of `h` splits
      `h % size` for an even `size`. */
  lemma ModOfHalf(h: nat, size: nat)
    requires size > 0 && size % 2 == 0
    ensures 2 * ((h / 2) % (size / 2)) + h % 2 == h % size
  {
    var m := size / 2;
    var q, r := (h / 2) / m, (h / 2) % m;
    assert h / 2 == q * m + r;
    assert h == (2 * m) * q + (2 * r + h % 2);
    DivModUnique(h, 2 * m, q, 2 * r + h % 2);
  }

  lemma DivModUnique(a: nat, d: nat, q: nat, r: nat)
    requires d > 0 && r < d && a == d * q + r
    ensures a % d == r
  {
    var q', r' := a / d, a % d;
    assert a == d * q' + r';
    if q' < q {
      Distrib(d, q, q');
      MulAtLeast(d, q - q');
      assert false;
    } else if q' > q {
      Distrib(d, q', q);
      MulAtLeast(d, q' - q);
      assert false;
    }
  }

  lemma MulAtLeast(d: nat, k: nat)
    requires k >= 1
    ensures d * k >= d
  {
    assert d * k == d * (k - 1) + d;
  }

  lemma Distrib(d: nat, x: nat, y: nat)
    requires x >= y
    ensures d * x - d * y == d * (x - y)
  {
  }

  /** Masking with `size - 1` selects the same bucket as `% size` when
      `size` is a power of two. */
  lemma {:induction false} MaskIsMod(h: nat, size: nat)
    requires IsPow2(size)
    ensures BitAnd(h, size - 1) == h % size
    decreases h, 1
  {
    if size == 1 {
      assert BitAnd(h, 0) == 0 && h % 1 == 0;
    } else if h == 0 {
      assert BitAnd(0, size - 1) == 0 && 0 % size == 0;
    } else {
      MaskIsModStep(h, size);
    }
  }

  lemma {:induction false} MaskIsModStep(h: nat, size: nat)
    requires IsPow2(size) && size > 1 && h > 0
    ensures BitAnd(h, size - 1) == h % size
    decreases h, 0
  {
    MaskStep(h, size);
    MaskIsMod(h / 2, size / 2);
    ModOfHalf(h, size);
  }

  /** Masking `h` with `size - 1` for an even `size` masks the rest of `h`
      with `size / 2 - 1` and keeps its lowest bit. */
  lemma MaskStep(h: nat, size: nat)
    requires size > 1 && size % 2 == 0 && h > 0
    ensures BitAnd(h, size - 1) == 2 * BitAnd(h / 2, size / 2 - 1) + h % 2
  {
    assert (size - 1) / 2 == size / 2 - 1 && (size - 1) % 2 == 1;
  }

  /** The power of two `_dictNextPower` settles on: the first of `i`,
      `2 * i`, `4 * i`, ... that is at least `size`. */
  function Grow(i: nat, size: nat): (r: nat)
    requires i > 0
    decreases size - i
  {
    if i >= size then i else Grow(2 * i, size)
  }

  /** The table size `_dictNextPower(size)` returns. */
  function NextPow(size: nat): nat
  {
    if size >= LONG_MAX then LONG_MAX + 1 else Grow(DICT_HT_INITIAL_SIZE, size)
  }

  lemma {:induction false} GrowIsPow2(i: nat, size: nat)
    requires i > 0 && IsPow2(i)
    ensures IsPow2(Grow(i, size)) && Grow(i, size) >= size && Grow(i, size) >= i
    ensures Grow(i, size) == i || Grow(i, size) / 2 < size
    decreases size - i
  {
    if i < size {
      assert (2 * i) / 2 == i;
      GrowIsPow2(2 * i, size);
    }
  }

  lemma {:induction false} ProductIsPow2(a: nat, b: nat)
    requires IsPow2(a) && IsPow2(b)
    ensures IsPow2(a * b)
    decreases b
  {
    if b > 1 {
      ProductIsPow2(a, b / 2);
      var c := a * (b / 2);
      assert a * b == c + c by {
        HalfProduct(a, b);
      }
      assert (c + c) / 2 == c;
    }
  }

  lemma HalfProduct(a: nat, b: nat)
    requires b % 2 == 0
    ensures a * b == a * (b / 2) + a * (b / 2)
  {
  }

  /** LONG_MAX + 1 is 2 to the 63rd. */
  lemma LongMaxPlusOneIsPow2()
    ensures IsPow2(LONG_MAX + 1)
  {
    assert IsPow2(2) && IsPow2(4);
    ProductIsPow2(4, 4);
    ProductIsPow2(16, 16);
    ProductIsPow2(256, 256);
    ProductIsPow2(0x1_0000, 0x1_0000);
    ProductIsPow2(0x1_0000_0000, 0x1_0000);
    ProductIsPow2(0x1_0000_0000_0000, 256);
    ProductIsPow2(0x100_0000_0000_0000, 16);
    ProductIsPow2(0x1000_0000_0000_0000, 4);
    ProductIsPow2(0x4000_0000_0000_0000, 2);
  }

  /** `_dictNextPower(size)` is a power of two, at least the initial size,
      at least `size` and the smallest such power unless `size` reaches
      LONG_MAX, where it is LONG_MAX + 1. */
  lemma NextPowIsNextPower(size: nat)
    ensures IsPow2(NextPow(size)) && NextPow(size) >= DICT_HT_INITIAL_SIZE
    ensures size < LONG_MAX ==> NextPow(size) >= size
    ensures size < LONG_MAX ==> NextPow(size) == DICT_HT_INITIAL_SIZE || NextPow(size) / 2 < size
    ensures size >= LONG_MAX ==> NextPow(size) == LONG_MAX + 1
  {
    if size >= LONG_MAX {
      LongMaxPlusOneIsPow2();
    } else {
      assert IsPow2(2) && IsPow2(DICT_HT_INITIAL_SIZE);
      GrowIsPow2(DICT_HT_INITIAL_SIZE, size);
    }
  }

  /** _dictNextPower: doubles from the initial size until `size` is
      reached. */
  method NextPower(size: nat) returns (r: nat)
    ensures r == NextPow(size)
  {
    var i := DICT_HT_INITIAL_SIZE;
    if size >= LONG_MAX {
      return LONG_MAX + 1;
    }
    while true
      invariant i > 0 && Grow(i, size) == NextPow(size)
      decreases size - i
    {
      if i >= size {
        return i;
      }
      i := i * 2;
    }
  }
}
