/**
 * The operations of dict.h on the state of a dictionary: the two table
 * generations `a` (`ht[0]`) and `b` (`ht[1]`), the rehash cursor `idx`
 * (`rehashidx`, -1 when no rehash is in progress) and, where an operation
 * looks at it, the count of safe iterators.  Each method takes the state
 * and returns the new one; the class Dict applies them to its fields.
 */
module DictOps {
  import opened Wrappers
  import opened DictBits
  import opened DictPolicy
  import opened DictTable
  import opened DictState

  const DICT_OK: int := 0
  const DICT_ERR: int := 1

  /** dictAddRaw's answer: the new entry, the entry already holding a
      matching key, or neither when the table could not grow. */
  datatype AddOutcome = Added(at: Loc) | Existing(at: Loc) | Refused

  /** dictSize: the entries of both generations. */
  lemma SizeIsCount<K(!new), V>(t: DictType<K, V>, a: DictHt<K, V>, b: DictHt<K, V>, idx: int)
    requires TablesValid(t, a, b, idx)
    ensures a.used + b.used == |Held(a, b)|
  {
    HeldIsFlatten(a, b);
    assert |multiset(Flatten(a.table))| == |Flatten(a.table)|;
    assert |multiset(Flatten(b.table))| == |Flatten(b.table)|;
  }

  /** dictExpand: refused while rehashing, for a size below the entry
      count, or for one that rounds to the current size; otherwise a
      table of `_dictNextPower(size)` empty buckets becomes `ht[0]` when
      there is none yet, and the rehash target `ht[1]` otherwise. */
  method Expand<K(!new), V>(t: DictType<K, V>, a: DictHt<K, V>, b: DictHt<K, V>, idx: int, size: nat)
      returns (r: int, a': DictHt<K, V>, b': DictHt<K, V>, idx': int)
    requires TablesValid(t, a, b, idx)
    ensures TablesValid(t, a', b', idx') && Held(a', b') == Held(a, b)
    ensures r == DICT_OK || r == DICT_ERR
    ensures r == DICT_ERR <==> idx != -1 || a.used > size || NextPow(size) == a.size
    ensures r == DICT_ERR ==> a' == a && b' == b && idx' == idx
    ensures r == DICT_OK && a.size == 0 ==> a' == NewHt(NextPow(size)) && b' == b && idx' == -1
    ensures r == DICT_OK && a.size != 0 ==> a' == a && b' == NewHt(NextPow(size)) && idx' == 0
  {
    a', b', idx' := a, b, idx;
    var realsize := NextPower(size);
    if idx != -1 || a.used > size {
      return DICT_ERR, a', b', idx';
    }
    if realsize == a.size {
      return DICT_ERR, a', b', idx';
    }
    NextPowIsNextPower(size);
    var n := NewHt(realsize);
    NewHtValid<K, V>(realsize, t.hashFunction);
    HeldIsFlatten(a, b);
    HeldIsFlatten(n, b);
    HeldIsFlatten(a, n);
    if a.size == 0 {
      return DICT_OK, n, b, idx;
    }
    return DICT_OK, a, n, 0;
  }

  /** _dictRehashStep: one bucket of rehash while rehashing, unless a
      safe iterator is running. */
  method RehashStep<K(!new), V>(t: DictType<K, V>, a: DictHt<K, V>, b: DictHt<K, V>, idx: int, iterators: nat)
      returns (a': DictHt<K, V>, b': DictHt<K, V>, idx': int)
    requires TablesValid(t, a, b, idx)
    ensures TablesValid(t, a', b', idx') && Held(a', b') == Held(a, b)
    ensures iterators > 0 || idx == -1 ==> a' == a && b' == b && idx' == idx
    ensures iterators == 0 && idx != -1 && idx' != -1 ==> idx' > idx
  {
    a', b', idx' := a, b, idx;
    if iterators == 0 && idx != -1 {
      var r;
      ghost var emptied: nat, moved: nat;
      r, a', b', idx', emptied, moved := RehashTables(t, a, b, idx, 1);
    }
  }

  /** _dictExpandIfNeeded: nothing while rehashing; the initial size for
      a table without buckets; twice the entry count when the expansion
      rule holds.  Refused only when that doubling wraps around. */
  method ExpandIfNeeded<K(!new), V>(t: DictType<K, V>, a: DictHt<K, V>, b: DictHt<K, V>, idx: int, canResize: bool)
      returns (r: int, a': DictHt<K, V>, b': DictHt<K, V>, idx': int)
    requires TablesValid(t, a, b, idx)
    ensures TablesValid(t, a', b', idx') && Held(a', b') == Held(a, b)
    ensures r == DICT_OK || r == DICT_ERR
    ensures r == DICT_OK ==> a'.size > 0
    ensures r == DICT_ERR ==> idx == -1 && a.used >= LONG_MAX + 1 && a' == a && b' == b && idx' == idx
    ensures idx != -1 ==> r == DICT_OK && a' == a && b' == b && idx' == idx
    ensures idx == -1 && a.size == 0 ==> a' == NewHt(DICT_HT_INITIAL_SIZE) && b' == b && idx' == -1
    ensures idx == -1 && a.size > 0 && !ExpandNeeded(a.used, a.size, canResize) ==> a' == a && b' == b && idx' == idx
    ensures idx == -1 && a.size > 0 && ExpandNeeded(a.used, a.size, canResize) && r == DICT_OK ==>
              a' == a && b' == NewHt(NextPow(GrowTarget(a.used))) && idx' == 0 && b'.size > a.size
  {
    if idx != -1 {
      return DICT_OK, a, b, idx;
    }
    if a.size == 0 {
      r, a', b', idx' := Expand(t, a, b, idx, DICT_HT_INITIAL_SIZE);
      return;
    }
    if a.used >= a.size && (canResize || a.used / a.size > FORCE_RESIZE_RATIO) {
      r, a', b', idx' := Expand(t, a, b, idx, GrowTarget(a.used));
      if r == DICT_ERR {
        GrowRefusedOnlyOnWrap(a.used, a.size);
      } else {
        GrowMakesBigger(a.used, a.size, canResize);
      }
      return;
    }
    return DICT_OK, a, b, idx;
  }

  /** _dictKeyIndex: after expanding the table if needed, -1 with the
      location of the entry whose key matches `key` when there is one,
      -1 alone when the table could not grow, and otherwise the bucket
      `key` selects in the generation new entries go to. */
  method KeyIndex<K(==, !new), V>(t: DictType<K, V>, a: DictHt<K, V>, b: DictHt<K, V>, idx: int, key: K, canResize: bool)
      returns (i: int, existing: Option<Loc>, a': DictHt<K, V>, b': DictHt<K, V>, idx': int)
    requires TablesValid(t, a, b, idx)
    ensures TablesValid(t, a', b', idx') && Held(a', b') == Held(a, b)
    ensures existing.Some? ==> i == -1 && ValidLoc(a', b', existing.value)
    ensures existing.Some? ==> LookupIn(t, Held(a, b), key) == Some(At(a', b', existing.value))
    ensures existing.None? && i == -1 ==> idx == -1 && a.used >= LONG_MAX + 1
    ensures i != -1 ==> existing.None? && LookupIn(t, Held(a, b), key) == None && a'.size > 0
    ensures i != -1 ==> i == KeyBucket(t, Gen(a', b', Target(idx')), key)
  {
    var r;
    r, a', b', idx' := ExpandIfNeeded(t, a, b, idx, canResize);
    if r == DICT_ERR {
      return -1, None, a', b', idx';
    }
    existing := FindLoc(t, a', b', idx', key);
    if existing.Some? {
      return -1, existing, a', b', idx';
    }
    i := KeyBucket(t, Gen(a', b', Target(idx')), key);
  }

  /** dictAddRaw: one rehash step while rehashing; then the location of
      the entry already holding a key matching `key`, or nothing when the
      table could not grow; otherwise a new entry whose key dictSetKey
      sets from `key`, linked at the head of its bucket in `ht[1]` while
      rehashing and in `ht[0]` otherwise.  The new entry holds `val`
      until the caller sets its value. */
  method AddRaw<K(==, !new), V>(t: DictType<K, V>, a: DictHt<K, V>, b: DictHt<K, V>, idx: int, iterators: nat,
                            key: K, val: V, canResize: bool)
      returns (res: AddOutcome, a': DictHt<K, V>, b': DictHt<K, V>, idx': int)
    requires TablesValid(t, a, b, idx)
    ensures TablesValid(t, a', b', idx')
    ensures res.Refused? ==> Held(a', b') == Held(a, b) && |Held(a, b)| >= LONG_MAX + 1
    ensures res.Existing? ==> Held(a', b') == Held(a, b) && ValidLoc(a', b', res.at)
    ensures res.Existing? ==> LookupIn(t, Held(a, b), key) == Some(At(a', b', res.at))
    ensures res.Added? ==> LookupIn(t, Held(a, b), key) == None && ValidLoc(a', b', res.at)
    ensures res.Added? ==> At(a', b', res.at) == SetKey(t, Entry(key, val), key)
    ensures res.Added? ==> Held(a', b') == Held(a, b) + multiset{At(a', b', res.at)}
    ensures res.Added? ==> res.at.gen == Target(idx') && res.at.pos == 0
  {
    var a1, b1, idx1 := RehashStep(t, a, b, idx, iterators);
    var i, existing;
    i, existing, a', b', idx' := KeyIndex(t, a1, b1, idx1, key, canResize);
    if existing.Some? {
      return Existing(existing.value), a', b', idx';
    }
    if i == -1 {
      SizeIsCount(t, a1, b1, idx1);
      return Refused, a', b', idx';
    }
    var e := SetKey(t, Entry(key, val), key);
    assert DupMatches(t, key);
    var l;
    a', b', l := InsertEntry(t, a', b', idx', i, key, e);
    return Added(l), a', b', idx';
  }

  /** dictAdd: a new entry for `key` holding `val`, unless an entry with a
      matching key is held or the table could not grow. */
  method Add<K(==, !new), V>(t: DictType<K, V>, a: DictHt<K, V>, b: DictHt<K, V>, idx: int, iterators: nat,
                         key: K, val: V, canResize: bool)
      returns (r: int, a': DictHt<K, V>, b': DictHt<K, V>, idx': int)
    requires TablesValid(t, a, b, idx)
    ensures TablesValid(t, a', b', idx')
    ensures r == DICT_OK || r == DICT_ERR
    ensures r == DICT_OK ==> LookupIn(t, Held(a, b), key) == None
    ensures r == DICT_OK ==> Held(a', b') == Held(a, b) + multiset{NewEntry(t, key, val)}
    ensures r == DICT_OK ==> LookupIn(t, Held(a', b'), key) == Some(NewEntry(t, key, val))
    ensures r == DICT_ERR ==> Held(a', b') == Held(a, b)
    ensures r == DICT_ERR ==> LookupIn(t, Held(a, b), key).Some? || |Held(a, b)| >= LONG_MAX + 1
  {
    SizeIsCount(t, a, b, idx);
    var res;
    res, a', b', idx' := AddRaw(t, a, b, idx, iterators, key, val, canResize);
    if !res.Added? {
      return DICT_ERR, a', b', idx';
    }
    a', b' := SetAddedVal(t, a', b', idx', res.at, key, val, Held(a, b));
    return DICT_OK, a', b', idx';
  }

  /** The entries dictReplace of `key` and `val` leaves of `m`: the
      entry whose key matches `key` given the value `val`, or the entry of
      `key` and `val` added when no key matches. */
  ghost function ReplacedIn<K, V>(t: DictType<K, V>, m: multiset<Entry<K, V>>, key: K, val: V): multiset<Entry<K, V>>
  {
    match LookupIn(t, m, key)
    case None => m + multiset{NewEntry(t, key, val)}
    case Some(prior) => m - multiset{prior} + multiset{SetVal(t, prior, val)}
  }

  /** The entry of `key` once dictReplace has run on `m`. */
  ghost function ReplacedEntry<K, V>(t: DictType<K, V>, m: multiset<Entry<K, V>>, key: K, val: V): Entry<K, V>
  {
    match LookupIn(t, m, key)
    case None => NewEntry(t, key, val)
    case Some(prior) => SetVal(t, prior, val)
  }

  /** The destructor calls dictReplace makes on `m`: the old value of the
      matching entry, released once the new one is in place. */
  ghost function ReplaceFreed<K, V>(t: DictType<K, V>, m: multiset<Entry<K, V>>, key: K): seq<Release<K, V>>
  {
    match LookupIn(t, m, key)
    case None => []
    case Some(prior) => FreeVal(t, prior)
  }

  /** dictReplace: adds `key` holding `val` when no entry matches it, and
      otherwise sets the value of the matching entry to `val` and then
      releases the value it held (`freed`).  1 when the entry was added,
      0 when it was updated; either way a lookup of `key` then finds the
      entry holding `val`. */
  method Replace<K(==, !new), V>(t: DictType<K, V>, a: DictHt<K, V>, b: DictHt<K, V>, idx: int, iterators: nat,
                             key: K, val: V, canResize: bool)
      returns (r: int, a': DictHt<K, V>, b': DictHt<K, V>, idx': int, ghost freed: seq<Release<K, V>>)
    requires TablesValid(t, a, b, idx) && a.used + b.used < LONG_MAX + 1
    ensures TablesValid(t, a', b', idx')
    ensures r == (if LookupIn(t, Held(a, b), key).None? then 1 else 0)
    ensures Held(a', b') == ReplacedIn(t, Held(a, b), key, val)
    ensures LookupIn(t, Held(a', b'), key) == Some(ReplacedEntry(t, Held(a, b), key, val))
    ensures freed == ReplaceFreed(t, Held(a, b), key)
  {
    SizeIsCount(t, a, b, idx);
    var res;
    res, a', b', idx' := AddRaw(t, a, b, idx, iterators, key, val, canResize);
    match res
    case Added(l) =>
      a', b' := SetAddedVal(t, a', b', idx', l, key, val, Held(a, b));
      return 1, a', b', idx', [];
    case Existing(l) =>
      var aux;
      a', b', aux := UpdateVal(t, a', b', idx', l, key, val);
      return 0, a', b', idx', FreeVal(t, aux);
    case Refused =>
      assert false;
      return 0, a', b', idx', [];
  }

  /** The entries dictDelete of `key` leaves of `m`: all but the entry
      whose key matches `key`. */
  ghost function DeletedIn<K, V>(t: DictType<K, V>, m: multiset<Entry<K, V>>, key: K): multiset<Entry<K, V>>
  {
    match LookupIn(t, m, key)
    case None => m
    case Some(e) => m - multiset{e}
  }

  /** The destructor calls dictDelete makes on `m`: the key and then the
      value of the entry it removes. */
  ghost function DeleteFreed<K, V>(t: DictType<K, V>, m: multiset<Entry<K, V>>, key: K): seq<Release<K, V>>
  {
    match LookupIn(t, m, key)
    case None => []
    case Some(e) => FreeKey(t, e) + FreeVal(t, e)
  }

  /** The lookup and unlink of dictGenericDelete: nothing when the
      dictionary is empty; otherwise one rehash step while rehashing, then
      the entry whose key matches `key`, taken out of its chain. */
  method GenericDelete<K(==, !new), V>(t: DictType<K, V>, a: DictHt<K, V>, b: DictHt<K, V>, idx: int, iterators: nat, key: K)
      returns (he: Option<Entry<K, V>>, a': DictHt<K, V>, b': DictHt<K, V>, idx': int)
    requires TablesValid(t, a, b, idx)
    ensures TablesValid(t, a', b', idx') && he == LookupIn(t, Held(a, b), key)
    ensures Held(a', b') == DeletedIn(t, Held(a, b), key)
    ensures LookupIn(t, Held(a', b'), key) == None
  {
    if a.used == 0 && b.used == 0 {
      EmptyFindsNothing(t, a, b, idx, key);
      return None, a, b, idx;
    }
    SizeIsCount(t, a, b, idx);
    a', b', idx' := RehashStep(t, a, b, idx, iterators);
    a', b', he := UnlinkKey(t, a', b', idx', key);
  }

  /** dictFind: nothing when the dictionary is empty; otherwise one
      rehash step while rehashing, then the entry whose key matches
      `key`, if any. */
  method Find<K(==, !new), V>(t: DictType<K, V>, a: DictHt<K, V>, b: DictHt<K, V>, idx: int, iterators: nat, key: K)
      returns (he: Option<Entry<K, V>>, a': DictHt<K, V>, b': DictHt<K, V>, idx': int)
    requires TablesValid(t, a, b, idx)
    ensures TablesValid(t, a', b', idx') && Held(a', b') == Held(a, b)
    ensures he == LookupIn(t, Held(a, b), key)
    ensures iterators > 0 ==> a' == a && b' == b && idx' == idx
  {
    if a.used + b.used == 0 {
      EmptyFindsNothing(t, a, b, idx, key);
      return None, a, b, idx;
    }
    SizeIsCount(t, a, b, idx);
    a', b', idx' := RehashStep(t, a, b, idx, iterators);
    HeldHasBuckets(t, a', b', idx');
    var l := FindLoc(t, a', b', idx', key);
    if l.None? {
      return None, a', b', idx';
    }
    return Some(At(a', b', l.value)), a', b', idx';
  }

  /** dictResize: refused when resizing is not allowed or a rehash is in
      progress; otherwise dictExpand to the entry count, but at least the
      initial size.  A table that needs shrinking is then shrunk. */
  method Resize<K(!new), V>(t: DictType<K, V>, a: DictHt<K, V>, b: DictHt<K, V>, idx: int, canResize: bool)
      returns (r: int, a': DictHt<K, V>, b': DictHt<K, V>, idx': int)
    requires TablesValid(t, a, b, idx)
    ensures TablesValid(t, a', b', idx') && Held(a', b') == Held(a, b)
    ensures r == DICT_OK || r == DICT_ERR
    ensures !canResize || idx != -1 ==> r == DICT_ERR
    ensures r == DICT_ERR ==> a' == a && b' == b && idx' == idx
    ensures canResize && idx == -1 ==>
              (r == DICT_ERR <==> a.used > ResizeTarget(a.used) || NextPow(ResizeTarget(a.used)) == a.size)
    ensures canResize && idx == -1 && a.used >= INT_MAX + 1 ==> r == DICT_ERR
    ensures r == DICT_OK && a.size == 0 ==> a' == NewHt(NextPow(ResizeTarget(a.used))) && b' == b && idx' == -1
    ensures r == DICT_OK && a.size != 0 ==> a' == a && b' == NewHt(NextPow(ResizeTarget(a.used))) && idx' == 0
    ensures canResize && idx == -1 && ShrinkNeeded(a.used, a.size) && a.used <= INT_MAX ==>
              r == DICT_OK && a' == a && idx' == 0 && b'.size < a.size
  {
    if !canResize || idx != -1 {
      return DICT_ERR, a, b, idx;
    }
    if ShrinkNeeded(a.used, a.size) {
      ShrinkMakesSmaller(a.used, a.size);
    }
    var minimal := ResizeTarget(a.used);
    r, a', b', idx' := Expand(t, a, b, idx, minimal);
  }
}
