/**
 * The dictionary of dict.h: two table generations `ht[0]` and `ht[1]`,
 * the rehash cursor `rehashidx` (-1 when no rehash is in progress) and
 * the count of running safe iterators.  While rehashing, `ht[0]` is the
 * old table being drained bucket by bucket into `ht[1]`; lookups search
 * both, and every add, find and delete first moves one bucket along.
 * Each method applies the operation of the same name in DictOps to the
 * fields and records the destructor calls it makes in `Released`.
 *
 * A `dictEntry *` handed out by the C interface becomes a `Loc`: the
 * generation, bucket and chain position of the entry.
 */
module Dict {
  import opened Wrappers
  import opened DictBits
  import opened DictPolicy
  import opened DictTable
  import opened DictState
  import opened DictOps

  class Dict<K(==, !new), V(==)> {
    const dtype: DictType<K, V>
    var ht0: DictHt<K, V>
    var ht1: DictHt<K, V>
    var rehashidx: int
    var iterators: nat
    /** The destructor calls made so far. */
    ghost var Released: seq<Release<K, V>>

    /** The entries held, in either generation. */
    ghost function Contents(): multiset<Entry<K, V>>
      reads this`ht0, this`ht1
    {
      Held(ht0, ht1)
    }

    /** The invariant of TablesValid over the two generations and the
        rehash cursor. */
    ghost predicate Valid()
      reads this`ht0, this`ht1, this`rehashidx
    {
      TablesValid(dtype, ht0, ht1, rehashidx)
    }

    /** _dictInit through dictCreate: both generations reset, no rehash,
        no iterators. */
    constructor(dtype: DictType<K, V>)
      requires Consistent(dtype)
      ensures Valid() && Contents() == multiset{} && this.dtype == dtype
      ensures ht0 == ResetHt() && ht1 == ResetHt() && rehashidx == -1 && iterators == 0 && Released == []
    {
      this.dtype := dtype;
      ht0, ht1 := ResetHt(), ResetHt();
      rehashidx := -1;
      iterators := 0;
      Released := [];
    }

    /** dictSize: the number of entries held. */
    function Size(): (n: nat)
      requires Valid()
      reads this`ht0, this`ht1, this`rehashidx
      ensures n == |Contents()|
    {
      SizeIsCount(dtype, ht0, ht1, rehashidx);
      ht0.used + ht1.used
    }

    /** dictSlots: the number of buckets of both generations. */
    function Slots(): (n: nat)
      requires Valid()
      reads this`ht0, this`ht1, this`rehashidx
      ensures n == |ht0.table| + |ht1.table|
    {
      ht0.size + ht1.size
    }

    /** dictIsRehashing: a rehash is in progress exactly when the second
        generation has buckets. */
    function IsRehashing(): (b: bool)
      requires Valid()
      reads this`ht0, this`ht1, this`rehashidx
      ensures b <==> |ht1.table| > 0
    {
      rehashidx != -1
    }

    /** dictExpand: refused while rehashing, for a size below the entry
        count, or for one that rounds to the current size; otherwise a
        table of `_dictNextPower(size)` empty buckets becomes `ht[0]` when
        there is none yet, and the rehash target `ht[1]` otherwise. */
    method Expand(size: nat) returns (r: int)
      requires Valid()
      modifies this`ht0, this`ht1, this`rehashidx
      ensures Valid() && Contents() == old(Contents())
      ensures r == DICT_ERR <==> old(rehashidx) != -1 || old(ht0.used) > size || NextPow(size) == old(ht0.size)
      ensures r == DICT_OK || r == DICT_ERR
      ensures r == DICT_ERR ==> unchanged(this`ht0, this`ht1, this`rehashidx)
      ensures r == DICT_OK && old(ht0.size) == 0 ==> ht0 == NewHt(NextPow(size)) && ht1 == old(ht1) && rehashidx == -1
      ensures r == DICT_OK && old(ht0.size) != 0 ==> ht0 == old(ht0) && ht1 == NewHt(NextPow(size)) && rehashidx == 0
    {
      r, ht0, ht1, rehashidx := DictOps.Expand(dtype, ht0, ht1, rehashidx, size);
    }

    /** dictRehash: moves up to `n` non-empty buckets from `ht[0]` to
        `ht[1]`, giving up after `10 * n` empty ones; when `ht[0]` is
        drained, `ht[1]` takes its place and the rehash ends.  Returns 1
        while entries are left to move and 0 otherwise. */
    method Rehash(n: int) returns (r: int, ghost emptied: nat, ghost moved: nat)
      requires Valid()
      modifies this`ht0, this`ht1, this`rehashidx
      ensures Valid() && Contents() == old(Contents())
      ensures r == 0 <==> rehashidx == -1
      ensures r == 0 || r == 1
      ensures old(rehashidx) == -1 ==> unchanged(this`ht0, this`ht1, this`rehashidx)
      ensures n >= 0 ==> emptied <= 10 * n && moved <= n
      ensures r == 1 && n >= 0 ==> moved == n || emptied == 10 * n
      ensures old(rehashidx) != -1 && r == 1 ==> rehashidx == old(rehashidx) + emptied + moved
      ensures r == 1 ==> ht0.size == old(ht0.size) && ht1.size == old(ht1.size)
      ensures old(rehashidx) != -1 && r == 0 ==> ht0.size == old(ht1.size) && ht1 == ResetHt()
      ensures n < 0 ==> r == 0
    {
      if rehashidx == -1 {
        return 0, 0, 0;
      }
      r, ht0, ht1, rehashidx, emptied, moved := RehashTables(dtype, ht0, ht1, rehashidx, n);
    }

    /** dictAddRaw: see DictOps.AddRaw. */
    method AddRaw(key: K, val: V, canResize: bool) returns (res: AddOutcome)
      requires Valid()
      modifies this`ht0, this`ht1, this`rehashidx
      ensures Valid()
      ensures res.Refused? ==> Contents() == old(Contents()) && old(Size()) >= LONG_MAX + 1
      ensures res.Existing? ==> Contents() == old(Contents()) && ValidLoc(ht0, ht1, res.at)
      ensures res.Existing? ==> LookupIn(dtype, old(Contents()), key) == Some(At(ht0, ht1, res.at))
      ensures res.Added? ==> LookupIn(dtype, old(Contents()), key) == None && ValidLoc(ht0, ht1, res.at)
      ensures res.Added? ==> At(ht0, ht1, res.at) == SetKey(dtype, Entry(key, val), key)
      ensures res.Added? ==> Contents() == old(Contents()) + multiset{At(ht0, ht1, res.at)}
    {
      res, ht0, ht1, rehashidx := DictOps.AddRaw(dtype, ht0, ht1, rehashidx, iterators, key, val, canResize);
    }

    /** dictSetVal on an entry the dictionary handed out, such as the one
        AddRaw has just linked in: the entry keeps its key and takes `val`,
        or `valDup(val)` when valDup is set; nothing else changes and
        nothing is released. */
    method SetVal(l: Loc, val: V)
      requires Valid() && ValidLoc(ht0, ht1, l)
      modifies this`ht0, this`ht1
      ensures Valid() && ValidLoc(ht0, ht1, l)
      ensures At(ht0, ht1, l) == DictTable.SetVal(dtype, old(At(ht0, ht1, l)), val)
      ensures Contents() == old(Contents()) - multiset{old(At(ht0, ht1, l))} + multiset{At(ht0, ht1, l)}
      ensures ht0.size == old(ht0.size) && ht1.size == old(ht1.size)
    {
      var a, b := ReplaceEntry(dtype, ht0, ht1, rehashidx, l, DictTable.SetVal(dtype, At(ht0, ht1, l), val));
      ht0, ht1 := a, b;
    }

    /** The first dictNext on an iterator from dictGetSafeIterator: one
        more safe iterator is running, which pauses the one-bucket rehash
        steps of add, find and delete. */
    method StartSafeIterator()
      modifies this`iterators
      ensures iterators == old(iterators) + 1
    {
      iterators := iterators + 1;
    }

    /** dictReleaseIterator on a safe iterator that was started: one safe
        iterator fewer is running. */
    method ReleaseSafeIterator()
      requires iterators > 0
      modifies this`iterators
      ensures iterators == old(iterators) - 1
    {
      iterators := iterators - 1;
    }

    /** dictAdd: a new entry for `key` holding `val`, unless an entry with a
        matching key is held or the table could not grow. */
    method Add(key: K, val: V, canResize: bool) returns (r: int)
      requires Valid()
      modifies this`ht0, this`ht1, this`rehashidx
      ensures Valid()
      ensures r == DICT_OK || r == DICT_ERR
      ensures r == DICT_OK ==> LookupIn(dtype, old(Contents()), key) == None && Contents() == old(Contents()) + multiset{NewEntry(dtype, key, val)}
      ensures r == DICT_OK ==> LookupIn(dtype, Contents(), key) == Some(NewEntry(dtype, key, val))
      ensures r == DICT_ERR ==> Contents() == old(Contents())
      ensures r == DICT_ERR ==> LookupIn(dtype, old(Contents()), key).Some? || old(Size()) >= LONG_MAX + 1
    {
      r, ht0, ht1, rehashidx := DictOps.Add(dtype, ht0, ht1, rehashidx, iterators, key, val, canResize);
    }

    /** dictReplace: see DictOps.Replace. */
    method Replace(key: K, val: V, canResize: bool) returns (r: int)
      requires Valid() && ht0.used + ht1.used < LONG_MAX + 1
      modifies this`ht0, this`ht1, this`rehashidx, this`Released
      ensures Valid()
      ensures r == (if LookupIn(dtype, old(Contents()), key).None? then 1 else 0)
      ensures Contents() == ReplacedIn(dtype, old(Contents()), key, val)
      ensures LookupIn(dtype, Contents(), key) == Some(ReplacedEntry(dtype, old(Contents()), key, val))
      ensures Released == old(Released) + ReplaceFreed(dtype, old(Contents()), key)
    {
      var a, b, i; ghost var freed;
      r, a, b, i, freed := DictOps.Replace(dtype, ht0, ht1, rehashidx, iterators, key, val, canResize);
      ht0, ht1, rehashidx, Released := a, b, i, Released + freed;
    }

    /** dictDelete: removes the entry whose key matches `key` and releases
        its key and value; DICT_ERR when there is none. */
    method Delete(key: K) returns (r: int)
      requires Valid()
      modifies this`ht0, this`ht1, this`rehashidx, this`Released
      ensures Valid()
      ensures r == (if LookupIn(dtype, old(Contents()), key).Some? then DICT_OK else DICT_ERR)
      ensures Contents() == DeletedIn(dtype, old(Contents()), key)
      ensures LookupIn(dtype, Contents(), key) == None
      ensures Released == old(Released) + DeleteFreed(dtype, old(Contents()), key)
    {
      var he, a, b, i;
      he, a, b, i := DictOps.GenericDelete(dtype, ht0, ht1, rehashidx, iterators, key);
      ghost var freed := if he.Some? then FreeKey(dtype, he.value) + FreeVal(dtype, he.value) else [];
      ht0, ht1, rehashidx, Released := a, b, i, Released + freed;
      r := if he.Some? then DICT_OK else DICT_ERR;
    }

    /** dictUnlink: removes the entry whose key matches `key` without
        releasing anything, and returns it. */
    method Unlink(key: K) returns (he: Option<Entry<K, V>>)
      requires Valid()
      modifies this`ht0, this`ht1, this`rehashidx
      ensures Valid()
      ensures he == LookupIn(dtype, old(Contents()), key)
      ensures Contents() == DeletedIn(dtype, old(Contents()), key)
      ensures LookupIn(dtype, Contents(), key) == None
    {
      he, ht0, ht1, rehashidx := DictOps.GenericDelete(dtype, ht0, ht1, rehashidx, iterators, key);
    }

    /** dictFreeUnlinkedEntry: releases the key and value of an entry that
        Unlink returned; nothing for no entry. */
    method FreeUnlinkedEntry(he: Option<Entry<K, V>>)
      modifies this`Released
      ensures he.None? ==> Released == old(Released)
      ensures he.Some? ==> Released == old(Released) + FreeKey(dtype, he.value) + FreeVal(dtype, he.value)
    {
      if he.Some? {
        Released := Released + FreeKey(dtype, he.value) + FreeVal(dtype, he.value);
      }
    }

    /** dictFind: the entry whose key matches `key`, if any. */
    method Find(key: K) returns (he: Option<Entry<K, V>>)
      requires Valid()
      modifies this`ht0, this`ht1, this`rehashidx
      ensures Valid() && Contents() == old(Contents())
      ensures he == LookupIn(dtype, old(Contents()), key)
      ensures iterators > 0 ==> unchanged(this`ht0, this`ht1, this`rehashidx)
    {
      var a, b, i;
      he, a, b, i := DictOps.Find(dtype, ht0, ht1, rehashidx, iterators, key);
      ht0, ht1, rehashidx := a, b, i;
    }

    /** dictFetchValue: the value of the entry Find returns. */
    method FetchValue(key: K) returns (v: Option<V>)
      requires Valid()
      modifies this`ht0, this`ht1, this`rehashidx
      ensures Valid() && Contents() == old(Contents())
      ensures LookupIn(dtype, old(Contents()), key).None? ==> v.None?
      ensures LookupIn(dtype, old(Contents()), key).Some? ==> v == Some(LookupIn(dtype, old(Contents()), key).value.val)
    {
      var he := Find(key);
      v := if he.Some? then Some(he.value.val) else None;
    }

    /** dictResize: refused when resizing is not allowed or a rehash is in
        progress; otherwise dictExpand to the entry count, but at least the
        initial size. */
    method Resize(canResize: bool) returns (r: int)
      requires Valid()
      modifies this`ht0, this`ht1, this`rehashidx
      ensures Valid() && Contents() == old(Contents())
      ensures r == DICT_OK || r == DICT_ERR
      ensures !canResize || old(rehashidx) != -1 ==> r == DICT_ERR
      ensures r == DICT_ERR ==> unchanged(this`ht0, this`ht1, this`rehashidx)
      ensures canResize && old(rehashidx) == -1 ==>
                (r == DICT_ERR <==> old(ht0.used) > ResizeTarget(old(ht0.used)) || NextPow(ResizeTarget(old(ht0.used))) == old(ht0.size))
      ensures canResize && old(rehashidx) == -1 && old(ht0.used) >= INT_MAX + 1 ==> r == DICT_ERR
      ensures r == DICT_OK && old(ht0.size) == 0 ==> ht0 == NewHt(NextPow(ResizeTarget(old(ht0.used)))) && ht1 == old(ht1) && rehashidx == -1
      ensures r == DICT_OK && old(ht0.size) != 0 ==> ht0 == old(ht0) && rehashidx == 0 && ht1 == NewHt(NextPow(ResizeTarget(old(ht0.used))))
      ensures canResize && old(rehashidx) == -1 && ShrinkNeeded(old(ht0.used), old(ht0.size)) && old(ht0.used) <= INT_MAX ==>
                r == DICT_OK && ht0 == old(ht0) && rehashidx == 0 && ht1.size < ht0.size
    {
      var a, b, i;
      r, a, b, i := DictOps.Resize(dtype, ht0, ht1, rehashidx, canResize);
      ht0, ht1, rehashidx := a, b, i;
    }

    /** dictEmpty: both generations cleared, `ht[0]` first, releasing the
        key and value of every entry, and reset; no rehash and no
        iterators. */
    method Empty()
      requires Valid()
      modifies this
      ensures Valid() && Contents() == multiset{}
      ensures ht0 == ResetHt() && ht1 == ResetHt() && rehashidx == -1 && iterators == 0
      ensures Released == old(Released) + FreeAll(dtype, Flatten(old(ht0).table)) + FreeAll(dtype, Flatten(old(ht1).table))
    {
      var log0 := ClearTable(dtype, ht0);
      var log1 := ClearTable(dtype, ht1);
      Released := Released + log0 + log1;
      ResetIsValid<K, V>(dtype.hashFunction);
      ht0, ht1 := ResetHt(), ResetHt();
      rehashidx, iterators := -1, 0;
    }
  }
}
