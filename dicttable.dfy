/**
 * The values a dictionary is made of (dict.h): entries, the type
 * descriptor with its callbacks, the macros that apply those callbacks,
 * and one hash table generation (`dictht`) with the facts every
 * generation keeps: `sizemask` is `size - 1`, the size is a power of two,
 * `used` counts the entries and every entry sits in the bucket its hash
 * selects.
 */
module DictTable {
  import opened Wrappers
  import opened DictBits

  /** dictEntry: a key and its value.  The `next` link of the C struct is
      the entry's place in its bucket's sequence. */
  datatype Entry<K, V> = Entry(key: K, val: V)

  /** dictType.  The callbacks are functions of their arguments; the
      destructors are only present or absent, since what they release is
      memory. */
  datatype DictType<!K, !V> = DictType(
    hashFunction: K -> uint64,
    keyDup: Option<K -> K>,
    valDup: Option<V -> V>,
    keyCompare: Option<(K, K) -> bool>,
    keyDestructor: bool,
    valDestructor: bool)

  /** One call of a destructor callback. */
  datatype Release<K, V> = KeyFreed(key: K) | ValFreed(val: V)

  /** dictSetKey: the entry's key becomes the keyDup copy of `key` when
      keyDup is set, and `key` itself otherwise; its value is untouched. */
  function SetKey<K, V>(t: DictType<K, V>, e: Entry<K, V>, key: K): (r: Entry<K, V>)
    ensures r.val == e.val
    ensures t.keyDup.None? ==> r.key == key
    ensures t.keyDup.Some? ==> r.key == t.keyDup.value(key)
  {
    match t.keyDup
    case Some(dup) => e.(key := dup(key))
    case None => e.(key := key)
  }

  /** dictSetVal: the entry's value becomes the valDup copy of `val` when
      valDup is set, and `val` itself otherwise; its key is untouched. */
  function SetVal<K, V>(t: DictType<K, V>, e: Entry<K, V>, val: V): (r: Entry<K, V>)
    ensures r.key == e.key
    ensures t.valDup.None? ==> r.val == val
    ensures t.valDup.Some? ==> r.val == t.valDup.value(val)
  {
    match t.valDup
    case Some(dup) => e.(val := dup(val))
    case None => e.(val := val)
  }

  /** dictFreeKey: the keyDestructor is called on the key only when it is
      set. */
  function FreeKey<K, V>(t: DictType<K, V>, e: Entry<K, V>): (r: seq<Release<K, V>>)
    ensures t.keyDestructor ==> r == [KeyFreed(e.key)]
    ensures !t.keyDestructor ==> r == []
  {
    if t.keyDestructor then [KeyFreed(e.key)] else []
  }

  /** dictFreeVal: the valDestructor is called on the value only when it
      is set. */
  function FreeVal<K, V>(t: DictType<K, V>, e: Entry<K, V>): (r: seq<Release<K, V>>)
    ensures t.valDestructor ==> r == [ValFreed(e.val)]
    ensures !t.valDestructor ==> r == []
  {
    if t.valDestructor then [ValFreed(e.val)] else []
  }

  /** The destructor calls that releasing `es` in order makes. */
  function FreeAll<K, V>(t: DictType<K, V>, es: seq<Entry<K, V>>): seq<Release<K, V>>
  {
    if |es| == 0 then [] else FreeAll(t, es[..|es| - 1]) + FreeKey(t, es[|es| - 1]) + FreeVal(t, es[|es| - 1])
  }

  lemma FreeAllSnoc<K, V>(t: DictType<K, V>, es: seq<Entry<K, V>>, e: Entry<K, V>)
    ensures FreeAll(t, es + [e]) == FreeAll(t, es) + FreeKey(t, e) + FreeVal(t, e)
  {
    assert (es + [e])[..|es|] == es;
  }

  lemma {:induction false} FreeAllConcat<K, V>(t: DictType<K, V>, a: seq<Entry<K, V>>, b: seq<Entry<K, V>>)
    ensures FreeAll(t, a + b) == FreeAll(t, a) + FreeAll(t, b)
    decreases |b|
  {
    if |b| > 0 {
      var b' := b[..|b| - 1];
      assert (a + b)[..|a + b| - 1] == a + b';
      FreeAllConcat(t, a, b');
    } else {
      assert a + b == a;
    }
  }

  /** Releasing `es` calls keyDestructor once per entry, in order, and
      nothing else when there is no valDestructor (and symmetrically). */
  lemma {:induction false} FreeAllLength<K, V>(t: DictType<K, V>, es: seq<Entry<K, V>>)
    ensures |FreeAll(t, es)| == |es| * ((if t.keyDestructor then 1 else 0) + (if t.valDestructor then 1 else 0))
  {
    if |es| > 0 {
      FreeAllLength(t, es[..|es| - 1]);
    }
  }

  /** dictCompareKeys: keyCompare when it is set, identity of the two keys
      otherwise. */
  function CompareKeys<K(==), V>(t: DictType<K, V>, k1: K, k2: K): (r: bool)
    ensures t.keyCompare.None? ==> (r <==> k1 == k2)
    ensures t.keyCompare.Some? ==> r == t.keyCompare.value(k1, k2)
  {
    match t.keyCompare
    case Some(cmp) => cmp(k1, k2)
    case None => k1 == k2
  }

  /** The test the lookups apply to each chained entry: the very same key,
      or one that dictCompareKeys accepts. */
  predicate Matches<K(==), V>(t: DictType<K, V>, key: K, k: K)
  {
    key == k || CompareKeys(t, key, k)
  }

  /** The first position in a bucket's chain whose key matches `key`. */
  function ChainFind<K(==), V>(t: DictType<K, V>, c: seq<Entry<K, V>>, key: K): (r: Option<nat>)
    ensures r.Some? ==> r.value < |c| && Matches(t, key, c[r.value].key)
    ensures r.Some? ==> forall j :: 0 <= j < r.value ==> !Matches(t, key, c[j].key)
    ensures r.None? <==> forall j :: 0 <= j < |c| ==> !Matches(t, key, c[j].key)
  {
    if |c| == 0 then None
    else if Matches(t, key, c[0].key) then Some(0)
    else match ChainFind(t, c[1..], key)
      case Some(j) => assert c[1..][j] == c[j + 1]; Some(j + 1)
      case None => assert forall j :: 1 <= j < |c| ==> c[j] == c[1..][j - 1]; None
  }

  /** dictht: the buckets (`table`, each a chain from its head), `size`,
      `sizemask` and `used`. */
  datatype DictHt<K, V> = DictHt(table: seq<seq<Entry<K, V>>>, size: nat, sizemask: nat, used: nat)

  /** _dictReset: no table at all. */
  function ResetHt<K, V>(): DictHt<K, V>
  {
    DictHt([], 0, 0, 0)
  }

  /** All entries of a table, bucket by bucket. */
  ghost function Flatten<K, V>(t: seq<seq<Entry<K, V>>>): seq<Entry<K, V>>
  {
    if |t| == 0 then [] else Flatten(t[..|t| - 1]) + t[|t| - 1]
  }

  /** The buckets before `i + 1` hold those before `i` and bucket `i`. */
  lemma FlattenPrefix<K, V>(t: seq<seq<Entry<K, V>>>, i: nat)
    requires i <= |t|
    ensures i < |t| ==> Flatten(t[..i + 1]) == Flatten(t[..i]) + t[i]
    ensures i == 0 ==> Flatten(t[..i]) == []
  {
    if i < |t| {
      assert t[..i + 1][..i] == t[..i];
    }
  }

  lemma {:induction false} FlattenConcat<K, V>(a: seq<seq<Entry<K, V>>>, b: seq<seq<Entry<K, V>>>)
    ensures Flatten(a + b) == Flatten(a) + Flatten(b)
    decreases |b|
  {
    if |b| > 0 {
      var b' := b[..|b| - 1];
      assert (a + b)[..|a + b| - 1] == a + b';
      FlattenConcat(a, b');
    } else {
      assert a + b == a;
    }
  }

  /** Buckets before `i` that hold as many entries as the whole table
      hold all of them. */
  lemma FlattenAllCounted<K, V>(t: seq<seq<Entry<K, V>>>, i: nat)
    requires i <= |t| && |Flatten(t[..i])| == |Flatten(t)|
    ensures Flatten(t[..i]) == Flatten(t)
  {
    assert t[..i] + t[i..] == t;
    FlattenConcat(t[..i], t[i..]);
    assert Flatten(t[i..]) == [];
    assert Flatten(t[..i]) + [] == Flatten(t[..i]);
  }

  /** The entries of bucket `i` come between those of the buckets before
      and after it. */
  lemma {:induction false} FlattenSplit<K, V>(t: seq<seq<Entry<K, V>>>, i: nat)
    requires i < |t|
    ensures Flatten(t) == Flatten(t[..i]) + t[i] + Flatten(t[i + 1..])
  {
    var a, b := t[..i], t[i + 1..];
    assert t == a + ([t[i]] + b) by {
      assert t[i..] == [t[i]] + b;
      assert t == a + t[i..];
    }
    assert Flatten([t[i]] + b) == t[i] + Flatten(b) by {
      FlattenConcat([t[i]], b);
      assert [t[i]][..0] == [];
    }
    FlattenConcat(a, [t[i]] + b);
  }

  /** Replacing bucket `i` by `c` replaces its entries, in the same place. */
  lemma {:induction false} FlattenUpdate<K, V>(t: seq<seq<Entry<K, V>>>, i: nat, c: seq<Entry<K, V>>)
    requires i < |t|
    ensures multiset(Flatten(t[i := c])) == multiset(Flatten(t)) - multiset(t[i]) + multiset(c)
    ensures multiset(t[i]) <= multiset(Flatten(t))
    ensures |Flatten(t[i := c])| + |t[i]| == |Flatten(t)| + |c|
  {
    var u := t[i := c];
    FlattenSplit(t, i);
    FlattenSplit(u, i);
    assert u[..i] == t[..i] && u[i + 1..] == t[i + 1..];
  }

  lemma {:induction false} FlattenAllEmpty<K, V>(t: seq<seq<Entry<K, V>>>)
    requires forall i :: 0 <= i < |t| ==> t[i] == []
    ensures Flatten(t) == []
  {
    if |t| > 0 {
      FlattenAllEmpty(t[..|t| - 1]);
    }
  }

  /** Every entry of a table is in one of its buckets. */
  lemma {:induction false} FlattenMember<K, V>(t: seq<seq<Entry<K, V>>>, e: Entry<K, V>)
    requires e in Flatten(t)
    ensures exists i, j :: 0 <= i < |t| && 0 <= j < |t[i]| && t[i][j] == e
  {
    var n := |t| - 1;
    if e in Flatten(t[..n]) {
      FlattenMember(t[..n], e);
      var i, j :| 0 <= i < n && 0 <= j < |t[..n][i]| && t[..n][i][j] == e;
      assert t[i][j] == e;
    } else {
      var j :| 0 <= j < |t[n]| && t[n][j] == e;
    }
  }

  /** If some entry is left, a bucket at or after the first `k`, all of
      them empty, holds it. */
  lemma {:induction false} NonEmptyBucketFrom<K, V>(t: seq<seq<Entry<K, V>>>, k: nat)
    requires k <= |t| && Flatten(t) != []
    requires forall i :: 0 <= i < k ==> t[i] == []
    ensures k < |t|
  {
    if k == |t| {
      FlattenAllEmpty(t);
    }
  }

  /** The empty-bucket walk of dictRehash: from bucket `from` on, passes
      over empty buckets, counting each off a budget of `budget` visits,
      and stops at a non-empty bucket or as soon as the budget runs out.
      A budget that is not positive never runs out. */
  method SkipEmpty<K, V>(t: seq<seq<Entry<K, V>>>, from: nat, budget: int) returns (idx: nat, visits: nat, exhausted: bool)
    requires from <= |t| && Flatten(t) != []
    requires forall i :: 0 <= i < from ==> t[i] == []
    ensures from <= idx < |t| && visits == idx - from
    ensures forall i :: 0 <= i < idx ==> t[i] == []
    ensures exhausted <==> budget > 0 && visits == budget
    ensures !exhausted ==> t[idx] != []
    ensures budget > 0 ==> visits <= budget
  {
    idx, visits, exhausted := from, 0, false;
    NonEmptyBucketFrom(t, idx);
    var left := budget;
    while t[idx] == []
      invariant from <= idx < |t| && visits == idx - from && left == budget - visits
      invariant forall i :: 0 <= i < idx ==> t[i] == []
      invariant budget > 0 ==> visits < budget
      decreases |t| - idx
    {
      idx := idx + 1;
      visits := visits + 1;
      left := left - 1;
      NonEmptyBucketFrom(t, idx);
      if left == 0 {
        return idx, visits, true;
      }
    }
  }

  /** Every entry of `t` sits in the bucket its hash, masked, selects. */
  ghost predicate Placed<K, V>(t: seq<seq<Entry<K, V>>>, mask: nat, hash: K -> uint64)
  {
    forall i, j :: 0 <= i < |t| && 0 <= j < |t[i]| ==> BitAnd(hash(t[i][j].key), mask) == i
  }

  /** A well-formed generation: the table has `size` buckets, `sizemask`
      is `size - 1` (0 for no table), a non-empty table has a power of two
      buckets, `used` counts its entries and each sits in its bucket. */
  ghost predicate HtValid<K, V>(ht: DictHt<K, V>, hash: K -> uint64)
  {
    && |ht.table| == ht.size
    && ht.sizemask == (if ht.size == 0 then 0 else ht.size - 1)
    && (ht.size > 0 ==> IsPow2(ht.size))
    && ht.used == |Flatten(ht.table)|
    && Placed(ht.table, ht.sizemask, hash)
  }

  /** The bucket of `h` in a generation with at least one bucket. */
  function Bucket<K, V>(ht: DictHt<K, V>, h: uint64): (idx: nat)
    requires |ht.table| == ht.size > 0 && ht.sizemask == ht.size - 1
    ensures idx < |ht.table|
  {
    BitAnd(h, ht.sizemask)
  }

  /** The empty generation dictExpand allocates: `size` empty buckets. */
  function NewHt<K, V>(size: nat): (r: DictHt<K, V>)
    ensures r.size == size && r.used == 0 && |r.table| == size
    ensures Flatten(r.table) == []
  {
    var r := DictHt(seq(size, _ => []), size, if size == 0 then 0 else size - 1, 0);
    FlattenAllEmpty(r.table);
    r
  }

  /** A fresh generation is well-formed. */
  lemma NewHtValid<K, V>(size: nat, hash: K -> uint64)
    requires IsPow2(size)
    ensures HtValid(NewHt<K, V>(size), hash)
  {
  }

  lemma ResetIsValid<K, V>(hash: K -> uint64)
    ensures HtValid(ResetHt<K, V>(), hash) && Flatten(ResetHt<K, V>().table) == []
  {
  }

  /** Bucket `idx` of a well-formed generation replaced by `c`, whose
      entries all belong in that bucket, with `used` adjusted. */
  lemma PlacedUpdate<K, V>(ht: DictHt<K, V>, hash: K -> uint64, idx: nat, c: seq<Entry<K, V>>)
    requires HtValid(ht, hash) && idx < |ht.table|
    requires forall j :: 0 <= j < |c| ==> BitAnd(hash(c[j].key), ht.sizemask) == idx
    ensures Placed(ht.table[idx := c], ht.sizemask, hash)
  {
  }

  /** Links `e` in at the head of bucket `idx` and counts it. */
  function PushFront<K, V>(ht: DictHt<K, V>, idx: nat, e: Entry<K, V>): (r: DictHt<K, V>)
    requires idx < |ht.table|
    ensures r.size == ht.size && r.sizemask == ht.sizemask && |r.table| == |ht.table|
    ensures r.table[idx] == [e] + ht.table[idx]
    ensures forall i :: 0 <= i < |ht.table| && i != idx ==> r.table[i] == ht.table[i]
    ensures multiset(Flatten(r.table)) == multiset(Flatten(ht.table)) + multiset{e}
  {
    var c := [e] + ht.table[idx];
    FlattenUpdate(ht.table, idx, c);
    assert multiset(c) == multiset{e} + multiset(ht.table[idx]);
    ht.(table := ht.table[idx := c], used := ht.used + 1)
  }

  /** An entry pushed onto the bucket its hash selects keeps the
      generation well-formed. */
  lemma PushFrontValid<K, V>(ht: DictHt<K, V>, hash: K -> uint64, idx: nat, e: Entry<K, V>)
    requires HtValid(ht, hash) && idx < |ht.table| && BitAnd(hash(e.key), ht.sizemask) == idx
    ensures HtValid(PushFront(ht, idx, e), hash)
  {
    var c := [e] + ht.table[idx];
    FlattenUpdate(ht.table, idx, c);
    forall j | 0 <= j < |c|
      ensures BitAnd(hash(c[j].key), ht.sizemask) == idx
    {
      if j > 0 {
        assert c[j] == ht.table[idx][j - 1];
      }
    }
    PlacedUpdate(ht, hash, idx, c);
  }

  /** Unlinks the entry at position `j` of bucket `idx` and uncounts it. */
  function RemoveAt<K, V>(ht: DictHt<K, V>, idx: nat, j: nat): (r: DictHt<K, V>)
    requires idx < |ht.table| && j < |ht.table[idx]| && ht.used > 0
    ensures r.size == ht.size && r.sizemask == ht.sizemask && |r.table| == |ht.table|
    ensures r.table == ht.table[idx := ht.table[idx][..j] + ht.table[idx][j + 1..]]
    ensures multiset(Flatten(r.table)) == multiset(Flatten(ht.table)) - multiset{ht.table[idx][j]}
    ensures ht.table[idx][j] in multiset(Flatten(ht.table))
  {
    var c := ht.table[idx][..j] + ht.table[idx][j + 1..];
    FlattenUpdate(ht.table, idx, c);
    MultisetOfRemove(ht.table[idx], j);
    ht.(table := ht.table[idx := c], used := ht.used - 1)
  }

  lemma MultisetOfRemove<T>(c: seq<T>, j: nat)
    requires j < |c|
    ensures c[j] in multiset(c)
    ensures multiset(c[..j] + c[j + 1..]) == multiset(c) - multiset{c[j]}
  {
    assert c == c[..j] + [c[j]] + c[j + 1..];
  }

  /** Unlinking an entry keeps the generation well-formed. */
  lemma RemoveAtValid<K, V>(ht: DictHt<K, V>, hash: K -> uint64, idx: nat, j: nat)
    requires HtValid(ht, hash) && idx < |ht.table| && j < |ht.table[idx]|
    ensures ht.used > 0 && HtValid(RemoveAt(ht, idx, j), hash)
  {
    var old_c := ht.table[idx];
    var c := old_c[..j] + old_c[j + 1..];
    FlattenUpdate(ht.table, idx, c);
    forall k | 0 <= k < |c|
      ensures BitAnd(hash(c[k].key), ht.sizemask) == idx
    {
      if k < j {
        assert c[k] == old_c[k];
      } else {
        assert c[k] == old_c[k + 1];
      }
    }
    PlacedUpdate(ht, hash, idx, c);
  }

  lemma {:induction false} MultisetOfUpdate<T>(c: seq<T>, j: nat, e: T)
    requires j < |c|
    ensures c[j] in multiset(c)
    ensures multiset(c[j := e]) == multiset(c) - multiset{c[j]} + multiset{e}
  {
    assert c == c[..j] + [c[j]] + c[j + 1..];
    assert c[j := e] == c[..j] + [e] + c[j + 1..];
  }

  /** Stores `e`, which has the key of the entry at position `j` of bucket
      `idx`, in that entry's place. */
  function ReplaceAt<K, V>(ht: DictHt<K, V>, idx: nat, j: nat, e: Entry<K, V>): (r: DictHt<K, V>)
    requires idx < |ht.table| && j < |ht.table[idx]| && e.key == ht.table[idx][j].key
    ensures r.size == ht.size && r.sizemask == ht.sizemask && r.used == ht.used
    ensures r.table == ht.table[idx := ht.table[idx][j := e]]
    ensures multiset(Flatten(r.table)) == multiset(Flatten(ht.table)) - multiset{ht.table[idx][j]} + multiset{e}
    ensures ht.table[idx][j] in multiset(Flatten(ht.table))
  {
    var c := ht.table[idx][j := e];
    FlattenUpdate(ht.table, idx, c);
    MultisetOfUpdate(ht.table[idx], j, e);
    ht.(table := ht.table[idx := c])
  }

  /** Replacing an entry's value keeps the generation well-formed. */
  lemma ReplaceAtValid<K, V>(ht: DictHt<K, V>, hash: K -> uint64, idx: nat, j: nat, e: Entry<K, V>)
    requires HtValid(ht, hash) && idx < |ht.table| && j < |ht.table[idx]| && e.key == ht.table[idx][j].key
    ensures HtValid(ReplaceAt(ht, idx, j, e), hash)
  {
    var c := ht.table[idx][j := e];
    FlattenUpdate(ht.table, idx, c);
    PlacedUpdate(ht, hash, idx, c);
  }

  /** Keys that compare equal hash alike. */
  ghost predicate HashAgrees<K, V>(t: DictType<K, V>, a: K, b: K)
  {
    Matches(t, a, b) ==> t.hashFunction(a) == t.hashFunction(b)
  }

  ghost predicate Symmetric<K, V>(t: DictType<K, V>, a: K, b: K)
  {
    Matches(t, a, b) ==> Matches(t, b, a)
  }

  ghost predicate Transitive<K, V>(t: DictType<K, V>, a: K, b: K, c: K)
  {
    Matches(t, a, b) && Matches(t, b, c) ==> Matches(t, a, c)
  }

  /** keyDup yields a key equal to the original. */
  ghost predicate DupMatches<K, V>(t: DictType<K, V>, a: K)
  {
    t.keyDup.Some? ==> Matches(t, a, t.keyDup.value(a))
  }

  /** What the lookups rely on the type for: keys that compare equal hash
      alike, comparison is symmetric and transitive, and keyDup yields a
      key equal to the original.  Instances are taken through the four
      predicates above, one at a time. */
  ghost predicate Consistent<K(!new), V>(t: DictType<K, V>)
  {
    && (forall a, b :: HashAgrees(t, a, b))
    && (forall a, b :: Symmetric(t, a, b))
    && (forall a, b, c :: Transitive(t, a, b, c))
    && (forall a :: DupMatches(t, a))
  }

  /** Entries `e1` and `e2` of `m` whose keys compare equal are one
      entry, held once. */
  ghost predicate KeysApart<K, V>(t: DictType<K, V>, m: multiset<Entry<K, V>>, e1: Entry<K, V>, e2: Entry<K, V>)
  {
    Matches(t, e1.key, e2.key) ==> e1 == e2 && m[e1] == 1
  }

  /** No two entries held have keys that compare equal, and none is held
      twice.  Instances are taken one pair at a time, through KeysApart. */
  ghost predicate UniqueKeys<K, V>(t: DictType<K, V>, m: multiset<Entry<K, V>>)
  {
    forall e1, e2 {:trigger KeysApart(t, m, e1, e2)} :: e1 in m && e2 in m ==> KeysApart(t, m, e1, e2)
  }

  /** With unique keys, a key matches at most one entry. */
  lemma UniqueMatch<K(!new), V>(t: DictType<K, V>, m: multiset<Entry<K, V>>, key: K, e1: Entry<K, V>, e2: Entry<K, V>)
    requires Consistent(t) && UniqueKeys(t, m)
    requires e1 in m && e2 in m && Matches(t, key, e1.key) && Matches(t, key, e2.key)
    ensures e1 == e2
  {
    assert Symmetric(t, key, e1.key) && Transitive(t, e1.key, key, e2.key);
    assert KeysApart(t, m, e1, e2);
  }

  /** A new entry whose key matches `key`, when no entry held matches
      `key`, keeps the keys unique. */
  lemma UniqueAdd<K(!new), V>(t: DictType<K, V>, m: multiset<Entry<K, V>>, key: K, n: Entry<K, V>)
    requires Consistent(t) && UniqueKeys(t, m) && Matches(t, key, n.key)
    requires forall e :: e in m ==> !Matches(t, key, e.key)
    ensures UniqueKeys(t, m + multiset{n})
  {
    var m' := m + multiset{n};
    assert n !in m;
    forall e1, e2 | e1 in m' && e2 in m'
      ensures KeysApart(t, m', e1, e2)
    {
      assert Symmetric(t, e1.key, e2.key) && Transitive(t, key, e2.key, e1.key) && Transitive(t, key, e1.key, e2.key);
      if Matches(t, e1.key, e2.key) {
        if e1 in m && e2 in m {
          assert KeysApart(t, m, e1, e2);
        } else if e1 in m || e2 in m {
          assert false;
        }
      }
    }
  }

  /** Releasing an entry keeps the keys unique. */
  lemma UniqueRemove<K, V>(t: DictType<K, V>, m: multiset<Entry<K, V>>, e: Entry<K, V>)
    requires UniqueKeys(t, m)
    ensures UniqueKeys(t, m - multiset{e})
  {
    var m' := m - multiset{e};
    forall e1, e2 | e1 in m' && e2 in m'
      ensures KeysApart(t, m', e1, e2)
    {
      assert KeysApart(t, m, e1, e2);
    }
  }

  /** Replacing an entry by one with the same key keeps the keys unique. */
  lemma UniqueReplace<K(!new), V>(t: DictType<K, V>, m: multiset<Entry<K, V>>, e: Entry<K, V>, n: Entry<K, V>)
    requires Consistent(t) && UniqueKeys(t, m) && e in m && n.key == e.key
    ensures UniqueKeys(t, m - multiset{e} + multiset{n})
  {
    var r := m - multiset{e};
    UniqueRemove(t, m, e);
    forall x | x in r
      ensures !Matches(t, e.key, x.key)
    {
      assert KeysApart(t, m, e, x);
    }
    UniqueAdd(t, r, e.key, n);
  }

  /** The entries of every bucket are among those of the whole table. */
  lemma BucketInFlatten<K, V>(t: seq<seq<Entry<K, V>>>, i: nat, j: nat)
    requires i < |t| && j < |t[i]|
    ensures t[i][j] in multiset(Flatten(t))
  {
    FlattenUpdate(t, i, t[i]);
    assert t[i][j] in multiset(t[i]);
  }

  /** Where the search for `key` in a generation with buckets looks: the
      bucket its hash selects. */
  function KeyBucket<K, V>(t: DictType<K, V>, ht: DictHt<K, V>, key: K): (idx: nat)
    requires |ht.table| == ht.size > 0 && ht.sizemask == ht.size - 1
    ensures idx < |ht.table|
  {
    Bucket(ht, t.hashFunction(key))
  }

  /** An entry held in a well-formed generation whose key matches `key` is
      in the bucket the search for `key` looks at, so the search finds a
      match there. */
  lemma SearchFindsHeld<K(!new), V>(t: DictType<K, V>, ht: DictHt<K, V>, key: K, e: Entry<K, V>)
    requires Consistent(t) && HtValid(ht, t.hashFunction)
    requires e in multiset(Flatten(ht.table)) && Matches(t, key, e.key)
    ensures ht.size > 0 && ChainFind(t, ht.table[KeyBucket(t, ht, key)], key).Some?
  {
    FlattenMember(ht.table, e);
    var i, j :| 0 <= i < |ht.table| && 0 <= j < |ht.table[i]| && ht.table[i][j] == e;
    assert BitAnd(t.hashFunction(e.key), ht.sizemask) == i;
    assert HashAgrees(t, key, e.key);
  }

  /** With unique keys, once the entry matching `key` is released no entry
      left matches `key`. */
  lemma UniqueRemoveMiss<K(!new), V>(t: DictType<K, V>, m: multiset<Entry<K, V>>, key: K, e: Entry<K, V>)
    requires Consistent(t) && UniqueKeys(t, m) && e in m && Matches(t, key, e.key)
    ensures forall x :: x in m - multiset{e} ==> !Matches(t, key, x.key)
  {
    forall x | x in m - multiset{e}
      ensures !Matches(t, key, x.key)
    {
      assert KeysApart(t, m, e, e);
      if Matches(t, key, x.key) {
        UniqueMatch(t, m, key, e, x);
        assert false;
      }
    }
  }

  /** Moving the entries `c` out of `a` into `b` keeps the union. */
  lemma MultisetMove<T>(a: multiset<T>, b: multiset<T>, c: multiset<T>)
    requires c <= a
    ensures (a - c) + (b + c) == a + b
  {
  }

  /** The entries of the buckets of `t`, bucket by bucket. */
  ghost function Bag<K, V>(t: seq<seq<Entry<K, V>>>): multiset<Entry<K, V>>
  {
    if |t| == 0 then multiset{} else Bag(t[..|t| - 1]) + multiset(t[|t| - 1])
  }

  lemma {:induction false} BagIsFlatten<K, V>(t: seq<seq<Entry<K, V>>>)
    ensures Bag(t) == multiset(Flatten(t))
    decreases |t|
  {
    if |t| > 0 {
      BagIsFlatten(t[..|t| - 1]);
    }
  }

  /** The entries of two table generations together. */
  ghost function Held<K, V>(a: DictHt<K, V>, b: DictHt<K, V>): multiset<Entry<K, V>>
  {
    Bag(a.table) + Bag(b.table)
  }

  lemma HeldIsFlatten<K, V>(a: DictHt<K, V>, b: DictHt<K, V>)
    ensures Held(a, b) == multiset(Flatten(a.table)) + multiset(Flatten(b.table))
  {
    BagIsFlatten(a.table);
    BagIsFlatten(b.table);
  }

  /** The inner loop of dictRehash: each entry of chain `c`, from its head
      on, is pushed onto the head of the bucket its hash selects in `dst`. */
  method PushChain<K, V>(hash: K -> uint64, dst: DictHt<K, V>, c: seq<Entry<K, V>>) returns (r: DictHt<K, V>)
    requires HtValid(dst, hash) && dst.size > 0
    ensures HtValid(r, hash) && r.size == dst.size
    ensures multiset(Flatten(r.table)) == multiset(Flatten(dst.table)) + multiset(c)
  {
    r := dst;
    var k := 0;
    ghost var pushed: multiset<Entry<K, V>> := multiset{};
    while k < |c|
      invariant 0 <= k <= |c| && pushed == multiset(c[..k])
      invariant HtValid(r, hash) && r.size == dst.size
      invariant multiset(Flatten(r.table)) == multiset(Flatten(dst.table)) + pushed
    {
      var e := c[k];
      r := PushHashed(hash, r, e);
      PrefixMultiset(c, k);
      pushed := pushed + multiset{e};
      k := k + 1;
    }
    assert c[..k] == c;
  }

  /** One step of the inner loop of dictRehash: `e` goes to the head of
      the bucket its hash selects. */
  function PushHashed<K, V>(hash: K -> uint64, ht: DictHt<K, V>, e: Entry<K, V>): (r: DictHt<K, V>)
    requires HtValid(ht, hash) && ht.size > 0
    ensures HtValid(r, hash) && r.size == ht.size
    ensures multiset(Flatten(r.table)) == multiset(Flatten(ht.table)) + multiset{e}
  {
    var h := Bucket(ht, hash(e.key));
    PushFrontValid(ht, hash, h, e);
    PushFront(ht, h, e)
  }

  lemma PrefixMultiset<T>(c: seq<T>, k: nat)
    requires k < |c|
    ensures multiset(c[..k + 1]) == multiset(c[..k]) + multiset{c[k]}
  {
    assert c[..k + 1] == c[..k] + [c[k]];
  }

  /** One bucket of dictRehash: the chain of bucket `i` of `src` is moved
      onto `dst`, uncounted in `src`, and the bucket emptied.  Both tables
      stay well-formed and together hold what they held. */
  method RehashBucket<K, V>(hash: K -> uint64, src: DictHt<K, V>, dst: DictHt<K, V>, i: nat)
      returns (src': DictHt<K, V>, dst': DictHt<K, V>)
    requires HtValid(src, hash) && HtValid(dst, hash) && dst.size > 0 && i < |src.table|
    ensures HtValid(src', hash) && HtValid(dst', hash)
    ensures src'.table == src.table[i := []] && src'.size == src.size
    ensures src'.used + |src.table[i]| == src.used && dst'.size == dst.size
    ensures Held(src', dst') == Held(src, dst)
  {
    var c := src.table[i];
    dst' := PushChain(hash, dst, c);
    FlattenUpdate(src.table, i, []);
    PlacedUpdate(src, hash, i, []);
    src' := src.(table := src.table[i := []], used := src.used - |c|);
    MultisetMove(multiset(Flatten(src.table)), multiset(Flatten(dst.table)), multiset(c));
    HeldIsFlatten(src, dst);
    HeldIsFlatten(src', dst');
  }

  /** When the old generation is drained, the new one taking its place
      beside a reset table holds the same entries. */
  lemma DrainedSwap<K, V>(hash: K -> uint64, a: DictHt<K, V>, b: DictHt<K, V>)
    requires HtValid(a, hash) && a.used == 0
    ensures Held(b, ResetHt()) == Held(a, b)
    ensures HtValid(ResetHt<K, V>(), hash)
  {
    ResetIsValid<K, V>(hash);
    assert Flatten(a.table) == [];
    HeldIsFlatten(a, b);
    HeldIsFlatten(b, ResetHt());
  }
}
