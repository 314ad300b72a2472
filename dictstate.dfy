/**
 * The state of a dictionary as values (dict.h): the two generations
 * `ht[0]` and `ht[1]` with the rehash cursor, what holds of them, where
 * an entry sits, the entry a key finds, and each change the dictionary
 * makes to them: moving buckets, linking, replacing and unlinking
 * entries, and releasing a whole generation.
 */
module DictState {
  import opened Wrappers
  import opened DictBits
  import opened DictTable

  /** What holds of a dictionary's two generations `a` and `b` and its
      rehash cursor `idx` (-1 when no rehash is in progress): the
      generations are well-formed; when not rehashing `b` is the reset
      table; while rehashing both have buckets and those of `a` before the
      cursor are already drained; no two entries have keys that compare
      equal. */
  ghost predicate TablesValid<K(!new), V>(t: DictType<K, V>, a: DictHt<K, V>, b: DictHt<K, V>, idx: int)
  {
    && Consistent(t)
    && HtValid(a, t.hashFunction)
    && HtValid(b, t.hashFunction)
    && Cursor(a, b, idx)
    && UniqueKeys(t, Held(a, b))
  }

  /** When not rehashing `b` is the reset table; while rehashing both
      generations have buckets and those of `a` before the cursor `idx`
      are already drained. */
  ghost predicate Cursor<K, V>(a: DictHt<K, V>, b: DictHt<K, V>, idx: int)
  {
    && (idx == -1 ==> b == ResetHt())
    && (idx != -1 ==>
          && 0 <= idx <= |a.table| && a.size > 0 && b.size > 0
          && forall i :: 0 <= i < idx ==> a.table[i] == [])
  }

  /** The cursor may pass over buckets that are empty. */
  lemma CursorAdvance<K(!new), V>(t: DictType<K, V>, a: DictHt<K, V>, b: DictHt<K, V>, idx: int, j: nat)
    requires TablesValid(t, a, b, idx) && idx != -1 && idx <= j <= |a.table|
    requires forall i :: 0 <= i < j ==> a.table[i] == []
    ensures TablesValid(t, a, b, j)
  {
  }

  /** Moving the bucket under the cursor keeps the invariant with the
      cursor one further on. */
  lemma RehashBucketValid<K(!new), V>(t: DictType<K, V>, a: DictHt<K, V>, b: DictHt<K, V>, j: nat, a': DictHt<K, V>, b': DictHt<K, V>)
    requires TablesValid(t, a, b, j) && j < |a.table|
    requires HtValid(a', t.hashFunction) && HtValid(b', t.hashFunction)
    requires a'.table == a.table[j := []] && a'.size == a.size && b'.size == b.size
    requires Held(a', b') == Held(a, b)
    ensures TablesValid(t, a', b', j + 1)
  {
  }

  /** The loop of dictRehash over the generations `a` and `b` with the
      cursor at `idx`: up to `n` non-empty buckets are moved, with a budget
      of `10 * n` empty ones, and when `a` is drained `b` takes its place
      beside a reset table and the cursor becomes -1.  The answer is 1
      while entries are left to move and 0 otherwise. */
  method RehashTables<K(!new), V>(t: DictType<K, V>, a: DictHt<K, V>, b: DictHt<K, V>, idx: int, n: int)
      returns (r: int, a': DictHt<K, V>, b': DictHt<K, V>, idx': int, ghost emptied: nat, ghost moved: nat)
    requires TablesValid(t, a, b, idx) && idx != -1
    ensures TablesValid(t, a', b', idx') && Held(a', b') == Held(a, b)
    ensures r == 0 <==> idx' == -1
    ensures r == 0 || r == 1
    ensures n >= 0 ==> emptied <= 10 * n && moved <= n
    ensures r == 1 && n >= 0 ==> moved == n || emptied == 10 * n
    ensures r == 1 ==> idx' == idx + emptied + moved
    ensures r == 1 ==> a'.size == a.size && b'.size == b.size
    ensures r == 0 ==> a'.size == b.size && b' == ResetHt()
    ensures n < 0 ==> r == 0
  {
    var emptyVisits := n * 10;
    emptied, moved := 0, 0;
    a', b', idx' := a, b, idx;
    var left := n;
    while left != 0 && a'.used != 0
      invariant TablesValid(t, a', b', idx') && idx' != -1 && Held(a', b') == Held(a, b)
      invariant idx' == idx + emptied + moved
      invariant a'.size == a.size && b'.size == b.size
      invariant emptyVisits == 10 * n - emptied
      invariant n >= 0 ==> 0 <= left == n - moved && emptied <= 10 * n && (left > 0 ==> emptied < 10 * n)
      invariant n < 0 ==> left < 0
      decreases a'.used
    {
      left := left - 1;
      var j, skipped, exhausted := SkipEmpty(a'.table, idx', emptyVisits);
      emptied, emptyVisits := emptied + skipped, emptyVisits - skipped;
      CursorAdvance(t, a', b', idx', j);
      idx' := j;
      if exhausted {
        return 1, a', b', idx', emptied, moved;
      }
      var src, dst := RehashBucket(t.hashFunction, a', b', j);
      RehashBucketValid(t, a', b', j, src, dst);
      a', b', idx' := src, dst, j + 1;
      moved := moved + 1;
    }
    if a'.used == 0 {
      DrainedSwap(t.hashFunction, a', b');
      return 0, b', ResetHt(), -1, emptied, moved;
    }
    return 1, a', b', idx', emptied, moved;
  }

  /** Where an entry sits: chain position `pos` of bucket `idx` of
      generation `gen` (0 for `ht[0]`, 1 for `ht[1]`). */
  datatype Loc = Loc(gen: nat, idx: nat, pos: nat)

  function Gen<K, V>(a: DictHt<K, V>, b: DictHt<K, V>, g: nat): DictHt<K, V>
  {
    if g == 0 then a else b
  }

  /** The generation new entries go to: `ht[1]` while rehashing, `ht[0]`
      otherwise. */
  function Target(idx: int): nat
  {
    if idx == -1 then 0 else 1
  }

  ghost predicate ValidLoc<K, V>(a: DictHt<K, V>, b: DictHt<K, V>, l: Loc)
  {
    l.gen <= 1 && l.idx < |Gen(a, b, l.gen).table| && l.pos < |Gen(a, b, l.gen).table[l.idx]|
  }

  function At<K, V>(a: DictHt<K, V>, b: DictHt<K, V>, l: Loc): Entry<K, V>
    requires ValidLoc(a, b, l)
  {
    Gen(a, b, l.gen).table[l.idx][l.pos]
  }

  /** The entry at a location is held. */
  lemma LocHeld<K, V>(a: DictHt<K, V>, b: DictHt<K, V>, l: Loc)
    requires ValidLoc(a, b, l)
    ensures At(a, b, l) in Held(a, b)
  {
    BucketInFlatten(Gen(a, b, l.gen).table, l.idx, l.pos);
    HeldIsFlatten(a, b);
  }

  /** The entry of `m` whose key compares equal to `key`, if there is
      one. */
  ghost function LookupIn<K, V>(t: DictType<K, V>, m: multiset<Entry<K, V>>, key: K): (r: Option<Entry<K, V>>)
    ensures r.Some? ==> r.value in m && Matches(t, key, r.value.key)
    ensures r.None? <==> forall e :: e in m ==> !Matches(t, key, e.key)
  {
    if exists e :: e in m && Matches(t, key, e.key) then
      var e :| e in m && Matches(t, key, e.key);
      Some(e)
    else
      None
  }

  /** With unique keys the entry a key finds is any held entry whose key
      matches it. */
  lemma LookupUnique<K(!new), V>(t: DictType<K, V>, m: multiset<Entry<K, V>>, key: K, e: Entry<K, V>)
    requires Consistent(t) && UniqueKeys(t, m) && e in m && Matches(t, key, e.key)
    ensures LookupIn(t, m, key) == Some(e)
  {
    UniqueMatch(t, m, key, e, LookupIn(t, m, key).value);
  }

  /** With unique keys, once the entry a key finds is taken out the key
      finds nothing. */
  lemma LookupAfterRemove<K(!new), V>(t: DictType<K, V>, m: multiset<Entry<K, V>>, key: K, e: Entry<K, V>)
    requires Consistent(t) && UniqueKeys(t, m) && e in m && Matches(t, key, e.key)
    ensures LookupIn(t, m - multiset{e}, key) == None
  {
    UniqueRemoveMiss(t, m, key, e);
  }

  /** A dictionary holding entries has buckets in `ht[0]`. */
  lemma HeldHasBuckets<K(!new), V>(t: DictType<K, V>, a: DictHt<K, V>, b: DictHt<K, V>, idx: int)
    requires TablesValid(t, a, b, idx) && |Held(a, b)| > 0
    ensures a.size > 0
  {
    HeldIsFlatten(a, b);
  }

  /** Nothing is found in generations that hold no entries. */
  lemma EmptyFindsNothing<K(!new), V>(t: DictType<K, V>, a: DictHt<K, V>, b: DictHt<K, V>, idx: int, key: K)
    requires TablesValid(t, a, b, idx) && a.used == 0 && b.used == 0
    ensures LookupIn(t, Held(a, b), key) == None
  {
    HeldIsFlatten(a, b);
    assert Held(a, b) == multiset{};
  }

  /** Adding `e` and then replacing it by `e'`, which has the same key,
      adds `e'`, and a lookup of that key then finds `e'`. */
  lemma AddThenSet<K(!new), V>(t: DictType<K, V>, m0: multiset<Entry<K, V>>, m1: multiset<Entry<K, V>>, m2: multiset<Entry<K, V>>,
                                key: K, e: Entry<K, V>, e': Entry<K, V>)
    requires Consistent(t) && UniqueKeys(t, m2)
    requires m1 == m0 + multiset{e} && m2 == m1 - multiset{e} + multiset{e'}
    requires e'.key == e.key && Matches(t, key, e.key)
    ensures m2 == m0 + multiset{e'}
    ensures LookupIn(t, m2, key) == Some(e')
  {
    assert m1 - multiset{e} == m0;
    LookupUnique(t, m2, key, e');
  }

  /** The chain walk of the lookups: the first position whose key is
      `key` itself or compares equal to it. */
  method SearchChain<K(==), V>(t: DictType<K, V>, c: seq<Entry<K, V>>, key: K) returns (j: Option<nat>)
    ensures j == ChainFind(t, c, key)
  {
    var k := 0;
    while k < |c|
      invariant k <= |c|
      invariant forall i :: 0 <= i < k ==> !Matches(t, key, c[i].key)
    {
      if key == c[k].key || CompareKeys(t, key, c[k].key) {
        return Some(k);
      }
      k := k + 1;
    }
    return None;
  }

  /** A key whose bucket in `ht[0]`, and while rehashing in `ht[1]`, has
      no matching entry finds nothing. */
  lemma MissMeansAbsent<K(!new), V>(t: DictType<K, V>, a: DictHt<K, V>, b: DictHt<K, V>, idx: int, key: K)
    requires TablesValid(t, a, b, idx) && a.size > 0
    requires ChainFind(t, a.table[KeyBucket(t, a, key)], key).None?
    requires idx != -1 ==> ChainFind(t, b.table[KeyBucket(t, b, key)], key).None?
    ensures LookupIn(t, Held(a, b), key) == None
  {
    HeldIsFlatten(a, b);
    forall e | e in Held(a, b)
      ensures !Matches(t, key, e.key)
    {
      if Matches(t, key, e.key) {
        if e in multiset(Flatten(a.table)) {
          SearchFindsHeld(t, a, key, e);
        } else {
          SearchFindsHeld(t, b, key, e);
        }
        assert false;
      }
    }
  }

  /** The search of dictFind, dictGenericDelete and _dictKeyIndex: the
      bucket of the key's hash in `ht[0]`, then, while rehashing, in
      `ht[1]`.  It finds the location of the entry the key finds, and
      nothing exactly when no held entry matches. */
  method FindLoc<K(==, !new), V>(t: DictType<K, V>, a: DictHt<K, V>, b: DictHt<K, V>, idx: int, key: K) returns (r: Option<Loc>)
    requires TablesValid(t, a, b, idx) && a.size > 0
    ensures r.Some? ==> ValidLoc(a, b, r.value) && LookupIn(t, Held(a, b), key) == Some(At(a, b, r.value))
    ensures r.Some? && r.value.gen == 1 ==> idx != -1
    ensures r.None? <==> LookupIn(t, Held(a, b), key) == None
  {
    var i := KeyBucket(t, a, key);
    var j := SearchChain(t, a.table[i], key);
    if j.Some? {
      r := Some(Loc(0, i, j.value));
      LocHeld(a, b, r.value);
      LookupUnique(t, Held(a, b), key, At(a, b, r.value));
      return;
    }
    if idx != -1 {
      i := KeyBucket(t, b, key);
      j := SearchChain(t, b.table[i], key);
      if j.Some? {
        r := Some(Loc(1, i, j.value));
        LocHeld(a, b, r.value);
        LookupUnique(t, Held(a, b), key, At(a, b, r.value));
        return;
      }
    }
    MissMeansAbsent(t, a, b, idx, key);
    return None;
  }

  /** A change to the generations that keeps them well-formed, keeps the
      reset table while not rehashing, keeps the sizes and the drained
      buckets before the cursor while rehashing, and keeps the keys
      unique keeps the invariant. */
  lemma TablesValidAfter<K(!new), V>(t: DictType<K, V>, a: DictHt<K, V>, b: DictHt<K, V>, idx: int,
                                     a': DictHt<K, V>, b': DictHt<K, V>, m: multiset<Entry<K, V>>)
    requires TablesValid(t, a, b, idx)
    requires HtValid(a', t.hashFunction) && HtValid(b', t.hashFunction)
    requires idx == -1 ==> b' == b
    requires idx != -1 ==> a'.size == a.size && b'.size == b.size && forall i :: 0 <= i < idx ==> a'.table[i] == []
    requires UniqueKeys(t, m) && Held(a', b') == m
    ensures TablesValid(t, a', b', idx)
  {
  }

  lemma UnionAdd<T>(p: multiset<T>, q: multiset<T>, p': multiset<T>, y: multiset<T>)
    requires p' == p + y
    ensures p' + q == (p + q) + y && q + p' == (q + p) + y
  {
  }

  lemma UnionRemove<T>(p: multiset<T>, q: multiset<T>, p': multiset<T>, x: T)
    requires x in p && p' == p - multiset{x}
    ensures p' + q == (p + q) - multiset{x} && q + p' == (q + p) - multiset{x}
  {
  }

  lemma UnionReplace<T>(p: multiset<T>, q: multiset<T>, p': multiset<T>, x: T, y: T)
    requires x in p && p' == p - multiset{x} + multiset{y}
    ensures p' + q == (p + q) - multiset{x} + multiset{y} && q + p' == (q + p) - multiset{x} + multiset{y}
  {
  }

  /** Adding entries to one generation adds them to those held. */
  lemma HeldAdd<K, V>(a: DictHt<K, V>, b: DictHt<K, V>, g: nat, ht': DictHt<K, V>, y: multiset<Entry<K, V>>)
    requires multiset(Flatten(ht'.table)) == multiset(Flatten(Gen(a, b, g).table)) + y
    ensures g == 0 ==> Held(ht', b) == Held(a, b) + y
    ensures g != 0 ==> Held(a, ht') == Held(a, b) + y
  {
    HeldIsFlatten(a, b);
    HeldIsFlatten(ht', b);
    HeldIsFlatten(a, ht');
    var pa, pb, p' := multiset(Flatten(a.table)), multiset(Flatten(b.table)), multiset(Flatten(ht'.table));
    if g == 0 {
      UnionAdd(pa, pb, p', y);
    } else {
      UnionAdd(pb, pa, p', y);
    }
  }

  /** Taking entries out of one generation takes them out of those held. */
  lemma HeldRemove<K, V>(a: DictHt<K, V>, b: DictHt<K, V>, g: nat, ht': DictHt<K, V>, x: Entry<K, V>)
    requires x in multiset(Flatten(Gen(a, b, g).table))
    requires multiset(Flatten(ht'.table)) == multiset(Flatten(Gen(a, b, g).table)) - multiset{x}
    ensures g == 0 ==> Held(ht', b) == Held(a, b) - multiset{x}
    ensures g != 0 ==> Held(a, ht') == Held(a, b) - multiset{x}
  {
    HeldIsFlatten(a, b);
    HeldIsFlatten(ht', b);
    HeldIsFlatten(a, ht');
    var pa, pb, p' := multiset(Flatten(a.table)), multiset(Flatten(b.table)), multiset(Flatten(ht'.table));
    if g == 0 {
      UnionRemove(pa, pb, p', x);
    } else {
      UnionRemove(pb, pa, p', x);
    }
  }

  /** Replacing entries of one generation replaces them among those
      held. */
  lemma HeldReplace<K, V>(a: DictHt<K, V>, b: DictHt<K, V>, g: nat, ht': DictHt<K, V>, x: Entry<K, V>, y: Entry<K, V>)
    requires x in multiset(Flatten(Gen(a, b, g).table))
    requires multiset(Flatten(ht'.table)) == multiset(Flatten(Gen(a, b, g).table)) - multiset{x} + multiset{y}
    ensures g == 0 ==> Held(ht', b) == Held(a, b) - multiset{x} + multiset{y}
    ensures g != 0 ==> Held(a, ht') == Held(a, b) - multiset{x} + multiset{y}
  {
    HeldIsFlatten(a, b);
    HeldIsFlatten(ht', b);
    HeldIsFlatten(a, ht');
    var pa, pb, p' := multiset(Flatten(a.table)), multiset(Flatten(b.table)), multiset(Flatten(ht'.table));
    if g == 0 {
      UnionReplace(pa, pb, p', x, y);
    } else {
      UnionReplace(pb, pa, p', x, y);
    }
  }

  /** The link step of dictAddRaw: `e`, whose key matches `key`, which no
      held entry matches, goes to the head of bucket `bucket`, the one
      `key` selects in the generation new entries go to. */
  method InsertEntry<K(!new), V>(t: DictType<K, V>, a: DictHt<K, V>, b: DictHt<K, V>, idx: int, bucket: nat, key: K, e: Entry<K, V>)
      returns (a': DictHt<K, V>, b': DictHt<K, V>, l: Loc)
    requires TablesValid(t, a, b, idx) && a.size > 0
    requires bucket == KeyBucket(t, Gen(a, b, Target(idx)), key)
    requires Matches(t, key, e.key) && LookupIn(t, Held(a, b), key) == None
    ensures TablesValid(t, a', b', idx) && Held(a', b') == Held(a, b) + multiset{e}
    ensures l == Loc(Target(idx), bucket, 0) && ValidLoc(a', b', l) && At(a', b', l) == e
    ensures a'.size == a.size && b'.size == b.size
  {
    var ht := Gen(a, b, Target(idx));
    var ht' := PushFront(ht, bucket, e);
    l := Loc(Target(idx), bucket, 0);
    if idx == -1 {
      a', b' := ht', b;
    } else {
      a', b' := a, ht';
    }
    InsertValid(t, a, b, idx, bucket, key, e, ht', a', b');
  }

  lemma InsertValid<K(!new), V>(t: DictType<K, V>, a: DictHt<K, V>, b: DictHt<K, V>, idx: int, bucket: nat, key: K, e: Entry<K, V>,
                                ht': DictHt<K, V>, a': DictHt<K, V>, b': DictHt<K, V>)
    requires TablesValid(t, a, b, idx) && a.size > 0
    requires bucket == KeyBucket(t, Gen(a, b, Target(idx)), key)
    requires Matches(t, key, e.key) && LookupIn(t, Held(a, b), key) == None
    requires ht' == PushFront(Gen(a, b, Target(idx)), bucket, e)
    requires if idx == -1 then a' == ht' && b' == b else a' == a && b' == ht'
    ensures TablesValid(t, a', b', idx) && Held(a', b') == Held(a, b) + multiset{e}
  {
    var ht := Gen(a, b, Target(idx));
    assert HtValid(ht', t.hashFunction) by {
      assert HashAgrees(t, key, e.key);
      PushFrontValid(ht, t.hashFunction, bucket, e);
    }
    assert Held(a', b') == Held(a, b) + multiset{e} by {
      HeldAdd(a, b, Target(idx), ht', multiset{e});
    }
    assert UniqueKeys(t, Held(a, b) + multiset{e}) by {
      UniqueAdd(t, Held(a, b), key, e);
    }
    TablesValidAfter(t, a, b, idx, a', b', Held(a, b) + multiset{e});
  }

  /** dictSetVal on a held entry: `e`, with the same key, takes the place
      of the entry at `l`. */
  method ReplaceEntry<K(!new), V>(t: DictType<K, V>, a: DictHt<K, V>, b: DictHt<K, V>, idx: int, l: Loc, e: Entry<K, V>)
      returns (a': DictHt<K, V>, b': DictHt<K, V>)
    requires TablesValid(t, a, b, idx) && ValidLoc(a, b, l) && e.key == At(a, b, l).key
    ensures TablesValid(t, a', b', idx) && Held(a', b') == Held(a, b) - multiset{At(a, b, l)} + multiset{e}
    ensures ValidLoc(a', b', l) && At(a', b', l) == e
    ensures a'.size == a.size && b'.size == b.size
  {
    var ht' := ReplaceAt(Gen(a, b, l.gen), l.idx, l.pos, e);
    if l.gen == 0 {
      a', b' := ht', b;
      ReplaceValid0(t, a, b, idx, l, e, ht', a', b');
    } else {
      a', b' := a, ht';
      ReplaceValid1(t, a, b, idx, l, e, ht', a', b');
    }
  }

  /** The entry dictAdd and dictReplace create for `key` and `val`: its
      key set by dictSetKey, then its value by dictSetVal. */
  function NewEntry<K, V>(t: DictType<K, V>, key: K, val: V): (e: Entry<K, V>)
    ensures e.key == SetKey(t, Entry(key, val), key).key
  {
    SetVal(t, SetKey(t, Entry(key, val), key), val)
  }

  /** dictSetVal on the entry dictAddRaw has just linked in for `key`:
      what was added becomes the entry of `key` and `val`, and a lookup of
      `key` finds it. */
  method SetAddedVal<K(!new), V>(t: DictType<K, V>, a: DictHt<K, V>, b: DictHt<K, V>, idx: int, l: Loc, key: K, val: V,
                                 ghost m: multiset<Entry<K, V>>)
      returns (a': DictHt<K, V>, b': DictHt<K, V>)
    requires TablesValid(t, a, b, idx) && ValidLoc(a, b, l) && At(a, b, l) == SetKey(t, Entry(key, val), key)
    requires Held(a, b) == m + multiset{At(a, b, l)}
    ensures TablesValid(t, a', b', idx) && Held(a', b') == m + multiset{NewEntry(t, key, val)}
    ensures LookupIn(t, Held(a', b'), key) == Some(NewEntry(t, key, val))
  {
    var e := At(a, b, l);
    a', b' := ReplaceEntry(t, a, b, idx, l, SetVal(t, e, val));
    assert DupMatches(t, key);
    AddThenSet(t, m, Held(a, b), Held(a', b'), key, e, NewEntry(t, key, val));
  }

  /** dictSetVal on the entry found for `key`: it keeps its key and takes
      `val` as its value. */
  method UpdateVal<K(!new), V>(t: DictType<K, V>, a: DictHt<K, V>, b: DictHt<K, V>, idx: int, l: Loc, key: K, val: V)
      returns (a': DictHt<K, V>, b': DictHt<K, V>, aux: Entry<K, V>)
    requires TablesValid(t, a, b, idx) && ValidLoc(a, b, l) && LookupIn(t, Held(a, b), key) == Some(At(a, b, l))
    ensures LookupIn(t, Held(a, b), key) == Some(aux)
    ensures TablesValid(t, a', b', idx) && Held(a', b') == Held(a, b) - multiset{aux} + multiset{SetVal(t, aux, val)}
    ensures LookupIn(t, Held(a', b'), key) == Some(SetVal(t, aux, val))
  {
    aux := At(a, b, l);
    a', b' := ReplaceEntry(t, a, b, idx, l, SetVal(t, aux, val));
    LocHeld(a', b', l);
    LookupUnique(t, Held(a', b'), key, SetVal(t, aux, val));
  }

  /** The search and unlink of dictGenericDelete: the entry found for
      `key`, if any, taken out of its chain. */
  method UnlinkKey<K(==, !new), V>(t: DictType<K, V>, a: DictHt<K, V>, b: DictHt<K, V>, idx: int, key: K)
      returns (a': DictHt<K, V>, b': DictHt<K, V>, r: Option<Entry<K, V>>)
    requires TablesValid(t, a, b, idx) && |Held(a, b)| > 0
    ensures TablesValid(t, a', b', idx) && r == LookupIn(t, Held(a, b), key)
    ensures r.None? ==> a' == a && b' == b
    ensures r.Some? ==> Held(a', b') == Held(a, b) - multiset{r.value}
    ensures LookupIn(t, Held(a', b'), key) == None
  {
    HeldHasBuckets(t, a, b, idx);
    var l := FindLoc(t, a, b, idx, key);
    if l.None? {
      return a, b, None;
    }
    r := Some(At(a, b, l.value));
    a', b' := RemoveEntry(t, a, b, idx, l.value, key);
  }

  /** Replacing an entry of `ht[0]` keeps the invariant. */
  lemma ReplaceValid0<K(!new), V>(t: DictType<K, V>, a: DictHt<K, V>, b: DictHt<K, V>, idx: int, l: Loc, e: Entry<K, V>,
                                 ht': DictHt<K, V>, a': DictHt<K, V>, b': DictHt<K, V>)
    requires TablesValid(t, a, b, idx) && ValidLoc(a, b, l) && e.key == At(a, b, l).key
    requires ht' == ReplaceAt(Gen(a, b, l.gen), l.idx, l.pos, e)
    requires l.gen == 0 && a' == ht' && b' == b
    ensures TablesValid(t, a', b', idx) && Held(a', b') == Held(a, b) - multiset{At(a, b, l)} + multiset{e}
  {
    var ht := Gen(a, b, l.gen);
    ghost var m := Held(a, b) - multiset{At(a, b, l)} + multiset{e};
    assert HtValid(ht', t.hashFunction) by {
      ReplaceAtValid(ht, t.hashFunction, l.idx, l.pos, e);
    }
    assert Held(a', b') == m by {
      HeldReplace(a, b, l.gen, ht', At(a, b, l), e);
    }
    assert UniqueKeys(t, m) by {
      LocHeld(a, b, l);
      UniqueReplace(t, Held(a, b), At(a, b, l), e);
    }
    TablesValidAfter(t, a, b, idx, a', b', m);
  }

  /** Replacing an entry of `ht[1]` keeps the invariant. */
  lemma ReplaceValid1<K(!new), V>(t: DictType<K, V>, a: DictHt<K, V>, b: DictHt<K, V>, idx: int, l: Loc, e: Entry<K, V>,
                                 ht': DictHt<K, V>, a': DictHt<K, V>, b': DictHt<K, V>)
    requires TablesValid(t, a, b, idx) && ValidLoc(a, b, l) && e.key == At(a, b, l).key
    requires ht' == ReplaceAt(Gen(a, b, l.gen), l.idx, l.pos, e)
    requires l.gen != 0 && a' == a && b' == ht'
    ensures TablesValid(t, a', b', idx) && Held(a', b') == Held(a, b) - multiset{At(a, b, l)} + multiset{e}
  {
    var ht := Gen(a, b, l.gen);
    ghost var m := Held(a, b) - multiset{At(a, b, l)} + multiset{e};
    assert HtValid(ht', t.hashFunction) by {
      ReplaceAtValid(ht, t.hashFunction, l.idx, l.pos, e);
    }
    assert Held(a', b') == m by {
      HeldReplace(a, b, l.gen, ht', At(a, b, l), e);
    }
    assert UniqueKeys(t, m) by {
      LocHeld(a, b, l);
      UniqueReplace(t, Held(a, b), At(a, b, l), e);
    }
    TablesValidAfter(t, a, b, idx, a', b', m);
  }

  /** The unlink step of dictGenericDelete: the entry at `l`, whose key
      matches `key`, leaves its chain, after which `key` finds nothing. */
  method RemoveEntry<K(!new), V>(t: DictType<K, V>, a: DictHt<K, V>, b: DictHt<K, V>, idx: int, l: Loc, key: K)
      returns (a': DictHt<K, V>, b': DictHt<K, V>)
    requires TablesValid(t, a, b, idx) && ValidLoc(a, b, l) && Matches(t, key, At(a, b, l).key)
    ensures TablesValid(t, a', b', idx) && Held(a', b') == Held(a, b) - multiset{At(a, b, l)}
    ensures LookupIn(t, Held(a', b'), key) == None
    ensures a'.size == a.size && b'.size == b.size
  {
    var ht := Gen(a, b, l.gen);
    RemoveAtValid(ht, t.hashFunction, l.idx, l.pos);
    var ht' := RemoveAt(ht, l.idx, l.pos);
    if l.gen == 0 {
      a', b' := ht', b;
      RemoveValid0(t, a, b, idx, l, ht', a', b');
    } else {
      a', b' := a, ht';
      RemoveValid1(t, a, b, idx, l, ht', a', b');
    }
    LocHeld(a, b, l);
    LookupAfterRemove(t, Held(a, b), key, At(a, b, l));
  }

  /** Unlinking from `ht[0]` keeps the invariant. */
  lemma RemoveValid0<K(!new), V>(t: DictType<K, V>, a: DictHt<K, V>, b: DictHt<K, V>, idx: int, l: Loc,
                                ht': DictHt<K, V>, a': DictHt<K, V>, b': DictHt<K, V>)
    requires TablesValid(t, a, b, idx) && ValidLoc(a, b, l)
    requires HtValid(ht', t.hashFunction) && ht'.size == Gen(a, b, l.gen).size
    requires multiset(Flatten(ht'.table)) == multiset(Flatten(Gen(a, b, l.gen).table)) - multiset{At(a, b, l)}
    requires forall i :: 0 <= i < |ht'.table| && i != l.idx ==> ht'.table[i] == Gen(a, b, l.gen).table[i]
    requires l.gen == 0 && a' == ht' && b' == b
    ensures TablesValid(t, a', b', idx) && Held(a', b') == Held(a, b) - multiset{At(a, b, l)}
  {
    ghost var m := Held(a, b) - multiset{At(a, b, l)};
    assert Held(a', b') == m by {
      LocHeld(a, b, l);
      BucketInFlatten(Gen(a, b, l.gen).table, l.idx, l.pos);
      HeldRemove(a, b, l.gen, ht', At(a, b, l));
    }
    assert UniqueKeys(t, m) by {
      UniqueRemove(t, Held(a, b), At(a, b, l));
    }
    TablesValidAfter(t, a, b, idx, a', b', m);
  }

  /** Unlinking from `ht[1]` keeps the invariant. */
  lemma RemoveValid1<K(!new), V>(t: DictType<K, V>, a: DictHt<K, V>, b: DictHt<K, V>, idx: int, l: Loc,
                                ht': DictHt<K, V>, a': DictHt<K, V>, b': DictHt<K, V>)
    requires TablesValid(t, a, b, idx) && ValidLoc(a, b, l)
    requires HtValid(ht', t.hashFunction) && ht'.size == Gen(a, b, l.gen).size
    requires multiset(Flatten(ht'.table)) == multiset(Flatten(Gen(a, b, l.gen).table)) - multiset{At(a, b, l)}
    requires forall i :: 0 <= i < |ht'.table| && i != l.idx ==> ht'.table[i] == Gen(a, b, l.gen).table[i]
    requires l.gen != 0 && a' == a && b' == ht'
    ensures TablesValid(t, a', b', idx) && Held(a', b') == Held(a, b) - multiset{At(a, b, l)}
  {
    ghost var m := Held(a, b) - multiset{At(a, b, l)};
    assert Held(a', b') == m by {
      LocHeld(a, b, l);
      BucketInFlatten(Gen(a, b, l.gen).table, l.idx, l.pos);
      HeldRemove(a, b, l.gen, ht', At(a, b, l));
    }
    assert UniqueKeys(t, m) by {
      UniqueRemove(t, Held(a, b), At(a, b, l));
    }
    TablesValidAfter(t, a, b, idx, a', b', m);
  }

  /** The inner loop of _dictClear: each entry of a chain, from its head
      on, has its key and value released. */
  method ReleaseChain<K, V>(t: DictType<K, V>, c: seq<Entry<K, V>>) returns (log: seq<Release<K, V>>)
    ensures log == FreeAll(t, c)
  {
    log := [];
    var k := 0;
    while k < |c|
      invariant 0 <= k <= |c|
      invariant log == FreeAll(t, c[..k])
    {
      FreeAllSnoc(t, c[..k], c[k]);
      assert c[..k + 1] == c[..k] + [c[k]];
      log := log + FreeKey(t, c[k]) + FreeVal(t, c[k]);
      k := k + 1;
    }
    assert c[..k] == c;
  }

  /** The walk of _dictClear over one generation: bucket by bucket, each
      chain released, stopping once `used` entries are released. */
  method ClearTable<K, V>(t: DictType<K, V>, ht: DictHt<K, V>) returns (log: seq<Release<K, V>>)
    requires |ht.table| == ht.size && ht.used == |Flatten(ht.table)|
    ensures log == FreeAll(t, Flatten(ht.table))
  {
    log := [];
    var left: nat := ht.used;
    var i := 0;
    while i < ht.size && left > 0
      invariant 0 <= i <= ht.size
      invariant left + |Flatten(ht.table[..i])| == ht.used
      invariant log == FreeAll(t, Flatten(ht.table[..i]))
    {
      var freed := ReleaseChain(t, ht.table[i]);
      FlattenPrefix(ht.table, i);
      FlattenConcat(ht.table[..i + 1], ht.table[i + 1..]);
      assert ht.table[..i + 1] + ht.table[i + 1..] == ht.table;
      FreeAllConcat(t, Flatten(ht.table[..i]), ht.table[i]);
      log := log + freed;
      left := left - |ht.table[i]|;
      i := i + 1;
    }
    if i < ht.size {
      FlattenAllCounted(ht.table, i);
    } else {
      assert ht.table[..i] == ht.table;
    }
  }
}
