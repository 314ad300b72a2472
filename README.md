# Redis 4.0 dict, sds header and adlist, modelled in Dafny

This project models three sequential data structures of redis 4.0.10 and
proves what their headers promise about them.

- **dict** (modules `DictBits`, `DictPolicy`, `DictTable`, `DictState`,
  `DictOps`, `Dict`). This is the chained hash table with incremental
  rehashing.
  - A dictionary owns two table generations, `ht[0]` and `ht[1]`. Each
    generation has a bucket array, `size`, `sizemask` and `used`.
  - `rehashidx` is the rehash cursor, -1 when no rehash is in progress.
  - `iterators` counts the safe iterators that are running.
  - The generations are values: a `DictHt` holds the table as a sequence of
    chains. The operations on them are in `DictState` and `DictOps`.
  - The class `Dict.Dict` holds the dictionary's fields and updates them in
    place. Each of its methods applies the `DictOps` operation of the same
    name to its fields.
  - `Valid()` is the invariant every method keeps:
    - each generation's `sizemask` is `size - 1`, its size is a power of two
      and its `used` counts its entries;
    - every entry sits in the bucket its hash selects;
    - outside a rehash `ht[1]` is the reset table;
    - during a rehash the buckets of `ht[0]` before the cursor are empty;
    - no two entries have keys that compare equal.
  - `Contents()` is the multiset of entries of both generations. A lookup
    in it (`LookupIn`) is what `dictFind` returns.
  - The destructor calls a method makes are appended to the ghost sequence
    `Released`.
- **sds header** (module `SdsHeader`). There are five header layouts, told
  apart by the low three bits of `flags`. The inline getters and setters
  dispatch on those bits. The packed byte layout is a datatype with one
  variant per header struct, and field widths are explicit bounded integer
  types. C's unsigned truncation and the `int` promotion in `sdsavail` are
  written out.
- **adlist** (module `AdList`). This is the doubly linked list with a node
  count, and iterators that walk in either direction. Nodes are heap
  objects whose `prev`/`next` links the operations rewrite in place. The
  ghost sequence `Nodes` lists them from head to tail, and `Contents` lists
  their values.

The key hash, `keyDup`, `valDup` and `keyCompare` are uninterpreted
functions supplied in the `DictType` value. The destructors are flags
saying whether one is set. The BGSAVE-dependent `dict_can_resize` switch,
which `dictEnableResize` and `dictDisableResize` flip, is the `canResize`
parameter of the operations that consult it.

### Where the model follows the implementation rather than the comments

The dict.h header declares dictExpand, dictAdd, dictRehash and the other
API functions but gives no bodies. dict.c, adlist.c and sds.c are not part
of this model. The bodies are taken to behave as the redis 4.0.10
implementation does. Where that differs from the Chinese doc-comments of
dict.h, the model follows the implementation:

- **Forced expansion.** While resizing is disabled, `_dictExpandIfNeeded`
  tests the integer quotient `used / size > dict_force_resize_ratio`
  (5), with `used >= size`. That means at least 6 entries per bucket, not
  the load factor of at least 5 that dict.h:181 states. `DictPolicy.ExpandRule`
  proves that this quotient test holds exactly when `used >= 6 * size`, and
  that while resizing is allowed the test is `used >= size`.
- **Rehash budget.** `dictRehash` counts its `10 * n` budget against empty
  buckets only. So up to `10 * n` empty buckets and `n` non-empty ones are
  visited, not `10 * n` buckets in all as dict.h:238 says.
- **Expansion size.** `_dictExpandIfNeeded` asks for `used * 2`, computed in
  64-bit `unsigned long` arithmetic. `dictExpand` refuses a size below
  `used`, as well as one whose power of two is the current size.
- **Resize target.** `dictResize` keeps `ht[0].used` in an `int minimal`.
  From 2^31 entries on, the conversion keeps only the low 32 bits as a
  signed value, which is below the entry count, so `dictExpand` refuses
  and `dictResize` answers DICT_ERR. `DictPolicy.ResizeTarget` writes this
  conversion out.

## Model

| member | source | states |
|---|---|---|
| DictBits.MaskIsMod | redis-4.0.10/src/dict.h:84-86 | for a power-of-two size, `hash & sizemask` with `sizemask == size - 1` is `hash % size`, so the mask selects a bucket of the table |
| DictBits.NextPowIsNextPower | redis-4.0.10/src/dict.h:124-125 | the size a table is created with is a power of two, at least DICT_HT_INITIAL_SIZE (4) and at least the size asked for; it is the smallest such power, and a request of LONG_MAX or more gets LONG_MAX + 1 |
| DictBits.NextPower | redis-4.0.10/src/dict.h:190-191 | the doubling loop dictExpand uses to round a size returns exactly the power of two NextPowIsNextPower describes |
| DictPolicy.ExpandRule | redis-4.0.10/src/dict.h:178-181 | with resizing allowed a table with buckets expands exactly when `used >= size` (load factor at least 1); with resizing held back exactly when `used >= 6 * size` (integer load factor above 5) |
| DictPolicy.ShrinkRule | redis-4.0.10/src/dict.h:182-183 | a table is shrunk exactly when it is bigger than the initial size and its load factor is under 0.1 (`10 * used < size`) |
| DictPolicy.ResizeTarget | redis-4.0.10/src/dict.h:212-213 | the size dictResize asks for is at least the initial size and at most INT_MAX. Up to INT_MAX entries it is also at least the entry count, and equal to either the count or the initial size. Beyond INT_MAX entries the `int` conversion makes it smaller than the count |
| DictPolicy.GrowTarget | redis-4.0.10/src/dict.h:179-180 | the size an expansion asks for is twice the entry count while that fits in 64 bits |
| DictPolicy.GrowRefusedOnlyOnWrap | redis-4.0.10/src/dict.h:179-181 | dictExpand refuses the doubled size of a full table only once the table holds 2^63 entries or more |
| DictPolicy.GrowMakesBigger | redis-4.0.10/src/dict.h:179-181 | when the expansion rule fires and the doubled size does not wrap, the new table is bigger than the old one |
| DictPolicy.ShrinkMakesSmaller | redis-4.0.10/src/dict.h:182-183 | when the shrink rule holds, the table dictResize asks for is smaller than the current one |
| DictTable.SetKey | redis-4.0.10/src/dict.h:152-157 | dictSetKey stores `keyDup(key)` when keyDup is set and `key` itself otherwise, and leaves the value alone |
| DictTable.SetVal | redis-4.0.10/src/dict.h:132-137 | dictSetVal stores `valDup(val)` when valDup is set and `val` itself otherwise, and leaves the key alone |
| DictTable.FreeKey | redis-4.0.10/src/dict.h:148-150 | dictFreeKey calls keyDestructor on the key when it is set and makes no call otherwise |
| DictTable.FreeVal | redis-4.0.10/src/dict.h:128-130 | dictFreeVal calls valDestructor on the value when it is set and makes no call otherwise |
| DictTable.CompareKeys | redis-4.0.10/src/dict.h:159-162 | dictCompareKeys is keyCompare's answer when it is set, and identity of the two keys otherwise |
| DictTable.FreeAllLength | redis-4.0.10/src/dict.h:232-233 | releasing n entries makes one key destructor call per entry when keyDestructor is set, one value destructor call per entry when valDestructor is set, and no other call |
| DictTable.SkipEmpty | redis-4.0.10/src/dict.h:238-239 | the empty-bucket walk of dictRehash passes only over empty buckets; it stops at the first non-empty one, or when exactly `budget` empty buckets have been visited with a positive budget |
| DictTable.PushChain | redis-4.0.10/src/dict.h:238-239 | moving a chain onto the new table keeps that table well-formed: each entry lands in the bucket its hash selects there, and the table gains exactly the chain's entries |
| DictTable.RehashBucket | redis-4.0.10/src/dict.h:238-239 | one bucket of dictRehash empties that bucket of `ht[0]`, lowers `ht[0].used` by its chain length, and keeps both tables well-formed and the entries of both together unchanged |
| DictTable.DrainedSwap | redis-4.0.10/src/dict.h:96-99 | once `ht[0]` is drained, `ht[1]` taking its place beside a reset table holds the same entries |
| DictState.RehashTables | redis-4.0.10/src/dict.h:238-239 | dictRehash(n) keeps the invariant and the entries. It moves at most `n` non-empty buckets and passes at most `10 * n` empty ones; it stops early only when one of those limits is reached. While the answer is 1 the cursor advances by the buckets visited and both tables keep their sizes. The answer is 0 exactly when the rehash has finished: the new `ht[0]` then has the size of the old `ht[1]`, and `ht[1]` is the reset table |
| DictState.SearchChain | redis-4.0.10/src/dict.h:159-162 | the chain walk returns the first position whose key is the key itself or compares equal to it, and nothing when there is none |
| DictState.FindLoc | redis-4.0.10/src/dict.h:208-209 | searching the key's bucket in `ht[0]`, then during a rehash in `ht[1]`, finds exactly the entry a lookup in the entries of both generations finds, and nothing exactly when no entry matches |
| DictState.MissMeansAbsent | redis-4.0.10/src/dict.h:208-209 | when neither searched bucket has a matching entry, no entry anywhere in the dictionary matches (the placement invariant makes the two-bucket search complete) |
| DictState.LookupUnique | redis-4.0.10/src/dict.h:192-193 | with unique keys, any held entry whose key matches is the one a lookup finds |
| DictState.EmptyFindsNothing | redis-4.0.10/src/dict.h:208-209 | in a dictionary with no entries every lookup finds nothing |
| DictState.InsertEntry | redis-4.0.10/src/dict.h:194-195 | dictAddRaw links the new entry at the head of its bucket, in `ht[1]` during a rehash and in `ht[0]` otherwise. The invariant holds afterwards and exactly that entry is added |
| DictState.NewEntry | redis-4.0.10/src/dict.h:192-193 | the entry dictAdd creates has the key dictSetKey stores |
| DictState.SetAddedVal | redis-4.0.10/src/dict.h:192-193 | setting the value of the entry just added gives the entry of the key and value, and a lookup of the key finds it |
| DictState.UpdateVal | redis-4.0.10/src/dict.h:198-199 | dictReplace's update of the existing entry keeps its key and stores the new value; the old entry is replaced by the updated one, which a lookup of the key then finds |
| DictState.UnlinkKey | redis-4.0.10/src/dict.h:200-203 | dictGenericDelete's search and unlink return the entry a lookup finds, remove exactly it, and leave no entry matching the key; with no match nothing changes |
| DictState.RemoveEntry | redis-4.0.10/src/dict.h:200-203 | taking the found entry out of its chain keeps the invariant, removes exactly that entry (`used` drops by one) and leaves no entry matching the key |
| DictState.ReleaseChain | redis-4.0.10/src/dict.h:232-233 | releasing a chain calls the key and value destructors of each entry in chain order |
| DictState.ClearTable | redis-4.0.10/src/dict.h:232-233 | clearing a generation releases all of its entries, bucket by bucket, and no other |
| DictOps.SizeIsCount | redis-4.0.10/src/dict.h:87-88 | `ht[0].used + ht[1].used` is the number of entries the dictionary holds |
| DictOps.Expand | redis-4.0.10/src/dict.h:190-191 | dictExpand is refused exactly during a rehash, for a size below `ht[0].used`, or for a size that rounds to the current size. Otherwise the new empty table of the rounded size becomes `ht[0]` when there is none, and the rehash target `ht[1]` with the cursor at 0 when there is. Entries are never changed |
| DictOps.RehashStep | redis-4.0.10/src/dict.h:100-101 | the one-bucket step of add, find and delete runs only during a rehash with no safe iterator running, and keeps the invariant and the entries |
| DictOps.ExpandIfNeeded | redis-4.0.10/src/dict.h:178-181 | `_dictExpandIfNeeded` does nothing during a rehash, gives a table without buckets the initial size, and otherwise expands exactly when the expansion rule holds. Expanding keeps `ht[0]` and starts a rehash into a new empty `ht[1]` of `_dictNextPower(used * 2)` buckets, which is bigger than `ht[0]`. It fails only when the doubled size wraps |
| DictOps.KeyIndex | redis-4.0.10/src/dict.h:194-195 | `_dictKeyIndex`, after a possible expansion, returns the existing entry a lookup finds (with index -1), or -1 alone when the table could not grow, or the bucket the key selects in the generation new entries go to when no entry matches |
| DictOps.AddRaw | redis-4.0.10/src/dict.h:194-195 | dictAddRaw returns one of three results. It returns the existing entry a lookup finds, leaving the entries as they were. It is refused only when the table cannot grow at 2^63 entries. Otherwise it returns a new entry whose key dictSetKey set, and that entry is the only one added |
| DictOps.Add | redis-4.0.10/src/dict.h:192-193 | dictAdd returns DICT_OK when no entry matched the key and the entry of the key and value was added, which a lookup then finds. It returns DICT_ERR with the entries unchanged when the key was present or the table could not grow |
| DictOps.Replace | redis-4.0.10/src/dict.h:198-199 | dictReplace returns 1 when the key was absent, adding its entry, and 0 when it was present, storing the new value in the existing entry. Either way a lookup then finds the entry with the new value. Only the old value is released, and only on an update |
| DictOps.GenericDelete | redis-4.0.10/src/dict.h:200-203 | the delete returns the entry a lookup finds and removes exactly it; afterwards the key finds nothing |
| DictOps.Find | redis-4.0.10/src/dict.h:208-209 | dictFind returns the entry whose key matches, or nothing. The entries do not change, and while a safe iterator runs neither do the tables |
| DictOps.Resize | redis-4.0.10/src/dict.h:212-213 | dictResize is refused while resizing is disabled or during a rehash. Otherwise it asks dictExpand for ResizeTarget(used). It is refused exactly when that size is below the entry count (from 2^31 entries on) or rounds to the current size. On success a dictionary without buckets gets that table as `ht[0]`; otherwise `ht[0]` is kept and a rehash starts into the new `ht[1]`. A table under the shrink threshold with at most INT_MAX entries is shrunk this way, to an `ht[1]` smaller than `ht[0]` |
| Dict.Dict.constructor | redis-4.0.10/src/dict.h:188-189 | dictCreate gives an empty, valid dictionary with both generations reset, no rehash and no iterators |
| Dict.Dict.Size | redis-4.0.10/src/dict.h:171 | dictSize is the number of entries held |
| Dict.Dict.Slots | redis-4.0.10/src/dict.h:170 | dictSlots is the number of buckets of both generations |
| Dict.Dict.IsRehashing | redis-4.0.10/src/dict.h:172 | the dictionary is rehashing (`rehashidx != -1`) exactly when `ht[1]` has buckets |
| Dict.Dict.Expand | redis-4.0.10/src/dict.h:190-191 | as DictOps.Expand, on the dictionary's fields: the same refusals, the same new table, entries unchanged |
| Dict.Dict.Rehash | redis-4.0.10/src/dict.h:238-239 | as DictState.RehashTables, including the table sizes after each answer. Outside a rehash it returns 0 and changes nothing |
| Dict.Dict.AddRaw | redis-4.0.10/src/dict.h:194-195 | as DictOps.AddRaw, on the dictionary's fields |
| Dict.Dict.SetVal | redis-4.0.10/src/dict.h:132-137 | dictSetVal on an entry the dictionary handed out: the entry at that location keeps its key and takes the value SetVal gives. Exactly that entry is replaced, the invariant holds and the table sizes stay |
| Dict.Dict.StartSafeIterator | redis-4.0.10/src/dict.h:217-219 | the first dictNext of a safe iterator raises the count of running iterators by one |
| Dict.Dict.ReleaseSafeIterator | redis-4.0.10/src/dict.h:221 | releasing a started safe iterator lowers the count of running iterators by one |
| Dict.Dict.Add | redis-4.0.10/src/dict.h:192-193 | as DictOps.Add, on the dictionary's fields |
| Dict.Dict.Replace | redis-4.0.10/src/dict.h:198-199 | as DictOps.Replace. The entries afterwards are the old ones with the key's entry added or updated, and `Released` gains exactly the old value's destructor call |
| Dict.Dict.Delete | redis-4.0.10/src/dict.h:200-201 | dictDelete returns DICT_OK when an entry matched, removing exactly it and releasing its key and then its value. It returns DICT_ERR with nothing changed when none matched. Afterwards the key finds nothing |
| Dict.Dict.Unlink | redis-4.0.10/src/dict.h:202-203 | dictUnlink removes the entry a lookup finds and returns it, releasing nothing; afterwards the key finds nothing |
| Dict.Dict.FreeUnlinkedEntry | redis-4.0.10/src/dict.h:204-205 | releases the key and then the value of an unlinked entry, and nothing for no entry |
| Dict.Dict.Find | redis-4.0.10/src/dict.h:208-209 | dictFind returns the entry a lookup of the key finds. The entries do not change, and while a safe iterator runs the tables and cursor do not change either |
| Dict.Dict.FetchValue | redis-4.0.10/src/dict.h:210-211 | dictFetchValue returns the value of the entry whose key matches, and nothing when no entry matches |
| Dict.Dict.Resize | redis-4.0.10/src/dict.h:212-213 | as DictOps.Resize, on the dictionary's fields: the same refusals, `ht[0]` kept when it has buckets, and the new table given exactly |
| Dict.Dict.Empty | redis-4.0.10/src/dict.h:232-233 | dictEmpty releases every entry, `ht[0]` first, then resets both generations, the cursor and the iterator count, leaving a valid, empty dictionary |
| SdsHeader.SdsType | redis-4.0.10/src/sds.h:93-95 | the header type is `flags & SDS_TYPE_MASK`: the low three bits, 0..7 |
| SdsHeader.Type5Len | redis-4.0.10/src/sds.h:98 | `SDS_TYPE_5_LEN(f)` is the high five bits of `flags`, so at most 31 |
| SdsHeader.SdsLen | redis-4.0.10/src/sds.h:100-116 | sdslen is the `len` field of the header's width, the high five bits for type 5, and 0 for types 5..7 of the mask |
| SdsHeader.SdsAvail | redis-4.0.10/src/sds.h:118-143 | sdsavail is 0 for type 5 and the unknown types. Whenever `len <= alloc`, sdsalloc is sdsavail plus sdslen |
| SdsHeader.SdsAlloc | redis-4.0.10/src/sds.h:195-212 | sdsalloc is the `alloc` field of the header's width; for type 5 it is the length, and it is 0 for the unknown types |
| SdsHeader.Type5Flags | redis-4.0.10/src/sds.h:149-153 | the byte `SDS_TYPE_5 \| (n << 3)` has type 5 and length `n mod 32` |
| SdsHeader.WithLen | redis-4.0.10/src/sds.h:145-168 | sdssetlen keeps the header type. Afterwards sdslen is `newlen`, truncated to the field's width (five bits for type 5), and sdsalloc is unchanged for types 8..64. The unknown types are untouched |
| SdsHeader.WithIncLen | redis-4.0.10/src/sds.h:170-193 | sdsinclen keeps the header type and raises sdslen by `inc` modulo the field's width, so exactly by `inc` when that does not overflow. sdsalloc is unchanged for types 8..64, and the unknown types are untouched |
| SdsHeader.WithAlloc | redis-4.0.10/src/sds.h:214-234 | sdssetalloc keeps the flags and the length; for types 8..64 sdsalloc afterwards is `newlen` truncated to the field's width; type 5 and the unknown types are untouched |
| SdsHeader.Sds.SetLen | redis-4.0.10/src/sds.h:146-168 | the in-place sdssetlen leaves the header WithLen describes |
| SdsHeader.Sds.IncLen | redis-4.0.10/src/sds.h:170-193 | the in-place sdsinclen leaves the header WithIncLen describes |
| SdsHeader.Sds.SetAlloc | redis-4.0.10/src/sds.h:215-234 | the in-place sdssetalloc leaves the header WithAlloc describes |
| AdList.List.constructor | redis-4.0.10/src/adlist.h:86 | listCreate gives an empty valid list without callbacks |
| AdList.List.SetFreeMethod | redis-4.0.10/src/adlist.h:77 | listSetFreeMethod sets whether a `free` callback is present |
| AdList.List.SetMatchMethod | redis-4.0.10/src/adlist.h:78 | listSetMatchMethod sets the `match` callback |
| AdList.List.Length | redis-4.0.10/src/adlist.h:64-69 | listLength, the `len` field, is the number of values in the list |
| AdList.List.First | redis-4.0.10/src/adlist.h:70 | listFirst is null exactly for the empty list, and otherwise the first node, holding the first value |
| AdList.List.Last | redis-4.0.10/src/adlist.h:71 | listLast is null exactly for the empty list, and otherwise the last node, holding the last value |
| AdList.List.AddNodeHead | redis-4.0.10/src/adlist.h:91-92 | a fresh node holding the value becomes the head; the other nodes follow in their old order and the length grows by one |
| AdList.List.AddNodeTail | redis-4.0.10/src/adlist.h:93-94 | a fresh node holding the value becomes the tail; the other nodes precede it in their old order and the length grows by one |
| AdList.List.InsertNode | redis-4.0.10/src/adlist.h:95-96 | a fresh node holding the value goes right after the old node when `after` is non-zero and right before it otherwise; the others keep their order |
| AdList.List.InsertAfter | redis-4.0.10/src/adlist.h:95-96 | the `after` case of listInsertNode: the new node follows the old node, and the tail moves when the old node was the tail |
| AdList.List.InsertBefore | redis-4.0.10/src/adlist.h:95-96 | the `before` case of listInsertNode: the new node precedes the old node, and the head moves when the old node was the head |
| AdList.List.DelNode | redis-4.0.10/src/adlist.h:97-98 | exactly the given node is removed; the others keep their order, the length drops by one, and its value goes to the `free` callback when one is set |
| AdList.List.Rotate | redis-4.0.10/src/adlist.h:112-113 | the tail node becomes the head; the others keep their order; lists of at most one node do not change |
| AdList.List.Join | redis-4.0.10/src/adlist.h:114-115 | the nodes of `o` are appended, in order, after those of the list, and `o` is left a valid empty list |
| AdList.List.Reset | redis-4.0.10/src/adlist.h:89-90 | the list itself is kept as an empty valid list |
| AdList.List.Empty | redis-4.0.10/src/adlist.h:89-90 | listEmpty removes every node, handing each value, head to tail, to the `free` callback when one is set, and keeps the list as an empty valid list |
| AdList.List.SearchKey | redis-4.0.10/src/adlist.h:105-106 | listSearchKey returns the first node from the head whose value matches the key (the `match` callback or equality), and null exactly when none matches |
| AdList.List.Index | redis-4.0.10/src/adlist.h:107 | listIndex counts from the head for a non-negative index and from the tail (-1 is the tail) for a negative one, and gives null out of range |
| AdList.Visit | redis-4.0.10/src/adlist.h:117-121 | the k-th node an iterator returns is the k-th from the head for AL_START_HEAD and the k-th from the tail otherwise |
| AdList.VisitValue | redis-4.0.10/src/adlist.h:99-101 | the k-th node visited holds the Visit-th value of the list |
| AdList.ListIter.constructor | redis-4.0.10/src/adlist.h:99 | listGetIterator starts at the head for AL_START_HEAD and at the tail otherwise |
| AdList.ListIter.Rewound | redis-4.0.10/src/adlist.h:108-109 | an iterator set up by listRewind starts at the head, travelling towards the tail |
| AdList.ListIter.Rewind | redis-4.0.10/src/adlist.h:108-109 | listRewind resets the iterator to the head, travelling towards the tail |
| AdList.ListIter.RewindTail | redis-4.0.10/src/adlist.h:110-111 | listRewindTail resets the iterator to the tail, travelling towards the head |
| AdList.ListIter.Next | redis-4.0.10/src/adlist.h:100-101 | listNext returns the current node and steps to its successor in the direction of travel; at the end it returns null |
| AdList.Traverse | redis-4.0.10/src/adlist.h:117-121 | draining a fresh iterator yields the values head to tail for AL_START_HEAD and tail to head for AL_START_TAIL |

## Left out

- dict.c, adlist.c and sds.c are not part of this model. The operations
  declared in the headers follow their comments and the redis 4.0.10
  behaviour described above.
- Dict.Dict.Replace: requires fewer than 2^63 entries (`ht[0].used + ht[1].used`,
  which DictOps.SizeIsCount equates with the entry count). At that size the
  table cannot grow, `dictAddRaw` returns NULL without setting `existing`,
  and `dictReplace` would dereference NULL. DictOps.Replace has the same
  precondition.
- The dict iterator object (`dictGetIterator`, `dictGetSafeIterator`,
  `dictNext`, `dictReleaseIterator`): its `d`, `index`, `table`, `safe`,
  `entry`, `nextEntry` and `fingerprint` fields and the walk `dictNext`
  makes over both tables are not modelled. Their bodies are in dict.c,
  which is not part of this model, and the unsafe-iterator fingerprint
  hashes pointer values. Only the effect a safe iterator has on the
  dictionary is kept. `Dict.Dict.StartSafeIterator` (its first `dictNext`)
  raises `iterators`, and `Dict.Dict.ReleaseSafeIterator` lowers it. While
  the count is positive the one-bucket rehash steps pause.
- DictOps.AddRaw / Dict.Dict.AddRaw: take a `val` argument that
  `dictAddRaw` does not have. It stands for the value C leaves unset in the
  new entry, because a value-level entry must hold some value. It is
  stored as given, without `valDup`. A caller completes the C sequence with
  `Dict.Dict.SetVal` on the returned location.
- `dictScan`, `dictGetRandomKey`, `dictGetSomeKeys`, `dictGetStats`,
  `dictGenHashFunction`, `dictGenCaseHashFunction`, the hash seed
  functions and `dictGetHash`: randomness, text formatting, and bodies
  that are not part of this model. The hash is an uninterpreted function.
- `dictRehashMilliseconds`: it is driven by the wall clock.
- `dictRelease`: it is `dictEmpty` followed by freeing the struct, and
  memory is not modelled.
- `dictAddOrFind`: it leaves the value of a new entry unset, which a
  value-level entry cannot express. `Dict.Dict.AddRaw` covers its search
  and insertion.
- The `u64`, `s64` and `d` members of the value union, with
  `dictSetSignedIntegerVal`, `dictSetUnsignedIntegerVal`,
  `dictSetDoubleVal` and the matching getters: values are an opaque type
  parameter, and `double` is floating point. `dictGetKey` and `dictGetVal`
  are the `key` and `val` fields of an `Entry`.
- `privdata` and the `dictEmpty` callback: the callbacks are pure
  functions of their own arguments, and the progress callback is foreign
  code.
- Entries are values, and a `Loc` (generation, bucket, chain position)
  stands for a `dictEntry *`. Pointer identity and aliasing of entries
  handed out to callers are not modelled. A C entry pointer stays valid
  while a rehash step moves the entry; a `Loc` describes the entry only
  until the next operation that may move a bucket.
- The invariant assumes a well-behaved type descriptor (`Consistent`):
  `keyCompare` is an equivalence that agrees with the hash, and `keyDup`
  yields an equal key. The C code relies on this without checking it.
- Bucket indexes are computed as `hash & sizemask` in unbounded
  arithmetic. Narrower index variables in the C code are not modelled.
- Allocation failure is not in scope, and neither is concurrency.
- `listRelease`, `listReleaseIterator`, `listDup` and the `dup` callback:
  memory release, and copying through a foreign callback. The `free`
  callback is a flag saying whether one is set, and the values it would
  receive are recorded in `Freed`.
- SDS allocation, formatting and string functions (`sdsnewlen` and the
  rest of sds.h after line 235): they are declared only.
- The packed byte layout of the SDS headers and the `s[-1]` access: each
  header is a datatype variant whose `flags` byte is read directly.
