# C-hash-table in Dafny

A model of `hash.c`, a small C hash table with separate chaining. Keys are
NUL-terminated strings hashed with djb2 (`h * 33 + c`, seed 5381, on the
64-bit `hash_t`). Values are opaque pointers. All entries live in one
arena that `hash_alloc` carves out of a single `malloc`: a bucket array of
`buckets` chain heads, then a pool of `cap` entry slots. Free slots form a
freelist of runs, called chunks. Each run header stores the run's size and
the next run, and overlays the `key` and `value` fields of the entry.
`hash_store` overwrites the value of a key already in the table. Otherwise
it takes the first slot of the head run and puts it at the head of the
key's chain. When the freelist is empty, `hash_store` first rebuilds the
table with `hash_resize`, doubling both buckets and slots, and searches
again. `hash_delete` unlinks the entry and pushes its slot on the
freelist. The iterator (`hash_iter_pairs`, `_keys`, `_values`) walks bucket
by bucket, each chain from its head, and remembers the last entry it
returned.

Layout of the project:

- `djb2.dfy`: `Hash33` is the hash as a fold over the key's bytes, modulo
  2^64. `HashCompute` is the loop of `hash_compute`, and its contract ties
  it to `Hash33`.
- `arena.dfy`: the freelist.
  - Runs (`Chunk`), their headers in the pool, and the `role` of every slot.
  - `FreeOk` is the freelist invariant.
  - Lemmas show how allocating and freeing a slot change both.
- `chains.dfy`: the chains as sequences of slot indices (`chains[b]`, head
  first).
  - `ChainsOk` ties the chains to `bucket`, to the `next` links, to the
    stored hashes, to the buckets the hashes select and to the abstract map
    `contents`.
  - Lemmas show how the chain search, linking a new head and unlinking an
    entry affect it.
- `order.dfy`: the concatenation of all chains (`Flat`) and the offset of
  each chain in it, which is the iteration order. Also the map a sequence
  of pairs stands for.
- `invariant.dfy`: `TableState`, a snapshot of the whole table, and its
  invariant `Inv`.
  - Each operation is a state transformer on snapshots: `AllocState`,
    `FreeState`, `LinkState`, `OverwriteState`, `UnlinkState`, `StoreState`,
    `DeleteState`, `ResizeState`, `Room`.
  - Lemmas show that each one keeps `Inv` and what it does to `contents`.
  - `Walk` is the sequence of pairs the iterator hands out. `WalkIsContents`
    shows it enumerates `contents` exactly once.
- `table.dfy`: the imperative model.
  - Class `HashTable<V>` has `bucket: array<int>`, with NIL for a NULL
    head, and `slots: array<Slot<V>>`, the pool. It also has the fields
    `freelist`, `buckets`, `count` and `cap`, and ghost fields for the
    chains, runs, roles and contents.
  - Each method of `hash.c` is proved against its state transformer:
    `ensures Snap() == StoreState(old(Snap()), ...)`.
  - The iterator fields are in class `Cursor`.
- `findings.dfy`: `hash_freelist_free_entry` as written, and the two
  defects it has (see Findings).

Pointers are slot indices. Strings are `seq<Byte>`, and `strcmp`
equality is sequence equality. `malloc` success is a boolean parameter.

`hash_resize` is sometimes described as reinserting entries with their
cached hashes. The code instead calls `hash_store` on each (key, value)
pair, which recomputes the hash, and the model follows the code. The result is
the same, because `Inv` shows that every stored hash equals `Hash33` of
its key.

The comment at hash.c:175-180 says the jump back to SEARCH_ENTRY happens
at most once. The model proves it: `Room` ensures that the resized table
has a free slot, so `Research` inserts without a second resize.

## Model

| member | source | states |
|---|---|---|
| Djb2.HashCompute | hash.c:10-20 | the loop returns djb2 of the key: seed 5381 and `h * 33 + c` for each byte, modulo 2^64 |
| Djb2.Hash33Append | hash.c:10-20 | the hash of the empty key is 5381, and appending a byte maps h to (h * 33 + c) mod 2^64 |
| Djb2.ShiftAddIsStep | hash.c:16 | `(h << 5) + h + c` on the 64-bit hash_t equals the step h * 33 + c modulo 2^64 |
| Arena.InitialFreeList | hash.c:69-71 | a pool whose slot 0 heads a run of all `cap` slots with no successor is a valid freelist holding `cap` free slots |
| Arena.EmptyIffNoFree | hash.c:170 | the freelist pointer is NULL exactly when no slot is free |
| Arena.AllocOk | hash.c:108-127 | allocation hands out the head slot; a run longer than 1 shrinks by one slot (its new header, one slot on, keeps the successor); a one-slot run gives way to its successor; the freelist stays valid, holds one slot fewer, no longer covers the slot handed out, and leaves chained slots untouched |
| Arena.FreePush | hash.c:129-134 | pushing a slot no run covers as a one-slot run whose successor is the old head gives a valid freelist with one more free slot (the corrected free) |
| Chains.SearchFinds | hash.c:154-163 | the chain walk of the key's bucket stops inside the chain exactly when the key is in the table, and there at an entry holding that key |
| Chains.SameKeySameEntry | hash.c:184-192 | no key is stored in two entries: two chain positions holding the same key are the same position |
| Order.EnumeratesContents | hash.c:324-337 | the pairs of all chains, bucket by bucket, have distinct keys, each with its value in the table, cover every key, and form exactly the table's map |
| Invariant.CountBounds | hash.c:287-289 | `count` is the total number of chained entries and at most `cap`; the freelist is NULL exactly when `count == cap` |
| Invariant.InitialInv | hash.c:43-74 | the table `hash_alloc` sets up (empty buckets, one run of all slots) is valid and empty |
| Invariant.LookupIsContents | hash.c:198-213 | searching the key's chain yields the key's value when the table holds the key and NULL otherwise |
| Invariant.AllocPreserves | hash.c:108-127 | on a non-NULL freelist the head slot is handed out and becomes reserved; the run split and the run drop write exactly the headers hash.c writes |
| Invariant.FreePreserves | hash.c:129-134 | freeing a reserved slot restores the invariant with one more free slot (the corrected free) |
| Invariant.LinkPreserves | hash.c:184-192 | linking a reserved slot holding a new key at the head of its chain keeps the invariant |
| Invariant.OverwritePreserves | hash.c:157-159 | giving a chained entry a new value keeps the invariant |
| Invariant.UnlinkPreserves | hash.c:229-245 | unlinking entry j of chain b reserves its slot and removes its key; for the head the bucket takes its successor and the slots stay; after that only `prev->next` changes |
| Invariant.StoreFound | hash.c:154-160 | when the walk finds the key, the store only overwrites that entry's value |
| Invariant.StoreNew | hash.c:168-194 | for a key not in the table and a non-NULL freelist, the store allocates the head slot and links it at the head of the chain |
| Invariant.StorePreserves | hash.c:136-195 | the store keeps the invariant and maps the key to the value; count grows by one exactly for a new key; an existing key leaves buckets, chains and freelist as they were; a new key heads its chain in the freelist's old head slot |
| Invariant.StoreThenLookup | hash.c:136-213 | after storing, fetching the key yields the new value and every other key yields what it yielded before |
| Invariant.DeleteFound | hash.c:215-251 | deleting a key the walk finds unlinks its entry and frees its slot |
| Invariant.DeletePreserves | hash.c:215-251 | delete keeps the invariant, removes exactly the key, lowers count by one exactly when the key was there, and does nothing otherwise |
| Invariant.DeleteIdempotent | hash.c:215-251 | deleting the same key twice is the same as deleting it once |
| Invariant.DeleteThenLookup | hash.c:198-251 | after deleting, fetching the key yields NULL and every other key yields what it yielded before |
| Invariant.WalkIsContents | hash.c:313-341 | the iteration sequence has `count` pairs with distinct keys, each with its value in the table, and covers every key |
| Invariant.WalkStep | hash.c:324-337 | entry j of chain i is pair Offset(i) + j of the iteration sequence |
| Invariant.Rehash | hash.c:91-99 | storing a sequence of pairs into a valid table with room for them keeps it valid and adds their map to its contents |
| Invariant.RehashStep | hash.c:95 | each store of the rebuild has room (the key is already there or the freelist is not NULL), and storing one more pair is one more `hash_store` |
| Invariant.ResizeState | hash.c:81-105 | the rebuilt table is valid, with the same contents and count, `n` buckets and max(n, c) slots, and its freelist is NULL exactly when it is full |
| Invariant.Room | hash.c:170-182 | making room keeps the invariant, the contents and the count, and afterwards the key is in the table or the freelist is not NULL |
| Table.Cursor.constructor | hash.c:67 | a fresh iterator is reset: no current entry |
| Table.HashTable.Alloc | hash.c:43-74 | `buckets0` NULL heads, max(buckets0, cap0) slots in one run, count 0, iterator reset; the result is valid and is InitialState |
| Table.HashTable.NewArena | hash.c:56-71 | the one allocation of `hash_alloc` with its NULL bucket heads and the single run header |
| Table.HashTable.New | hash.c:23-38 | NULL exactly when one of the two allocations fails; otherwise a valid empty table of 16 buckets and 32 slots, with fresh arrays and a fresh, reset iterator |
| Table.HashTable.FullIffNoFreelist | hash.c:170 | the freelist is NULL exactly when every slot holds an entry |
| Table.HashTable.Find | hash.c:205-212 | the walk of chain `h % buckets`, comparing stored hash and key, stops at the entry holding the key, found exactly when the key is in the table |
| Table.HashTable.Fetch | hash.c:198-213 | the key's value, or None (NULL) exactly when the table does not hold the key |
| Table.HashTable.Exists | hash.c:253-268 | true exactly when the table holds the key |
| Table.HashTable.ExistsPair | hash.c:270-285 | the pair (key, value) when the table holds the key, None (NULL) otherwise |
| Table.HashTable.Count | hash.c:287-289 | the number of keys, which is the number of chained entries and at most `cap` |
| Table.HashTable.AllocEntry | hash.c:108-127 | returns the old freelist head, performs AllocState, and leaves that slot reserved |
| Table.HashTable.SetValue | hash.c:157-159 | the entry takes the new value (OverwriteState) |
| Table.HashTable.InsertNew | hash.c:184-194 | a key not in the table goes into the freelist head slot at the head of its chain; the table stays valid and performs StoreState |
| Table.HashTable.Store | hash.c:136-195 | the result is false exactly when a resize is needed and its allocation fails, and then nothing changes: the fields, the iterator and every element of both arrays are as before; otherwise the table stays valid, the key maps to the value (after a resize to twice the buckets and slots when the freelist was NULL), and the iterator is reset exactly when a resize happened |
| Table.HashTable.StoreMiss | hash.c:168-194 | ALLOCATE_ENTRY for a missing key: either a direct insert, or resize then insert, or a failed resize that leaves fields, iterator and both arrays' elements unchanged |
| Table.HashTable.Grow | hash.c:170-182 | a full table is resized to twice the buckets and slots and searched again; the result is the allocation's outcome, and on failure the fields, the iterator and both arrays' elements are unchanged |
| Table.HashTable.Research | hash.c:144-194 | after a resize the second search misses and the entry goes in at ALLOCATE_ENTRY |
| Table.HashTable.Resize | hash.c:81-105 | on a failed allocation nothing changes; otherwise the table becomes ResizeState: the same contents in `n` buckets and max(n, c) slots, with the iterator reset |
| Table.HashTable.Rebuilt | hash.c:87-99 | a fresh table holding every entry of this one, stored in iteration order |
| Table.HashTable.Adopt | hash.c:101-102 | this table takes over the new table's arrays, counters and iterator |
| Table.HashTable.WalkPairs | hash.c:91-99 | the two loops read the pairs in iteration order: exactly Walk |
| Table.HashTable.ChainPairs | hash.c:93-98 | the inner loop appends the pairs of chain i, from its head |
| Table.HashTable.StoreEach | hash.c:95 | storing the pairs one by one into the fresh table performs Rehash, and no store needs to grow |
| Table.HashTable.Delete | hash.c:215-251 | the table stays valid and performs DeleteState: the key is gone and every other key keeps its value |
| Table.HashTable.FindPrev | hash.c:222-250 | the walk stops at the first entry holding the key (or NIL past the chain) and returns its predecessor (NIL for the head) |
| Table.HashTable.Detach | hash.c:229-245 | entry j leaves chain b through the bucket or through `prev->next`; count drops by one (UnlinkState) |
| Table.HashTable.LinkPast | hash.c:230 | the head case rewrites bucket[b] to the entry's successor; otherwise `prev->next` is rewritten, and nothing else changes |
| Table.HashTable.FreeEntry | hash.c:129-134 | the slot is pushed as a one-slot run whose successor is the old head (FreeState; the corrected free) |
| Table.HashTable.IterReset | hash.c:291-293 | the current entry becomes NULL and the remembered bucket is kept |
| Table.HashTable.IterPairs | hash.c:313-341 | call k (counted since the last reset) returns pair k of Walk; once all are handed out it returns None (NULL) and resets, and the table does not change |
| Table.HashTable.Locate | hash.c:318-337 | the search finds the entry at the iterator's position in the walk, or NIL exactly when the walk is used up |
| Table.HashTable.Resume | hash.c:318-326 | resuming starts at the successor of the last returned entry, or at the head of bucket 0 |
| Table.HashTable.Advance | hash.c:324-337 | skipping empty chain ends stops at the next entry in walk order, or at NIL past the last bucket |
| Table.HashTable.Visit | hash.c:330-332 | the iterator moves onto the found entry and returns its pair, the next one of the walk |
| Table.HashTable.PairAt | hash.c:332 | entry j of chain i holds pair Offset(i) + j of the walk |
| Table.HashTable.IterKeys | hash.c:295-302 | the key of the next pair of the walk, or None (NULL) at the end |
| Table.HashTable.IterValues | hash.c:304-311 | the value of the next pair of the walk, or None (NULL) at the end |
| Findings.FullDeleteDerefsNull | hash.c:232 | deleting a key from a full table reaches the free with a NULL freelist, and the literal free then reads through NULL |
| Findings.FullTableExists | hash.c:136-195 | a full valid table holding a key exists: one bucket, one slot, one store |
| Findings.LiteralFreeDropsHeadRun | hash.c:132-133 | on a non-NULL freelist the literal free links the freed slot to the old head's successor; no run header links to the old head, which holds at least one free slot, so that run is lost |

## Left out

- `hash_dump` (printing) and `hash_free` (releasing the arena) are not modelled.
- Byte layout: the alignment padding between bucket array and pool, the overlay of `HashEntryChunk` on `HashEntry`, and `HashPair *` as a cast of the entry are not modelled. Slots are a datatype with a `Used` and a `Free` form.
- `malloc` results are boolean parameters rather than real allocations. The memory `hash_new` leaks on a failed `hash_alloc`, and the arena `hash_resize` leaks when a store inside it fails, are not modelled.
- Keys are compared by value. The model does not capture that the table stores the caller's key pointer rather than a copy, so a caller that later mutates the key string is outside the model.
- NULL values: `hash_fetch` returns NULL both for a missing key and for a stored NULL value. The model returns `None` only for a missing key.
- Table.HashTable.IterPairs: requires `IterOk`: the entry the iterator last returned still stands at the same position of the same chain, that is, the iterator's chain has not changed in front of it since the last call. Iterating across a store of a new key into that chain, a delete of the current entry or of an entry before it in that chain, or a resize, is not modelled.
- Table.HashTable.Store: requires `2 * cap <= INT_MAX` when a resize is due, that is, when the freelist is NULL and the key is not in the table. The doubling of `int` `buckets` and `cap` in hash.c:172 overflows past that point.
- Table.HashTable.Resize: requires `count <= max(n, c)`, which every caller meets. The store failure inside the rebuild loop (hash.c:95-97) therefore cannot happen and is not modelled.
- Table.HashTable.FreeEntry: deliberately models the corrected free, not hash.c:132-133 (see Findings). The literal behaviour is Findings.LiteralFree.
- The uninitialised slots of a fresh pool are written as `Free(NIL, 0)`. The single run covers them all, but only slot 0 holds a run header. `hash_freelist_alloc_entry` writes the header of slot s + 1 (hash.c:118-119) before anything reads that slot, so no garbage value is ever read.
- `iter_bucket` after `hash_resize` is whatever `new_ht` held (uninitialised stack memory). The model sets it to 0; it is never read while `iter_entry` is NULL.
- The `goto` control flow of `hash_store` and `hash_iter_pairs` is restructured into methods (StoreMiss, Grow, Research; Locate, Resume, Advance, Visit) that take the same branches.
- `hash_alloc` is modelled as a constructor of a fresh table: both callers pass a fresh or zeroed table.
- `hash_resize` reads an entry and stores it before reading the next. The model reads the whole walk first and then stores it. The two tables share no memory, so the stores are the same.
- `hash_delete`'s separate test of the chain head (hash.c:229-234) is folded into the FindPrev walk, with NIL as the predecessor of the head.
- `hash_t` is taken to be 64 bits wide (`unsigned long` on LP64).

## Findings

| source | as written | input that shows it | evidently intended | confidence | as-written member | corrected member |
|---|---|---|---|---|---|---|
| hash.c:132 | the free reads `ht->freelist->next` without checking for NULL | delete the only key of a full table, e.g. one bucket and one slot after one store: the freelist is NULL when the freed entry is pushed | push the freed entry even when the freelist is empty | not executed | Findings.FullDeleteDerefsNull | Table.HashTable.FreeEntry |
| hash.c:132-133 | the freed entry links to the successor of the old head run, not to the old head, and its run size is never written | delete any key from a table with at least one free slot: the old head run (one slot or more) is no longer reachable from the freelist, and the new head's size is stale value bits | link the freed entry to the old head, as a run of size 1 | not executed | Findings.LiteralFreeDropsHeadRun | Invariant.FreePreserves |
