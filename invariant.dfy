/** The representation invariant of a hash table, stated on a snapshot of
    its state, and the state transformers that the operations of hash.c
    perform, each with the lemma that it keeps the invariant and how it
    changes the key -> value map. */
module Invariant {
  import opened Djb2
  import opened Arena
  import opened Chains
  import opened Order

  datatype Option<T> = None | Some(value: T)

  /** A snapshot of a table: the bucket heads, the entry pool, the freelist
      head and the entry count of `HashTable`, with the ghost chains, free
      runs, slot owners and key -> value map they stand for. */
  datatype TableState<V> = TableState(
    bucket: seq<int>, slots: seq<Slot<V>>, freelist: int, count: int, buckets: int, cap: int,
    chains: seq<seq<int>>, chunks: seq<Chunk>, role: seq<Role>, contents: map<CString, V>)

  /** Largest value of a C `int` on the platforms hash.c targets. */
  const INT_MAX: int := 0x7FFF_FFFF

  /** The sizes of a snapshot agree with its arrays and fit a C `int`. */
  predicate Sized<V>(st: TableState<V>) {
    st.buckets == |st.bucket| && st.cap == |st.slots| && st.cap <= INT_MAX
  }

  /** The representation invariant of a snapshot. */
  ghost predicate Inv<V>(st: TableState<V>) {
    Sized(st) && TableInv(st.bucket, st.slots, st.freelist, st.count, st.chains, st.chunks, st.role, st.contents)
  }
  /** The invariant on the parts of a snapshot: valid chains and freelist,
      `count` entries, and every slot either in a chain or in a free run. */
  ghost predicate TableInv<V>(bucket: seq<int>, slots: seq<Slot<V>>, freelist: int, count: int,
                         chains: seq<seq<int>>, chunks: seq<Chunk>, role: seq<Role>, contents: map<CString, V>) {
    && 1 <= |bucket| <= |slots|
    && ChainsOk(bucket, slots, chains, role, contents)
    && FreeOk(freelist, slots, chunks, role)
    && count == |contents|
    && FreeTotal(chunks) + count == |slots|
  }

  /** Slot `s` has been handed out by the allocator, or unlinked and not
      yet freed. */
  ghost predicate ReservedInv<V>(st: TableState<V>, s: int) {
    Sized(st) && TableReserved(st.bucket, st.slots, st.freelist, st.count, st.chains, st.chunks, st.role, st.contents, s)
  }
  /** TableInv, except that slot `s` is in no chain and no run. */
  ghost predicate TableReserved<V>(bucket: seq<int>, slots: seq<Slot<V>>, freelist: int, count: int,
                                 chains: seq<seq<int>>, chunks: seq<Chunk>, role: seq<Role>, contents: map<CString, V>, s: int) {
    && 1 <= |bucket| <= |slots| && 0 <= s < |slots|
    && ChainsOk(bucket, slots, chains, role, contents)
    && FreeOk(freelist, slots, chunks, role)
    && NotCovered(chunks, s) && !role[s].InChain?
    && count == |contents|
    && FreeTotal(chunks) + count + 1 == |slots|
  }

  /** The count is the total length of the chains, at most the capacity,
      and the freelist is NULL exactly when every slot holds an entry. */
  lemma CountBounds<V>(st: TableState<V>)
    requires Inv(st)
    ensures st.count == |Flat(st.chains)| && 0 <= st.count <= |st.slots|
    ensures st.freelist == NIL <==> st.count == |st.slots|
  {
    EnumeratesContents(st.bucket, st.slots, st.chains, st.role, st.contents);
    EmptyIffNoFree(st.freelist, st.slots, st.chunks, st.role);
  }

  /** The table `hash_alloc` builds: `n` empty buckets and a pool of `c`
      slots that is one free run starting at slot 0. */
  function InitialState<V>(n: nat, c: nat, pool: seq<Slot<V>>): TableState<V> {
    TableState(EmptyBuckets(n), pool, 0, 0, n, c, EmptyChains(n), [Chunk(0, c)], AllOwnedBy(c, 0), map[])
  }

  lemma InitialInv<V>(n: nat, c: nat, pool: seq<Slot<V>>)
    requires 1 <= n <= c <= INT_MAX && |pool| == c && pool[0] == Free(NIL, c)
    ensures Inv(InitialState(n, c, pool))
    ensures InitialState(n, c, pool).contents == map[] && InitialState(n, c, pool).count == 0
  {
    InitialFreeList(pool, c);
    NoChains(pool, AllOwnedBy(c, 0), n);
  }

  /** The slot count `hash_alloc` settles on: never fewer slots than
      buckets. */
  function ArenaCap(n: int, c: int): int {
    if n > c then n else c
  }

  /** The pool `hash_alloc` hands out: slot 0 heads one run of all `c`
      slots with no successor; the other slots are uninitialised memory,
      written here as empty runs. */
  function NewPool<V>(c: nat): seq<Slot<V>>
    requires c >= 1
  {
    seq(c, i => if i == 0 then Free(NIL, c) else Free(NIL, 0))
  }

  /** `hash_fetch` on a snapshot: the value of the entry the chain walk
      stops at, or None. */
  function Lookup<V>(st: TableState<V>, key: CString): Option<V>
    requires 1 <= |st.bucket| == |st.chains|
  {
    var chain := st.chains[BucketOf(Hash33(key), |st.bucket|)];
    var j := Search(st.slots, chain, key);
    if j < |chain| && 0 <= chain[j] < |st.slots| && st.slots[chain[j]].Used?
    then Some(st.slots[chain[j]].value)
    else None
  }

  /** The chain walk finds exactly the map the table stands for. */
  lemma LookupIsContents<V>(st: TableState<V>, key: CString)
    requires Inv(st)
    ensures Lookup(st, key) == if key in st.contents then Some(st.contents[key]) else None
  {
    SearchFinds(st.bucket, st.slots, st.chains, st.role, st.contents, key);
  }

  /** The state after `hash_freelist_alloc_entry`. */
  function AllocState<V>(st: TableState<V>): TableState<V> {
    st.(slots := AllocSlots(st.slots, st.chunks), freelist := ChunkHead(AllocChunks(st.chunks)),
        chunks := AllocChunks(st.chunks), role := AllocRole(st.role, st.chunks))
  }

  /** Allocating from a non-empty freelist hands out the head slot, which
      the remaining runs do not cover, and leaves the chains as they were. */
  lemma AllocPreserves<V>(st: TableState<V>)
    requires Inv(st) && st.freelist != NIL
    ensures st.chunks != [] && st.freelist == st.chunks[0].head
    ensures ReservedInv(AllocState(st), st.freelist)
    ensures 0 <= st.freelist < |st.slots| && st.slots[st.freelist] == Free(NextChunk(st.chunks, 0), st.chunks[0].size)
    ensures st.chunks[0].size > 1 ==>
              && st.freelist + 1 < |st.slots| && AllocState(st).freelist == st.freelist + 1
              && AllocState(st).slots == st.slots[st.freelist + 1 := Free(NextChunk(st.chunks, 0), st.chunks[0].size - 1)]
    ensures st.chunks[0].size <= 1 ==> AllocState(st).slots == st.slots && AllocState(st).freelist == NextChunk(st.chunks, 0)
  {
    EmptyIffNoFree(st.freelist, st.slots, st.chunks, st.role);
    AllocOk(st.freelist, st.slots, st.chunks, st.role);
    ChainsFrame(st.bucket, st.slots, AllocSlots(st.slots, st.chunks), st.chains, st.role, AllocRole(st.role, st.chunks), st.contents);
    if st.chunks[0].size <= 1 {
      assert AllocChunks(st.chunks) == st.chunks[1..];
    }
  }

  /** The state after `hash_freelist_free_entry` as its callers rely on it:
      slot `s` becomes a one-slot run in front of the old head. */
  function FreeState<V>(st: TableState<V>, s: int): TableState<V>
    requires 0 <= s < |st.slots| && s < |st.role|
  {
    st.(slots := st.slots[s := Free(st.freelist, 1)], freelist := s,
        chunks := [Chunk(s, 1)] + st.chunks, role := st.role[s := InChunk(s)])
  }

  /** Freeing a reserved slot restores the invariant and adds one free slot. */
  lemma FreePreserves<V>(st: TableState<V>, s: int)
    requires ReservedInv(st, s)
    ensures Inv(FreeState(st, s))
    ensures FreeTotal(FreeState(st, s).chunks) == FreeTotal(st.chunks) + 1
  {
    FreePush(st.freelist, st.slots, st.chunks, st.role, s);
    NotInChains(st.bucket, st.slots, st.chains, st.role, st.contents, s);
    ChainsDetached(st.bucket, st.slots, st.chains, st.role, st.contents, s, Free(st.freelist, 1), InChunk(s));
  }

  /** The state after the entry in slot `s` is filled in and linked as the
      new head of the chain its key selects, with `count` one higher. */
  function LinkState<V>(st: TableState<V>, s: int, key: CString, v: V): TableState<V>
    requires 1 <= |st.bucket| == |st.chains| && 0 <= s < |st.slots| && s < |st.role|
  {
    var b := BucketOf(Hash33(key), |st.bucket|);
    st.(bucket := st.bucket[b := s], slots := st.slots[s := Used(key, v, st.bucket[b], Hash33(key))],
        count := st.count + 1, chains := st.chains[b := [s] + st.chains[b]],
        role := st.role[s := InChain(b)], contents := st.contents[key := v])
  }

  /** Linking a reserved slot for a new key restores the invariant. */
  lemma LinkPreserves<V>(st: TableState<V>, s: int, key: CString, v: V)
    requires ReservedInv(st, s) && key !in st.contents
    ensures Inv(LinkState(st, s, key, v))
  {
    var b := BucketOf(Hash33(key), |st.bucket|);
    var st' := LinkState(st, s, key, v);
    LinkHead(st.bucket, st.slots, st.chains, st.role, st.contents, s, key, v, b);
    forall c, x | 0 <= c < |st.chunks| && InRun(st.chunks[c], x) && 0 <= x < |st.slots|
      ensures st'.slots[x] == st.slots[x] && st'.role[x] == st.role[x]
    {
      assert x != s;
    }
    FreeFrame(st.freelist, st.slots, st'.slots, st.chunks, st.role, st'.role);
  }

  /** The state after `hash_store` overwrites the value in slot `x`. */
  function OverwriteState<V>(st: TableState<V>, x: int, v: V): TableState<V>
    requires 0 <= x < |st.slots| && st.slots[x].Used?
  {
    st.(slots := st.slots[x := st.slots[x].(value := v)], contents := st.contents[st.slots[x].key := v])
  }

  /** Overwriting the value of an entry keeps the invariant: no link, no
      count and no freelist changes. */
  lemma OverwritePreserves<V>(st: TableState<V>, b: int, j: int, v: V)
    requires Inv(st) && 0 <= b < |st.chains| && 0 <= j < |st.chains[b]|
    ensures 0 <= st.chains[b][j] < |st.slots| && st.slots[st.chains[b][j]].Used?
    ensures Inv(OverwriteState(st, st.chains[b][j], v))
  {
    var x := st.chains[b][j];
    assert EntryOk(st.slots, st.chains, st.role, st.contents, b, j);
    var st' := OverwriteState(st, x, v);
    Overwrite(st.bucket, st.slots, st.chains, st.role, st.contents, b, j, v);
    ChainSlotNotCovered(st.freelist, st.slots, st.chunks, st.role, x);
    forall c, y | 0 <= c < |st.chunks| && InRun(st.chunks[c], y) && 0 <= y < |st.slots|
      ensures st'.slots[y] == st.slots[y]
    {
      assert y != x;
    }
    FreeFrame(st.freelist, st.slots, st'.slots, st.chunks, st.role, st.role);
  }

  /** The state after `hash_delete` unlinks entry `j` of chain `b` and
      decrements `count`, before the slot is freed. */
  function UnlinkState<V>(st: TableState<V>, b: int, j: int): TableState<V>
    requires Inv(st) && 0 <= b < |st.chains| && 0 <= j < |st.chains[b]|
  {
    var s := st.chains[b][j];
    UnlinkReady(st, b, j);
    st.(bucket := UnlinkedBucket(st.bucket, st.slots, st.chains, b, j), slots := UnlinkedSlots(st.slots, st.chains, b, j),
        count := st.count - 1, chains := st.chains[b := Unlinked(st.chains[b], j)],
        role := st.role[s := InChunk(s)], contents := st.contents - {st.slots[s].key})
  }

  /** The entry to unlink and, past the head, the entry before it are live. */
  lemma UnlinkReady<V>(st: TableState<V>, b: int, j: int)
    requires Inv(st) && 0 <= b < |st.chains| && 0 <= j < |st.chains[b]|
    ensures 0 <= st.chains[b][j] < |st.slots| && st.slots[st.chains[b][j]].Used?
    ensures j > 0 ==> 0 <= st.chains[b][j - 1] < |st.slots| && st.slots[st.chains[b][j - 1]].Used?
  {
    assert EntryOk(st.slots, st.chains, st.role, st.contents, b, j);
    if j > 0 {
      assert EntryOk(st.slots, st.chains, st.role, st.contents, b, j - 1);
    }
  }

  /** Unlinking an entry removes its key from the map and leaves its slot
      reserved: through the bucket head when it is first in its chain, and
      through the link of the entry before it otherwise. */
  lemma UnlinkPreserves<V>(st: TableState<V>, b: int, j: int)
    requires Inv(st) && 0 <= b < |st.chains| && 0 <= j < |st.chains[b]|
    ensures var s := st.chains[b][j];
      && 0 <= s < |st.slots| && st.slots[s].Used? && st.slots[s].key in st.contents
      && ReservedInv(UnlinkState(st, b, j), s)
      && UnlinkState(st, b, j).contents == st.contents - {st.slots[s].key}
    ensures var s := st.chains[b][j];
      j == 0 ==> UnlinkState(st, b, j).bucket == st.bucket[b := st.slots[s].next] && UnlinkState(st, b, j).slots == st.slots
    ensures var s := st.chains[b][j];
      j > 0 ==>
        var p := st.chains[b][j - 1];
        && 0 <= p < |st.slots| && st.slots[p].Used?
        && UnlinkState(st, b, j).bucket == st.bucket
        && UnlinkState(st, b, j).slots == st.slots[p := st.slots[p].(next := st.slots[s].next)]
  {
    var s := st.chains[b][j];
    UnlinkReady(st, b, j);
    assert EntryOk(st.slots, st.chains, st.role, st.contents, b, j);
    var st' := UnlinkState(st, b, j);
    Unlink(st.bucket, st.slots, st.chains, st.role, st.contents, b, j);
    ChainsDetached(st'.bucket, st'.slots, st'.chains, st.role, st'.contents, s, st'.slots[s], InChunk(s));
    assert st'.slots[s := st'.slots[s]] == st'.slots;
    ChainSlotNotCovered(st.freelist, st.slots, st.chunks, st.role, s);
    if j > 0 {
      assert EntryOk(st.slots, st.chains, st.role, st.contents, b, j - 1);
      ChainSlotNotCovered(st.freelist, st.slots, st.chunks, st.role, st.chains[b][j - 1]);
    }
    forall c, y | 0 <= c < |st.chunks| && InRun(st.chunks[c], y) && 0 <= y < |st.slots|
      ensures st'.slots[y] == st.slots[y] && st'.role[y] == st.role[y]
    {
      assert y != s;
      if j > 0 {
        assert y != st.chains[b][j - 1];
      }
    }
    FreeFrame(st.freelist, st.slots, st'.slots, st.chunks, st.role, st'.role);
  }

  /** The state after `hash_delete`: unchanged when the key is absent, the
      entry unlinked and its slot freed otherwise. */
  function DeleteState<V>(st: TableState<V>, key: CString): TableState<V>
    requires Inv(st)
  {
    var b := BucketOf(Hash33(key), |st.bucket|);
    var j := Search(st.slots, st.chains[b], key);
    if j == |st.chains[b]| then st
    else
      UnlinkPreserves(st, b, j);
      FreeState(UnlinkState(st, b, j), st.chains[b][j])
  }

  /** Deleting keeps the invariant and removes exactly `key` from the map,
      with one entry fewer when it was there. */
  lemma DeletePreserves<V>(st: TableState<V>, key: CString)
    requires Inv(st)
    ensures Inv(DeleteState(st, key))
    ensures DeleteState(st, key).contents == st.contents - {key}
    ensures DeleteState(st, key).count == if key in st.contents then st.count - 1 else st.count
    ensures key !in st.contents ==> DeleteState(st, key) == st
  {
    var b := BucketOf(Hash33(key), |st.bucket|);
    var j := Search(st.slots, st.chains[b], key);
    SearchFinds(st.bucket, st.slots, st.chains, st.role, st.contents, key);
    if j < |st.chains[b]| {
      UnlinkPreserves(st, b, j);
      FreePreserves(UnlinkState(st, b, j), st.chains[b][j]);
    } else {
      assert st.contents - {key} == st.contents;
    }
  }

  /** Deleting twice is deleting once. */
  lemma DeleteIdempotent<V>(st: TableState<V>, key: CString)
    requires Inv(st)
    ensures Inv(DeleteState(st, key)) && DeleteState(DeleteState(st, key), key) == DeleteState(st, key)
  {
    DeletePreserves(st, key);
    DeletePreserves(DeleteState(st, key), key);
  }

  /** The state after a `hash_store` that needs no resize: the value of the
      entry with that key is overwritten, or a slot is allocated and linked
      at the head of the key's chain. */
  function StoreState<V>(st: TableState<V>, key: CString, v: V): TableState<V>
    requires Inv(st) && (key in st.contents || st.freelist != NIL)
  {
    var b := BucketOf(Hash33(key), |st.bucket|);
    var j := Search(st.slots, st.chains[b], key);
    SearchFinds(st.bucket, st.slots, st.chains, st.role, st.contents, key);
    if j < |st.chains[b]| then OverwriteState(st, st.chains[b][j], v)
    else
      AllocPreserves(st);
      LinkState(AllocState(st), st.freelist, key, v)
  }

  /** Storing keeps the invariant and maps `key` to `v`. An existing entry
      only gets the new value: buckets, count and freelist stay. A new key
      takes the slot at the head of the freelist, becomes the head of its
      chain and adds one to the count. */
  lemma StorePreserves<V>(st: TableState<V>, key: CString, v: V)
    requires Inv(st) && (key in st.contents || st.freelist != NIL)
    ensures var st' := StoreState(st, key, v);
      && Inv(st')
      && st'.contents == st.contents[key := v]
      && st'.count == (if key in st.contents then st.count else st.count + 1)
      && |st'.bucket| == |st.bucket| && |st'.slots| == |st.slots|
    ensures var st' := StoreState(st, key, v);
      key in st.contents ==> st'.bucket == st.bucket && st'.freelist == st.freelist && st'.chunks == st.chunks && st'.chains == st.chains
    ensures var st' := StoreState(st, key, v); var b := BucketOf(Hash33(key), |st.bucket|);
      key !in st.contents ==> st'.chains == st.chains[b := [st.freelist] + st.chains[b]] && st'.bucket[b] == st.freelist
  {
    var b := BucketOf(Hash33(key), |st.bucket|);
    var j := Search(st.slots, st.chains[b], key);
    SearchFinds(st.bucket, st.slots, st.chains, st.role, st.contents, key);
    if j < |st.chains[b]| {
      OverwritePreserves(st, b, j, v);
    } else {
      AllocPreserves(st);
      LinkPreserves(AllocState(st), st.freelist, key, v);
    }
  }

  /** After storing, fetching the key gives the stored value and every other
      key gives what it gave before. */
  lemma StoreThenLookup<V>(st: TableState<V>, key: CString, v: V, other: CString)
    requires Inv(st) && (key in st.contents || st.freelist != NIL)
    ensures Inv(StoreState(st, key, v))
    ensures Lookup(StoreState(st, key, v), key) == Some(v)
    ensures other != key ==> Lookup(StoreState(st, key, v), other) == Lookup(st, other)
  {
    StorePreserves(st, key, v);
    LookupIsContents(StoreState(st, key, v), key);
    LookupIsContents(StoreState(st, key, v), other);
    LookupIsContents(st, other);
  }

  /** After deleting, fetching the key gives None and every other key gives
      what it gave before. */
  lemma DeleteThenLookup<V>(st: TableState<V>, key: CString, other: CString)
    requires Inv(st)
    ensures Inv(DeleteState(st, key))
    ensures Lookup(DeleteState(st, key), key) == None
    ensures other != key ==> Lookup(DeleteState(st, key), other) == Lookup(st, other)
  {
    DeletePreserves(st, key);
    LookupIsContents(DeleteState(st, key), key);
    LookupIsContents(DeleteState(st, key), other);
    LookupIsContents(st, other);
  }

  /** The (key, value) pairs in the order a walk of the whole table meets
      them: bucket by bucket, each chain from its head. */
  function Walk<V>(st: TableState<V>): (w: seq<(CString, V)>)
    requires Inv(st)
    ensures |w| == st.count
  {
    EnumeratesContents(st.bucket, st.slots, st.chains, st.role, st.contents);
    CountBounds(st);
    Pairs(st.slots, Flat(st.chains))
  }

  /** The start of chain `i` in a walk: its head is the bucket entry, and
      the next chain starts right after it. */
  lemma WalkChainStart<V>(st: TableState<V>, i: int)
    requires Inv(st) && 0 <= i < |st.chains|
    ensures st.bucket[i] == (if st.chains[i] == [] then NIL else st.chains[i][0])
    ensures Offset(st.chains, i + 1) == Offset(st.chains, i) + |st.chains[i]|
    ensures st.chains[i] != [] ==> 0 <= st.chains[i][0] < |st.slots|
  {
    OffsetStep(st.chains, i);
    if st.chains[i] != [] {
      ChainLink(st, i, 0);
    }
  }

  /** Every bucket holds the head of its chain: a slot index, or NIL. */
  lemma ChainHeads<V>(st: TableState<V>)
    requires Inv(st)
    ensures |st.chains| == |st.bucket| >= 1
    ensures forall b | 0 <= b < |st.bucket| :: st.bucket[b] == HeadOf(st.chains[b]) && (st.chains[b] != [] ==> 0 <= st.chains[b][0])
  {
    forall b | 0 <= b < |st.bucket|
      ensures st.chains[b] != [] ==> 0 <= st.chains[b][0]
    {
      if st.chains[b] != [] {
        ChainLink(st, b, 0);
      }
    }
  }

  /** Entry `j` of chain `i` is live and links to entry `j + 1`, or is
      NULL at the end of the chain. */
  lemma ChainLink<V>(st: TableState<V>, i: int, j: int)
    requires Inv(st) && 0 <= i < |st.chains| && 0 <= j < |st.chains[i]|
    ensures 0 <= st.chains[i][j] < |st.slots| && st.slots[st.chains[i][j]].Used?
    ensures st.slots[st.chains[i][j]].next == if j + 1 < |st.chains[i]| then st.chains[i][j + 1] else NIL
    ensures st.slots[st.chains[i][j]].hash == Hash33(st.slots[st.chains[i][j]].key)
  {
    assert EntryOk(st.slots, st.chains, st.role, st.contents, i, j);
  }

  /** Entry `j` of chain `i` is pair Offset(i) + j of the walk. */
  lemma WalkStep<V>(st: TableState<V>, i: int, j: int)
    requires Inv(st) && 0 <= i < |st.chains| && 0 <= j < |st.chains[i]|
    ensures 0 <= st.chains[i][j] < |st.slots| && st.slots[st.chains[i][j]].Used?
    ensures Offset(st.chains, i) + j < |Walk(st)|
    ensures Walk(st)[Offset(st.chains, i) + j] == (st.slots[st.chains[i][j]].key, st.slots[st.chains[i][j]].value)
  {
    FlatIndex(st.chains, i, j);
    WalkAt(st, Offset(st.chains, i) + j);
  }

  /** Reading entry `j` of chain `i` extends the walk read so far by one
      pair, and leads to entry `j + 1` or to NULL. */
  lemma WalkExtend<V>(st: TableState<V>, i: int, j: int)
    requires Inv(st) && 0 <= i < |st.chains| && 0 <= j < |st.chains[i]|
    ensures var e := st.chains[i][j]; var k := Offset(st.chains, i) + j;
      && 0 <= e < |st.slots| && st.slots[e].Used? && k < |Walk(st)|
      && Walk(st)[..k + 1] == Walk(st)[..k] + [(st.slots[e].key, st.slots[e].value)]
      && st.slots[e].next == (if j + 1 < |st.chains[i]| then st.chains[i][j + 1] else NIL)
      && (j + 1 < |st.chains[i]| ==> 0 <= st.chains[i][j + 1] < |st.slots|)
  {
    if j + 1 < |st.chains[i]| {
      ChainLink(st, i, j + 1);
    }
    var k := Offset(st.chains, i) + j;
    WalkStep(st, i, j);
    ChainLink(st, i, j);
    assert Walk(st)[..k + 1] == Walk(st)[..k] + [Walk(st)[k]];
  }

  /** Pair `k` of the walk is the key and value of slot Flat(chains)[k]. */
  lemma WalkAt<V>(st: TableState<V>, k: int)
    requires Inv(st) && 0 <= k < |Flat(st.chains)|
    ensures 0 <= Flat(st.chains)[k] < |st.slots| && st.slots[Flat(st.chains)[k]].Used?
    ensures Walk(st)[k] == (st.slots[Flat(st.chains)[k]].key, st.slots[Flat(st.chains)[k]].value)
  {
    CountBounds(st);
    FlatUsed(st.bucket, st.slots, st.chains, st.role, st.contents);
  }

  /** The walk meets every key of the table exactly once, with its value,
      so it has `count` pairs and rebuilds the map. */
  lemma WalkIsContents<V>(st: TableState<V>)
    requires Inv(st)
    ensures var w := Walk(st);
      && |w| == st.count && DistinctKeys(w) && ToMap(w) == st.contents
      && (forall i | 0 <= i < |w| :: w[i].0 in st.contents && st.contents[w[i].0] == w[i].1)
      && (forall k | k in st.contents :: exists i | 0 <= i < |w| :: w[i].0 == k)
  {
    EnumeratesContents(st.bucket, st.slots, st.chains, st.role, st.contents);
  }

  /** StoreState when the chain walk stops at entry `j`. */
  lemma StoreFound<V>(st: TableState<V>, key: CString, v: V, j: int)
    requires Inv(st)
    requires var b := BucketOf(Hash33(key), |st.bucket|); j == Search(st.slots, st.chains[b], key) < |st.chains[b]|
    ensures var b := BucketOf(Hash33(key), |st.bucket|);
      && key in st.contents && 0 <= st.chains[b][j] < |st.slots| && st.slots[st.chains[b][j]].Used?
      && StoreState(st, key, v) == OverwriteState(st, st.chains[b][j], v)
  {
    SearchFinds(st.bucket, st.slots, st.chains, st.role, st.contents, key);
  }

  /** StoreState for a key the table does not hold. */
  lemma StoreNew<V>(st: TableState<V>, key: CString, v: V)
    requires Inv(st) && key !in st.contents && st.freelist != NIL
    ensures ReservedInv(AllocState(st), st.freelist)
    ensures StoreState(st, key, v) == LinkState(AllocState(st), st.freelist, key, v)
  {
    SearchFinds(st.bucket, st.slots, st.chains, st.role, st.contents, key);
    AllocPreserves(st);
  }

  /** DeleteState when the chain walk stops at entry `j`. */
  lemma DeleteFound<V>(st: TableState<V>, key: CString, j: int)
    requires Inv(st)
    requires var b := BucketOf(Hash33(key), |st.bucket|); j == Search(st.slots, st.chains[b], key) < |st.chains[b]|
    ensures var b := BucketOf(Hash33(key), |st.bucket|);
      && ReservedInv(UnlinkState(st, b, j), st.chains[b][j])
      && DeleteState(st, key) == FreeState(UnlinkState(st, b, j), st.chains[b][j])
  {
    UnlinkPreserves(st, BucketOf(Hash33(key), |st.bucket|), j);
  }

  /** The table `hash_resize` fills: `st` after storing the pairs `ps`
      one by one, first to last. No store needs to grow the table, because
      there are at least as many slots as keys at the end. */
  function Rehash<V>(st: TableState<V>, ps: seq<(CString, V)>): (r: TableState<V>)
    requires Inv(st) && |st.contents| + |ps| <= |st.slots|
    ensures Inv(r) && |r.bucket| == |st.bucket| && |r.slots| == |st.slots|
    ensures r.contents == st.contents + ToMap(ps)
    ensures |r.contents| <= |st.contents| + |ps|
    decreases |ps|
  {
    if ps == [] then st
    else
      var r := Rehash(st, ps[..|ps| - 1]);
      var (k, v) := ps[|ps| - 1];
      CountBounds(r);
      StorePreserves(r, k, v);
      MergeUpdate(st.contents, ToMap(ps[..|ps| - 1]), k, v);
      StoreState(r, k, v)
  }

  lemma MergeEmpty<V>(m: map<CString, V>)
    ensures map[] + m == m
  {
  }

  lemma MergeUpdate<V>(m: map<CString, V>, m': map<CString, V>, k: CString, v: V)
    ensures (m + m')[k := v] == m + m'[k := v]
    ensures |(m + m')[k := v]| <= |m + m'| + 1
  {
  }

  /** One more pair for `Rehash` is one more store. */
  lemma RehashStep<V>(st: TableState<V>, ps: seq<(CString, V)>, n: int)
    requires Inv(st) && |st.contents| + |ps| <= |st.slots| && 0 <= n < |ps|
    ensures var r := Rehash(st, ps[..n]);
      && (ps[n].0 in r.contents || r.freelist != NIL)
      && Rehash(st, ps[..n + 1]) == StoreState(r, ps[n].0, ps[n].1)
  {
    assert ps[..n + 1][..n] == ps[..n];
    CountBounds(Rehash(st, ps[..n]));
  }

  /** The table after a successful `hash_resize(ht, n, c)`: a fresh arena
      of `n` buckets and ArenaCap(n, c) slots into which the walk of `st` is
      stored. It holds the same keys with the same values. */
  function ResizeState<V>(st: TableState<V>, n: int, c: int): (r: TableState<V>)
    requires Inv(st) && 1 <= n && st.count <= ArenaCap(n, c) <= INT_MAX
    ensures Inv(r) && r.contents == st.contents && r.count == st.count
    ensures |r.bucket| == n && |r.slots| == ArenaCap(n, c)
    ensures r.freelist == NIL <==> st.count == ArenaCap(n, c)
  {
    var m := ArenaCap(n, c);
    InitialInv(n, m, NewPool<V>(m));
    WalkIsContents(st);
    var r := Rehash(InitialState(n, m, NewPool<V>(m)), Walk(st));
    MergeEmpty(ToMap(Walk(st)));
    CountBounds(r);
    r
  }

  /** No resize while the key is there or a slot is free. */
  lemma RoomKeeps<V>(st: TableState<V>, key: CString)
    requires Inv(st) && (key in st.contents || st.freelist != NIL)
    ensures Room(st, key) == st
  {
  }

  /** The table `hash_store` links a new entry into: the table itself while
      the key is there or a slot is free, and otherwise the table
      `hash_resize` rebuilds with twice the buckets and twice the slots. */
  function Room<V>(st: TableState<V>, key: CString): (r: TableState<V>)
    requires Inv(st) && (key in st.contents || st.freelist != NIL || 2 * st.cap <= INT_MAX)
    ensures Inv(r) && r.contents == st.contents && r.count == st.count
    ensures key in r.contents || r.freelist != NIL
  {
    if key in st.contents || st.freelist != NIL then st
    else
      CountBounds(st);
      ResizeState(st, 2 * |st.bucket|, 2 * |st.slots|)
  }
}
