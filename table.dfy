/** `HashTable` of hash.h and the operations of hash.c on it. The bucket
    array and the entry pool that hash.c carves out of one allocation are two
    arrays here: `bucket[i]` is the slot index of the head of chain `i` (NIL
    when the chain is empty) and `slots` is the entry pool. Every operation
    is specified by the state transformer of module Invariant it performs on
    the snapshot `Snap()`. */
module Table {
  import opened Djb2
  import opened Arena
  import opened Chains
  import opened Order
  import opened Invariant

  /** The iterator fields `iter_entry` and `iter_bucket` of `HashTable`,
      in an object of their own: moving the iterator then leaves the rest
      of the table, and with it the table invariant, untouched. */
  class Cursor {
    var entry: int
    var bucket: int
    /** Position of `entry` in chain `bucket`. */
    ghost var pos: int

    constructor ()
      ensures entry == NIL && bucket == 0 && pos == 0
    {
      entry, bucket, pos := NIL, 0, 0;
    }
  }

  class HashTable<V> {
    var bucket: array<int>
    var slots: array<Slot<V>>
    var freelist: int
    var buckets: int
    var count: int
    var cap: int
    const iter: Cursor

    /** The slot indices of each chain, head first. */
    ghost var chains: seq<seq<int>>
    /** The freelist as the list of its runs. */
    ghost var chunks: seq<Chunk>
    /** The owner of every slot. */
    ghost var role: seq<Role>
    /** The key -> value map the table stands for. */
    ghost var contents: map<CString, V>

    ghost function Snap(): TableState<V>
      reads this, bucket, slots
    {
      TableState(bucket[..], slots[..], freelist, count, buckets, cap, chains, chunks, role, contents)
    }

    ghost predicate Valid()
      reads this, bucket, slots
    {
      Inv(Snap())
    }

    /** Valid, except that slot `s` is in no chain and no free run. */
    ghost predicate Reserved(s: int)
      reads this, bucket, slots
    {
      ReservedInv(Snap(), s)
    }

    /** `hash_alloc` on a table of its own (both callers pass a fresh one):
        `buckets0` empty buckets and ArenaCap(buckets0, cap0) slots, all of
        them in one free run with no successor. Whether `malloc` fails is
        decided by the callers before they construct. */
    constructor Alloc(buckets0: int, cap0: int)
      requires 1 <= buckets0 <= INT_MAX && cap0 <= INT_MAX
      ensures Valid() && fresh(bucket) && fresh(slots)
      ensures buckets == buckets0 && cap == ArenaCap(buckets0, cap0)
      ensures Snap() == InitialState(buckets, cap, NewPool(cap))
      ensures fresh(iter) && iter.entry == NIL && iter.bucket == 0
    {
      var c := cap0;
      if buckets0 > c {
        c := buckets0;
      }
      var b, s := NewArena(buckets0, c);
      ghost var st := InitialState(buckets0, c, NewPool<V>(c));
      bucket, buckets, cap, count, slots, freelist := b, buckets0, c, 0, s, 0;
      iter := new Cursor();
      chains, chunks, role, contents := st.chains, st.chunks, st.role, st.contents;
    }

    /** The one `malloc` of `hash_alloc` and what it writes into it: `n`
        NULL bucket heads, and a pool of `c` slots whose first slot is the
        header of a run of all `c` slots with no successor. */
    static method NewArena(n: int, c: int) returns (b: array<int>, s: array<Slot<V>>)
      requires 1 <= n <= c <= INT_MAX
      ensures fresh(b) && fresh(s) && b.Length == n && s.Length == c
      ensures b[..] == EmptyBuckets(n) && s[..] == NewPool(c)
      ensures Inv(InitialState(n, c, s[..]))
    {
      b := new int[n](_ => NIL);
      // the pool is uninitialised memory apart from the first run header
      s := new Slot<V>[c](_ => Free(NIL, 0));
      s[0] := Free(NIL, c);
      assert b[..] == EmptyBuckets(n);
      assert s[..] == NewPool(c);
      InitialInv(n, c, s[..]);
    }

    /** `hash_new`: a table of 16 buckets and 32 slots, or null when either
        allocation fails. */
    static method New(mallocTable: bool, mallocArena: bool) returns (t: HashTable?<V>)
      ensures t == null <==> !(mallocTable && mallocArena)
      ensures t != null ==> && fresh(t) && t.Valid() && t.contents == map[] && t.count == 0
                            && t.buckets == 16 && t.cap == 32 && t.iter.entry == NIL
                            && fresh(t.bucket) && fresh(t.slots) && fresh(t.iter)
    {
      if !mallocTable {
        return null;
      }
      if !mallocArena {
        return null;
      }
      t := new HashTable<V>.Alloc(16, 32);
    }

    /** The number of free slots is zero exactly when the freelist is NULL. */
    lemma FullIffNoFreelist()
      requires Valid()
      ensures freelist == NIL <==> count == cap
    {
      CountBounds(Snap());
    }

    /** The chain search of `hash_fetch`, `hash_exists`, `hash_exists_pair`
        and `hash_store`: walks chain `h % buckets` until an entry with the
        same hash and key. */
    method Find(key: CString, h: Hash) returns (e: int, ghost j: int)
      requires Valid() && h == Hash33(key)
      ensures var b := BucketOf(h, buckets);
        && j == Search(slots[..], chains[b], key)
        && (e == NIL <==> j == |chains[b]|)
        && (e != NIL ==> chains[b][j] == e && 0 <= e < slots.Length && slots[e].Used? && slots[e].key == key)
      ensures e == NIL <==> key !in contents
      ensures e != NIL ==> slots[e].value == contents[key]
    {
      ghost var sl := slots[..];
      var b := h % buckets;
      e := bucket[b];
      j := 0;
      if chains[b] != [] {
        assert EntryOk(sl, chains, role, contents, b, 0);
      }
      while e != NIL
        invariant 0 <= j <= |chains[b]|
        invariant e == if j < |chains[b]| then chains[b][j] else NIL
        invariant e == NIL <==> j == |chains[b]|
        invariant forall i | 0 <= i < j :: KeyAt(sl, chains[b][i]) != key
        decreases |chains[b]| - j
      {
        assert EntryOk(sl, chains, role, contents, b, j);
        assert sl[e] == slots[e];
        if slots[e].hash == h && slots[e].key == key {
          SearchFinds(bucket[..], sl, chains, role, contents, key);
          return;
        }
        assert KeyAt(sl, chains[b][j]) != key;
        e := slots[e].next;
        j := j + 1;
        if j < |chains[b]| {
          assert EntryOk(sl, chains, role, contents, b, j);
        }
      }
      SearchFinds(bucket[..], sl, chains, role, contents, key);
    }

    /** `hash_fetch`: the stored value, or None (NULL) for a missing key. */
    method Fetch(key: CString) returns (v: Option<V>)
      requires Valid()
      ensures v == Lookup(Snap(), key)
      ensures v == if key in contents then Some(contents[key]) else None
    {
      var h := HashCompute(key);
      var e, j := Find(key, h);
      LookupIsContents(Snap(), key);
      if e == NIL {
        return None;
      }
      v := Some(slots[e].value);
    }

    /** `hash_exists` */
    method Exists(key: CString) returns (b: bool)
      requires Valid()
      ensures b == (key in contents)
    {
      var h := HashCompute(key);
      var e, j := Find(key, h);
      b := e != NIL;
    }

    /** `hash_exists_pair`: the stored (key, value) pair, or None (NULL). */
    method ExistsPair(key: CString) returns (p: Option<(CString, V)>)
      requires Valid()
      ensures p == if key in contents then Some((key, contents[key])) else None
    {
      var h := HashCompute(key);
      var e, j := Find(key, h);
      if e == NIL {
        return None;
      }
      p := Some((slots[e].key, slots[e].value));
    }

    /** `hash_count`: the number of keys, which is also the number of
        entries on all chains and at most the capacity. */
    function Count(): (n: int)
      reads this, bucket, slots
      requires Valid()
      ensures n == |contents| && n == |Flat(chains)| && 0 <= n <= cap
    {
      CountBounds(Snap());
      count
    }

    /** `hash_freelist_alloc_entry`: hands out the first slot of the head
        run. The rest of the run, if any, becomes the new head with the same
        successor; otherwise the head's successor becomes the head. */
    method AllocEntry() returns (s: int)
      requires Valid() && freelist != NIL
      modifies this`freelist, this`chunks, this`role, slots
      ensures s == old(freelist)
      ensures Snap() == AllocState(old(Snap()))
      ensures Reserved(s)
      ensures bucket == old(bucket) && slots == old(slots)
    {
      ghost var st := Snap();
      AllocPreserves(st);
      s := freelist;
      var chunk := slots[s];
      if chunk.size > 1 {
        slots[s + 1] := Free(chunk.nextChunk, chunk.size - 1);
        freelist := s + 1;
      } else {
        freelist := chunk.nextChunk;
      }
      chunks, role := AllocChunks(st.chunks), AllocRole(st.role, st.chunks);
      assert Snap() == AllocState(st);
    }

    /** The hit of `hash_store`'s chain walk: entry `e` gets the new value. */
    method SetValue(e: int, value: V)
      requires 0 <= e < slots.Length && slots[e].Used?
      modifies this`contents, slots
      ensures Snap() == OverwriteState(old(Snap()), e, value)
      ensures bucket == old(bucket) && slots == old(slots)
    {
      ghost var st := Snap();
      slots[e] := slots[e].(value := value);
      contents := st.contents[st.slots[e].key := value];
      assert Snap() == OverwriteState(st, e, value);
    }

    /** The ALLOCATE_ENTRY tail of `hash_store` for a key the table does not
        hold, once the freelist is not NULL: the head slot of the freelist
        gets the entry, which becomes the head of the key's chain. */
    method InsertNew(key: CString, h: Hash, value: V)
      requires Valid() && h == Hash33(key) && key !in contents && freelist != NIL
      modifies this`freelist, this`count, this`chains, this`chunks, this`role, this`contents, bucket, slots
      ensures Snap() == StoreState(old(Snap()), key, value)
      ensures Valid()
      ensures bucket == old(bucket) && slots == old(slots)
    {
      ghost var st := Snap();
      StoreNew(st, key, value);
      StorePreserves(st, key, value);
      var b := h % buckets;
      var e := AllocEntry();
      ghost var sa := Snap();
      slots[e] := Used(key, value, bucket[b], h);
      bucket[b] := e;
      count := count + 1;
      chains, role, contents := sa.chains[b := [e] + sa.chains[b]], sa.role[e := InChain(b)], sa.contents[key := value];
      assert Snap() == LinkState(sa, e, key, value);
    }

    /** `hash_store`: maps `key` to `value`. A key already there only gets
        the new value; a new key takes a slot from the freelist and, when
        the freelist is NULL, the table is first rebuilt by `hash_resize`
        with twice the buckets and twice the slots, which may fail: then
        nothing changes and the result is false. `mallocOk` says whether
        the `malloc` of that resize succeeds. */
    method Store(key: CString, value: V, mallocOk: bool) returns (ok: bool)
      requires Valid() && (freelist == NIL && key !in contents ==> 2 * cap <= INT_MAX)
      modifies this, bucket, slots, iter
      decreases if freelist == NIL then 2 else 0, 1
      ensures ok == (key in old(contents) || old(freelist) != NIL || mallocOk)
      ensures !ok ==> unchanged(this, iter) && unchanged(bucket, slots)
      ensures ok ==> Valid() && Snap() == StoreState(Room(old(Snap()), key), key, value)
      ensures ok && (key in old(contents) || old(freelist) != NIL) ==>
                bucket == old(bucket) && slots == old(slots) && iter.entry == old(iter.entry) && iter.bucket == old(iter.bucket)
      ensures ok && !(key in old(contents) || old(freelist) != NIL) ==> fresh(bucket) && fresh(slots) && iter.entry == NIL && iter.bucket == 0
    {
      ghost var st := Snap();
      var h := HashCompute(key);
      var e, j := Find(key, h);
      if e != NIL {
        StoreFound(st, key, value, j);
        OverwritePreserves(st, BucketOf(h, buckets), j, value);
        SetValue(e, value);
        return true;
      }
      ok := StoreMiss(key, h, value, mallocOk);
    }

    /** `hash_store` once the chain walk has missed: the ALLOCATE_ENTRY
        part, with the resize and the second search a NULL freelist leads
        to. */
    method StoreMiss(key: CString, h: Hash, value: V, mallocOk: bool) returns (ok: bool)
      requires Valid() && h == Hash33(key) && key !in contents && (freelist == NIL ==> 2 * cap <= INT_MAX)
      modifies this, bucket, slots, iter
      decreases if freelist == NIL then 2 else 0, 0
      ensures ok == (old(freelist) != NIL || mallocOk)
      ensures !ok ==> unchanged(this, iter) && unchanged(bucket, slots)
      ensures ok ==> Valid() && Snap() == StoreState(Room(old(Snap()), key), key, value)
      ensures ok && old(freelist) != NIL ==>
                bucket == old(bucket) && slots == old(slots) && iter.entry == old(iter.entry) && iter.bucket == old(iter.bucket)
      ensures ok && old(freelist) == NIL ==> fresh(bucket) && fresh(slots) && iter.entry == NIL && iter.bucket == 0
    {
      if freelist == NIL {
        ok := Grow(key, h, value, mallocOk);
      } else {
        InsertNew(key, h, value);
        ok := true;
      }
    }

    /** `hash_store` with a NULL freelist: `hash_resize` to twice the
        buckets and twice the slots, back to SEARCH_ENTRY (the key is not in
        the rebuilt table either), then ALLOCATE_ENTRY. */
    method Grow(key: CString, h: Hash, value: V, mallocOk: bool) returns (ok: bool)
      requires Valid() && h == Hash33(key) && key !in contents && freelist == NIL && 2 * cap <= INT_MAX
      modifies this, bucket, slots, iter
      decreases 1, 1
      ensures ok == mallocOk
      ensures !ok ==> unchanged(this, iter) && unchanged(bucket, slots)
      ensures ok ==> Valid() && Snap() == StoreState(Room(old(Snap()), key), key, value)
      ensures ok ==> fresh(bucket) && fresh(slots) && iter.entry == NIL && iter.bucket == 0
    {
      ghost var st := Snap();
      FullIffNoFreelist();
      ok := Resize(2 * buckets, 2 * cap, mallocOk);
      if !ok {
        return;
      }
      assert Snap() == Room(st, key);
      Research(key, h, value);
    }

    /** SEARCH_ENTRY again after a resize: the walk misses, so the entry
        goes in at ALLOCATE_ENTRY. */
    method Research(key: CString, h: Hash, value: V)
      requires Valid() && h == Hash33(key) && key !in contents && freelist != NIL
      modifies this`freelist, this`count, this`chains, this`chunks, this`role, this`contents, bucket, slots
      ensures Snap() == StoreState(old(Snap()), key, value)
      ensures Valid()
      ensures bucket == old(bucket) && slots == old(slots)
      ensures iter.entry == old(iter.entry) && iter.bucket == old(iter.bucket)
    {
      var e, j := Find(key, h);
      InsertNew(key, h, value);
    }

    /** `hash_resize`: stores every entry, bucket by bucket and each chain
        from its head, into a fresh table of `n` buckets and ArenaCap(n, c)
        slots, which then replaces this one. `mallocOk` says whether the
        `malloc` of the new arena succeeds; when it fails nothing changes.
        hash.c reads an entry and stores it before reading the next one;
        the two tables share no memory, so reading the whole walk first and
        then storing it pair by pair makes the same stores. */
    method Resize(n: int, c: int, mallocOk: bool) returns (ok: bool)
      requires Valid() && 1 <= n <= INT_MAX && c <= INT_MAX && count <= ArenaCap(n, c)
      modifies this, iter
      decreases 1, 0
      ensures ok == mallocOk
      ensures !ok ==> unchanged(this, iter)
      ensures ok ==> && Valid() && Snap() == ResizeState(old(Snap()), n, c)
                     && fresh(bucket) && fresh(slots) && iter.entry == NIL && iter.bucket == 0
    {
      if !mallocOk {
        return false;
      }
      var t := Rebuilt(n, c);
      Adopt(t);
      ok := true;
    }

    /** The new table of `hash_resize`, `n` buckets and ArenaCap(n, c)
        slots, with every entry of this one stored into it; this table is
        left as it is. */
    method Rebuilt(n: int, c: int) returns (t: HashTable<V>)
      requires Valid() && 1 <= n <= INT_MAX && c <= INT_MAX && count <= ArenaCap(n, c)
      decreases 0, 3
      ensures fresh(t) && fresh(t.bucket) && fresh(t.slots) && fresh(t.iter)
      ensures t.Snap() == ResizeState(Snap(), n, c)
      ensures t.iter.entry == NIL && t.iter.bucket == 0
    {
      ghost var st := Snap();
      t := new HashTable<V>.Alloc(n, c);
      assert Snap() == st;
      var ps := WalkPairs();
      StoreEach(t, ps);
      assert t.Snap() == ResizeState(st, n, c);
    }

    /** The end of `hash_resize`: this table takes over the arrays and the
        counters of `t`. */
    method Adopt(t: HashTable<V>)
      requires t != this && t.iter != iter
      modifies this, iter
      ensures Snap() == old(t.Snap())
      ensures bucket == t.bucket && slots == t.slots
      ensures iter.entry == t.iter.entry && iter.bucket == t.iter.bucket
    {
      ghost var ts := t.Snap();
      bucket, slots, freelist, buckets, count, cap := t.bucket, t.slots, t.freelist, t.buckets, t.count, t.cap;
      chains, chunks, role, contents := t.chains, t.chunks, t.role, t.contents;
      iter.entry, iter.bucket, iter.pos := t.iter.entry, t.iter.bucket, t.iter.pos;
      assert bucket[..] == ts.bucket && slots[..] == ts.slots;
    }

    /** The two loops of `hash_resize` over the old table: every (key,
        value) pair, bucket by bucket and each chain from its head. */
    method WalkPairs() returns (ps: seq<(CString, V)>)
      requires Valid()
      ensures ps == Walk(Snap())
    {
      ghost var st := Snap();
      assert |Walk(st)| == |Flat(st.chains)|;
      ps := [];
      var i := 0;
      while i < buckets
        invariant 0 <= i <= buckets && ps == Walk(st)[..Offset(st.chains, i)]
      {
        ps := ChainPairs(i, ps);
        assert Snap() == st;
        i := i + 1;
      }
      OffsetEnd(st.chains);
      assert Walk(st)[..Offset(st.chains, i)] == Walk(st);
    }

    /** The inner loop of `hash_resize`: the pairs of bucket `i`, from the
        head of its chain, appended to `ps`, the pairs of the buckets
        before it. */
    method ChainPairs(i: int, ps: seq<(CString, V)>) returns (ps': seq<(CString, V)>)
      requires Valid() && 0 <= i < buckets
      requires ps == Walk(Snap())[..Offset(chains, i)]
      ensures ps' == Walk(Snap())[..Offset(chains, i + 1)]
    {
      ghost var st := Snap();
      WalkChainStart(st, i);
      var e := bucket[i];
      ghost var j := 0;
      ps' := ps;
      while e != NIL
        invariant 0 <= j <= |st.chains[i]| && e == (if j < |st.chains[i]| then st.chains[i][j] else NIL)
        invariant j < |st.chains[i]| ==> 0 <= st.chains[i][j]
        invariant ps' == Walk(st)[..Offset(st.chains, i) + j]
        decreases |st.chains[i]| - j
      {
        WalkExtend(st, i, j);
        ps' := ps' + [(slots[e].key, slots[e].value)];
        e := slots[e].next;
        j := j + 1;
      }
    }

    /** The `hash_store` calls of `hash_resize`: the pairs `ps`, first to
        last, into the fresh table `t`. None of them needs to grow `t`. */
    static method StoreEach(t: HashTable<V>, ps: seq<(CString, V)>)
      requires t.Valid() && t.contents == map[] && |ps| <= t.cap
      modifies t, t.bucket, t.slots, t.iter
      decreases 0, 2
      ensures t.Snap() == Rehash(old(t.Snap()), ps)
      ensures t.bucket == old(t.bucket) && t.slots == old(t.slots)
      ensures t.iter.entry == old(t.iter.entry) && t.iter.bucket == old(t.iter.bucket)
    {
      ghost var init := t.Snap();
      var k := 0;
      while k < |ps|
        invariant 0 <= k <= |ps|
        invariant t.bucket == old(t.bucket) && t.slots == old(t.slots)
        invariant t.iter.entry == old(t.iter.entry) && t.iter.bucket == old(t.iter.bucket)
        invariant t.Snap() == Rehash(init, ps[..k])
      {
        RehashStep(init, ps, k);
        ghost var before := t.Snap();
        CountBounds(before);
        RoomKeeps(before, ps[k].0);
        var stored := t.Store(ps[k].0, ps[k].1, true);
        assert t.Snap() == StoreState(before, ps[k].0, ps[k].1);
        k := k + 1;
      }
      assert ps[..k] == ps;
    }

    /** `hash_delete`: removes `key` and its value; nothing happens when the
        table does not hold it. The freed slot becomes the head of the
        freelist. */
    method Delete(key: CString)
      requires Valid()
      modifies this`freelist, this`count, this`chains, this`chunks, this`role, this`contents, bucket, slots
      ensures Valid() && Snap() == DeleteState(old(Snap()), key)
      ensures contents == old(contents) - {key}
      ensures bucket == old(bucket) && slots == old(slots)
    {
      ghost var st := Snap();
      DeletePreserves(st, key);
      var h := HashCompute(key);
      var prev, e, j := FindPrev(key, h);
      if e == NIL {
        return;
      }
      var b := h % buckets;
      DeleteFound(st, key, j);
      Detach(b, j, prev, e);
      ghost var su := Snap();
      FreeEntry(e);
      assert Snap() == FreeState(su, st.chains[b][j]);
    }

    /** The chain walk of `hash_delete`: the first entry of the key's chain
        holding `key` and the entry before it (NIL for the head, which
        hash.c handles through the bucket itself), or NIL when the key is
        not there. */
    method FindPrev(key: CString, h: Hash) returns (prev: int, e: int, ghost j: int)
      requires Valid() && h == Hash33(key)
      ensures var c := chains[BucketOf(h, buckets)]; var k := Search(slots[..], c, key);
        && e == (if k < |c| then c[k] else NIL) && (e == NIL <==> k == |c|)
        && prev == (if 0 < k <= |c| then c[k - 1] else NIL)
      ensures j == Search(slots[..], chains[BucketOf(h, buckets)], key)
    {
      ghost var st := Snap();
      var b := h % buckets;
      ghost var c := st.chains[b];
      WalkChainStart(st, b);
      if c != [] {
        ChainLink(st, b, 0);
      }
      e := bucket[b];
      prev := NIL;
      j := 0;
      while e != NIL && !(slots[e].hash == h && slots[e].key == key)
        invariant 0 <= j <= |c| && e == (if j < |c| then c[j] else NIL)
        invariant j < |c| ==> 0 <= c[j] < |st.slots| && st.slots[c[j]].Used? && st.slots[c[j]].hash == Hash33(st.slots[c[j]].key)
        invariant prev == if 0 < j <= |c| then c[j - 1] else NIL
        invariant forall i | 0 <= i < j :: KeyAt(st.slots, c[i]) != key
        decreases |c| - j
      {
        ChainLink(st, b, j);
        assert st.slots[e] == slots[e];
        assert KeyAt(st.slots, c[j]) != key;
        if j + 1 < |c| {
          ChainLink(st, b, j + 1);
        }
        prev := e;
        e := slots[e].next;
        j := j + 1;
      }
    }

    /** The unlinking of `hash_delete`: entry `j` of chain `b`, in slot `e`,
        leaves its chain through the bucket when it is the head and through
        the link of `prev` otherwise; `count` drops by one. */
    method Detach(b: int, ghost j: int, prev: int, e: int)
      requires Valid() && 0 <= b < buckets && 0 <= j < |chains[b]| && e == chains[b][j]
      requires prev == if j == 0 then NIL else chains[b][j - 1]
      modifies this`count, this`chains, this`role, this`contents, bucket, slots
      ensures Snap() == UnlinkState(old(Snap()), b, j)
      ensures bucket == old(bucket) && slots == old(slots)
    {
      ghost var st := Snap();
      UnlinkReady(st, b, j);
      LinkPast(b, prev, e);
      assert bucket[..] == UnlinkedBucket(st.bucket, st.slots, st.chains, b, j);
      assert slots[..] == UnlinkedSlots(st.slots, st.chains, b, j);
      count := count - 1;
      chains, role, contents := st.chains[b := Unlinked(st.chains[b], j)], st.role[e := InChunk(e)], st.contents - {st.slots[e].key};
      assert Snap() == UnlinkState(st, b, j);
    }

    /** The link `hash_delete` rewrites: bucket `b` when the entry in slot
        `e` heads its chain (`prev` is NIL), the link of `prev` otherwise;
        either now skips `e`. */
    method LinkPast(b: int, prev: int, e: int)
      requires 0 <= b < bucket.Length && 0 <= e < slots.Length && slots[e].Used?
      requires prev != NIL ==> 0 <= prev < slots.Length && slots[prev].Used?
      modifies bucket, slots
      ensures prev == NIL ==> bucket[..] == old(bucket[..])[b := old(slots[e].next)] && slots[..] == old(slots[..])
      ensures prev != NIL ==> bucket[..] == old(bucket[..]) && slots[..] == old(slots[..])[prev := old(slots[prev]).(next := old(slots[e].next))]
    {
      if prev == NIL {
        bucket[b] := slots[e].next;
      } else {
        slots[prev] := slots[prev].(next := slots[e].next);
      }
    }

    /** `hash_freelist_free_entry`, as its callers need it: slot `s` is
        pushed on the freelist as a one-slot run whose successor is the old
        head (`FreePreserves` shows this restores the invariant when `s` is
        reserved). Deliberate deviation from hash.c:132, which links the
        slot to the old head's successor instead and never writes the run
        size; the literal behaviour is `LiteralFree` in module Findings. */
    method FreeEntry(s: int)
      requires 0 <= s < slots.Length && s < |role|
      modifies this`freelist, this`chunks, this`role, slots
      ensures Snap() == FreeState(old(Snap()), s)
      ensures bucket == old(bucket) && slots == old(slots)
    {
      ghost var st := Snap();
      slots[s] := Free(freelist, 1);
      freelist := s;
      chunks, role := [Chunk(s, 1)] + st.chunks, st.role[s := InChunk(s)];
      assert Snap() == FreeState(st, s);
    }

    /** The iterator position is one `hash_iter_pairs` left: none, or entry
        `iter.pos` of chain `iter.bucket`. */
    ghost predicate IterOk()
      reads this, iter
    {
      iter.entry == NIL ||
        (0 <= iter.bucket < |chains| && 0 <= iter.pos < |chains[iter.bucket]| && chains[iter.bucket][iter.pos] == iter.entry)
    }

    /** How many pairs of the walk the iterator has handed out since it was
        last reset or ran off the end. */
    ghost function Yielded(): (k: nat)
      reads this, bucket, slots, iter
      requires Valid() && IterOk()
      ensures k <= |Walk(Snap())|
    {
      CountBounds(Snap());
      if iter.entry == NIL then 0
      else
        FlatIndex(chains, iter.bucket, iter.pos);
        Offset(chains, iter.bucket) + iter.pos + 1
    }

    /** `hash_iter_reset`: the next `hash_iter_pairs` starts from the
        first bucket. */
    method IterReset()
      modifies iter
      ensures iter.entry == NIL && iter.bucket == old(iter.bucket)
      ensures IterOk()
    {
      iter.entry := NIL;
    }

    /** `hash_iter_pairs`: the next pair of the walk (bucket by bucket, each
        chain from its head), resuming after the entry it returned last; at
        the end it returns None (NULL) and resets the iterator, so the next
        call starts over. */
    method IterPairs() returns (p: Option<(CString, V)>)
      requires Valid() && IterOk()
      modifies iter
      ensures Valid() && IterOk() && Snap() == old(Snap())
      ensures var w := Walk(Snap()); var k := old(Yielded());
        && (k < |w| ==> p == Some(w[k]) && Yielded() == k + 1)
        && (k == |w| ==> p == None && iter.entry == NIL)
    {
      var i, e, j := Locate();
      if e == NIL {
        iter.entry := NIL;
        return None;
      }
      var pair := Visit(i, e, j);
      p := Some(pair);
    }

    /** Where `hash_iter_pairs` finds the next pair: entry `j` of chain `i`,
        in slot `e`, standing at the iterator's count of yielded pairs in the
        walk; NIL when the walk is used up. */
    method Locate() returns (i: int, e: int, ghost j: int)
      requires Valid() && IterOk()
      ensures e == NIL <==> Yielded() == |Walk(Snap())|
      ensures e != NIL ==> 0 <= i < buckets && 0 <= j < |chains[i]| && chains[i][j] == e && Offset(chains, i) + j == Yielded()
    {
      CountBounds(Snap());
      ChainHeads(Snap());
      i, e, j := Resume();
      i, e, j := Advance(i, e, j);
    }

    /** The return of `hash_iter_pairs` that finds entry `j` of chain `i`,
        in slot `e`: the iterator now stands on it and hands out its pair. */
    method Visit(i: int, e: int, ghost j: int) returns (pair: (CString, V))
      requires Valid() && IterOk() && 0 <= i < buckets && 0 <= j < |chains[i]| && chains[i][j] == e
      requires Offset(chains, i) + j == Yielded()
      modifies iter
      ensures IterOk() && Yielded() == old(Yielded()) + 1
      ensures pair == Walk(Snap())[old(Yielded())]
    {
      ghost var st, k := Snap(), Yielded();
      assert k == Offset(st.chains, i) + j;
      pair := PairAt(i, e, j);
      assert Snap() == st;
      assert pair == Walk(st)[Offset(st.chains, i) + j];
      iter.bucket, iter.entry, iter.pos := i, e, j;
      assert Snap() == st;
    }

    /** The pair of entry `j` of chain `i`, in slot `e`: pair
        Offset(chains, i) + j of the walk. */
    method PairAt(i: int, e: int, ghost j: int) returns (pair: (CString, V))
      requires Valid() && 0 <= i < buckets && 0 <= j < |chains[i]| && chains[i][j] == e
      ensures 0 <= e < slots.Length
      ensures Offset(chains, i) + j < |Walk(Snap())| && pair == Walk(Snap())[Offset(chains, i) + j]
    {
      ghost var st := Snap();
      assert |Walk(st)| == |Flat(st.chains)|;
      WalkStep(st, i, j);
      assert st.slots[e] == slots[e];
      pair := (slots[e].key, slots[e].value);
    }

    /** The search of `hash_iter_pairs` for the next entry, from entry `j0`
        of chain `i0` (NIL past its end) on to the following buckets while
        the current one is used up. It stops at the first entry it meets,
        pair Offset(i0) + j0 of the walk, or at NIL past the last chain. */
    method Advance(i0: int, e0: int, ghost j0: int) returns (i: int, e: int, ghost j: int)
      requires Heads() && 0 <= i0 < buckets && 0 <= j0 <= |chains[i0]|
      requires e0 == (if j0 < |chains[i0]| then chains[i0][j0] else NIL)
      requires j0 < |chains[i0]| ==> 0 <= chains[i0][j0]
      ensures e == NIL <==> Offset(chains, i0) + j0 == |Flat(chains)|
      ensures e != NIL ==> 0 <= i < buckets && 0 <= j < |chains[i]| && chains[i][j] == e && Offset(chains, i) + j == Offset(chains, i0) + j0
    {
      ghost var k := Offset(chains, i0) + j0;
      i, e, j := i0, e0, j0;
      while e == NIL && i + 1 < buckets
        invariant 0 <= i < buckets && 0 <= j <= |chains[i]|
        invariant e == (if j < |chains[i]| then chains[i][j] else NIL)
        invariant j < |chains[i]| ==> 0 <= chains[i][j]
        invariant Offset(chains, i) + j == k
        decreases buckets - i
      {
        OffsetStep(chains, i);
        i := i + 1;
        e := bucket[i];
        j := 0;
      }
      if e == NIL {
        OffsetStep(chains, i);
        OffsetEnd(chains);
      } else {
        FlatIndex(chains, i, j);
      }
    }

    /** Every bucket holds the head of its chain: a slot index, or NIL. */
    ghost predicate Heads()
      reads this, bucket
    {
      && |chains| == buckets == bucket.Length >= 1
      && forall b | 0 <= b < buckets :: bucket[b] == HeadOf(chains[b]) && (chains[b] != [] ==> 0 <= chains[b][0])
    }

    /** Where the search of `hash_iter_pairs` starts: the successor of the
        entry it returned last, or the head of the first bucket. */
    method Resume() returns (i: int, e: int, ghost j: int)
      requires Valid() && IterOk()
      ensures 0 <= i < buckets && 0 <= j <= |chains[i]|
      ensures e == (if j < |chains[i]| then chains[i][j] else NIL)
      ensures j < |chains[i]| ==> 0 <= chains[i][j]
      ensures Offset(chains, i) + j == Yielded()
    {
      ghost var st := Snap();
      if iter.entry != NIL {
        i := iter.bucket;
        ChainLink(st, i, iter.pos);
        j := iter.pos + 1;
        if j < |st.chains[i]| {
          ChainLink(st, i, j);
        }
        e := slots[iter.entry].next;
      } else {
        i := 0;
        WalkChainStart(st, 0);
        OffsetZero(st.chains);
        e := bucket[0];
        j := 0;
      }
    }

    /** `hash_iter_keys`: the key of the next pair, or None (NULL). */
    method IterKeys() returns (key: Option<CString>)
      requires Valid() && IterOk()
      modifies iter
      ensures Valid() && IterOk() && Snap() == old(Snap())
      ensures var w := Walk(Snap()); var k := old(Yielded());
        && (k < |w| ==> key == Some(w[k].0) && Yielded() == k + 1)
        && (k == |w| ==> key == None && iter.entry == NIL)
    {
      var p := IterPairs();
      if p.Some? {
        return Some(p.value.0);
      }
      key := None;
    }

    /** `hash_iter_values`: the value of the next pair, or None (NULL). */
    method IterValues() returns (value: Option<V>)
      requires Valid() && IterOk()
      modifies iter
      ensures Valid() && IterOk() && Snap() == old(Snap())
      ensures var w := Walk(Snap()); var k := old(Yielded());
        && (k < |w| ==> value == Some(w[k].1) && Yielded() == k + 1)
        && (k == |w| ==> value == None && iter.entry == NIL)
    {
      var p := IterPairs();
      if p.Some? {
        return Some(p.value.1);
      }
      value := None;
    }
  }
}
