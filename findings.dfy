// `hash_freelist_free_entry` as hash.c writes it, beside the push the rest
// of the model uses (Invariant.FreeState, Table.HashTable.FreeEntry).

module Findings {
  import opened Djb2
  import opened Arena
  import opened Chains
  import opened Invariant

  /** What the literal free leads to: the read of `ht->freelist->next`
      through a NULL freelist, or the new slots and freelist head. */
  datatype FreeOutcome<V> = NullDeref | Freed(slots: seq<Slot<V>>, freelist: int)

  /** hash.c:130-134 as written. The freed slot `s` becomes the freelist
      head and links to the successor of the old head run, not to the old
      head; its run size is never written, so it keeps `stale`, whatever the
      bits of the freed entry's `value` pointer that the `size` field of
      HashEntryChunk overlays (hash.h) happen to be. */
  function LiteralFree<V>(slots: seq<Slot<V>>, freelist: int, s: int, stale: int): FreeOutcome<V>
    requires 0 <= s < |slots|
    requires freelist != NIL ==> 0 <= freelist < |slots| && slots[freelist].Free?
  {
    if freelist == NIL then NullDeref
    else Freed(slots[s := Free(slots[freelist].nextChunk, stale)], s)
  }

  /** `hash_delete` of a key from a full table (no free slot, so the
      freelist is NULL) unlinks the entry and then hands it to the literal
      free, which reads through the NULL freelist. */
  lemma FullDeleteDerefsNull<V>(st: TableState<V>, key: CString, stale: int)
    requires Inv(st) && key in st.contents && st.count == st.cap
    ensures var b := BucketOf(Hash33(key), |st.bucket|);
      var j := Search(st.slots, st.chains[b], key);
      && j < |st.chains[b]|
      && ReservedInv(UnlinkState(st, b, j), st.chains[b][j])
      && UnlinkState(st, b, j).freelist == NIL
      && LiteralFree(UnlinkState(st, b, j).slots, NIL, st.chains[b][j], stale) == NullDeref
  {
    var b := BucketOf(Hash33(key), |st.bucket|);
    SearchFinds(st.bucket, st.slots, st.chains, st.role, st.contents, key);
    var j := Search(st.slots, st.chains[b], key);
    DeleteFound(st, key, j);
    CountBounds(st);
  }

  /** A full table holding a key exists: one bucket, one slot, one store. */
  lemma FullTableExists<V>(key: CString, v: V) returns (st: TableState<V>)
    ensures Inv(st) && key in st.contents && st.count == st.cap == 1
  {
    var pool := NewPool<V>(1);
    InitialInv(1, 1, pool);
    var st0 := InitialState(1, 1, pool);
    StorePreserves(st0, key, v);
    st := StoreState(st0, key, v);
  }

  /** On a table with free slots the literal free drops the old head run:
      the freed slot links to the run after it, the other run headers are
      untouched, and no header links to the old head, so following the
      freelist from the new head never reaches the old head run and its
      free slots (at least one) are lost. */
  lemma LiteralFreeDropsHeadRun<V>(st: TableState<V>, s: int, stale: int)
    requires ReservedInv(st, s) && st.freelist != NIL
    ensures st.chunks != [] && st.freelist == st.chunks[0].head && st.chunks[0].size >= 1
    ensures 0 <= s < |st.slots| && 0 <= st.freelist < |st.slots| && st.slots[st.freelist].Free?
    ensures var r := LiteralFree(st.slots, st.freelist, s, stale);
      && r.Freed? && r.freelist == s
      && r.slots[s] == Free(NextChunk(st.chunks, 0), stale)
      && (forall c | 1 <= c < |st.chunks| :: 0 <= st.chunks[c].head < |r.slots| && r.slots[st.chunks[c].head] == st.slots[st.chunks[c].head])
      && (forall c | 0 <= c < |st.chunks| :: NextChunk(st.chunks, c) != st.freelist)
  {
    assert ChunkOk(st.slots, st.chunks, 0);
    forall c | 1 <= c < |st.chunks|
      ensures st.chunks[c].head != s && 0 <= st.chunks[c].head < |st.slots|
    {
      assert ChunkOk(st.slots, st.chunks, c);
      assert InRun(st.chunks[c], st.chunks[c].head);
    }
    forall c | 0 <= c < |st.chunks|
      ensures NextChunk(st.chunks, c) != st.freelist
    {
      if c + 1 < |st.chunks| {
        assert st.chunks[0].head != st.chunks[c + 1].head;
      }
    }
  }
}
