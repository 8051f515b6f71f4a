/** The entry-slot arena of hash.c and its intrusive freelist, in index form.
    A slot either holds a live entry (`HashEntry`) or, at the head of a run of
    unused slots, a free-chunk header (`HashEntryChunk`) that overlays the
    same memory (hash.h:11-21). Slot indices replace the pointers; NIL plays
    the part of NULL. */
module Arena {
  import opened Djb2

  const NIL: int := -1

  /** `Used` mirrors `HashEntry {key, value, next, hash}`, `Free` mirrors
      `HashEntryChunk {next, size}`. Slots inside a run other than its head
      hold whatever was last written there. */
  datatype Slot<V> =
    | Used(key: CString, value: V, next: int, hash: Hash)
    | Free(nextChunk: int, size: int)

  /** One element of the freelist: a run of `size` slots starting at `head`. */
  datatype Chunk = Chunk(head: int, size: nat)

  /** Which structure owns a slot: chain `bucket` or the chunk headed at
      `head`. Ownership is what makes chains and chunks disjoint. */
  datatype Role = InChain(bucket: int) | InChunk(head: int)

  function ChunkHead(chunks: seq<Chunk>): int {
    if chunks == [] then NIL else chunks[0].head
  }

  function NextChunk(chunks: seq<Chunk>, c: int): int
    requires 0 <= c < |chunks|
  {
    if c + 1 < |chunks| then chunks[c + 1].head else NIL
  }

  /** Number of free slots: the sum of the run lengths. */
  function FreeTotal(chunks: seq<Chunk>): nat {
    if chunks == [] then 0 else chunks[0].size + FreeTotal(chunks[1..])
  }

  predicate InRun(ch: Chunk, x: int) {
    ch.head <= x < ch.head + ch.size
  }

  /** The header of chunk `c` sits in its first slot and links to chunk c+1. */
  predicate ChunkOk<V>(slots: seq<Slot<V>>, chunks: seq<Chunk>, c: int)
    requires 0 <= c < |chunks|
  {
    var ch := chunks[c];
    1 <= ch.size && 0 <= ch.head && ch.head + ch.size <= |slots| &&
    slots[ch.head] == Free(NextChunk(chunks, c), ch.size)
  }

  /** The freelist that starts at `freelist` is the chunk list `chunks`: the
      headers link the chunks in order, the runs are in range, their heads are
      pairwise distinct and every slot of a run is owned by that run. */
  ghost predicate FreeOk<V>(freelist: int, slots: seq<Slot<V>>, chunks: seq<Chunk>, role: seq<Role>) {
    && |role| == |slots|
    && freelist == ChunkHead(chunks)
    && (forall c | 0 <= c < |chunks| :: ChunkOk(slots, chunks, c))
    && (forall c, x {:trigger InRun(chunks[c], x)} | 0 <= c < |chunks| && InRun(chunks[c], x) :: 0 <= x < |role| && role[x] == InChunk(chunks[c].head))
    && (forall c, d | 0 <= c < d < |chunks| :: chunks[c].head != chunks[d].head)
  }

  /** The freelist is NULL exactly when no slot is free. */
  lemma EmptyIffNoFree<V>(freelist: int, slots: seq<Slot<V>>, chunks: seq<Chunk>, role: seq<Role>)
    requires FreeOk(freelist, slots, chunks, role)
    ensures freelist == NIL <==> FreeTotal(chunks) == 0
  {
    if chunks != [] {
      assert ChunkOk(slots, chunks, 0);
    }
  }

  /** Slot `x` lies in no run of the freelist. */
  predicate NotCovered(chunks: seq<Chunk>, x: int) {
    forall c | 0 <= c < |chunks| :: !InRun(chunks[c], x)
  }

  /** A slot owned by a chain is covered by no chunk. */
  lemma ChainSlotNotCovered<V>(freelist: int, slots: seq<Slot<V>>, chunks: seq<Chunk>, role: seq<Role>, x: int)
    requires FreeOk(freelist, slots, chunks, role)
    requires 0 <= x < |role| && role[x].InChain?
    ensures NotCovered(chunks, x)
  {
  }

  /** The freelist is untouched by writes to slots outside every run. */
  lemma FreeFrame<V>(freelist: int, slots: seq<Slot<V>>, slots': seq<Slot<V>>, chunks: seq<Chunk>, role: seq<Role>, role': seq<Role>)
    requires FreeOk(freelist, slots, chunks, role)
    requires |slots'| == |slots| && |role'| == |role|
    requires forall c, x {:trigger InRun(chunks[c], x)} | 0 <= c < |chunks| && InRun(chunks[c], x) && 0 <= x < |slots| :: slots'[x] == slots[x] && role'[x] == role[x]
    ensures FreeOk(freelist, slots', chunks, role')
  {
    forall c | 0 <= c < |chunks|
      ensures ChunkOk(slots', chunks, c)
    {
      assert ChunkOk(slots, chunks, c);
      assert InRun(chunks[c], chunks[c].head);
    }
    forall c, x | 0 <= c < |chunks| && InRun(chunks[c], x)
      ensures 0 <= x < |role'| && role'[x] == InChunk(chunks[c].head)
    {
      assert 0 <= x < |role| && role[x] == InChunk(chunks[c].head);
    }
  }

  /** `n` slots, all owned by the chunk headed at `head`. */
  function AllOwnedBy(n: nat, head: int): (r: seq<Role>)
    ensures |r| == n && forall x | 0 <= x < n :: r[x] == InChunk(head)
  {
    seq(n, _ => InChunk(head))
  }

  /** The initial freelist of `hash_alloc`: one chunk covering all `cap`
      slots, with no successor. */
  lemma InitialFreeList<V>(slots: seq<Slot<V>>, cap: int)
    requires cap >= 1 && |slots| == cap && slots[0] == Free(NIL, cap)
    ensures FreeOk(0, slots, [Chunk(0, cap)], AllOwnedBy(cap, 0))
    ensures FreeTotal([Chunk(0, cap)]) == cap
  {
    var chunks := [Chunk(0, cap)];
    var role := AllOwnedBy(cap, 0);
    assert ChunkOk(slots, chunks, 0);
    forall c, x | 0 <= c < |chunks| && InRun(chunks[c], x)
      ensures 0 <= x < |role| && role[x] == InChunk(chunks[c].head)
    {
      assert c == 0;
    }
  }

  /** Owners after the run of `n` slots at `s` gives up its first slot:
      the rest of the run belongs to the chunk now headed at s+1. */
  function SplitRole(role: seq<Role>, s: int, n: int): (r: seq<Role>)
    ensures |r| == |role|
    ensures forall x | 0 <= x < |role| :: r[x] == if s < x < s + n then InChunk(s + 1) else role[x]
  {
    seq(|role|, x requires 0 <= x < |role| => if s < x < s + n then InChunk(s + 1) else role[x])
  }

  /** `hash_freelist_alloc_entry` on the chunk list, when the head run has
      more than one slot: its first slot is handed out, and the rest of the
      run becomes the new head chunk with the same successor. */
  lemma AllocSplit<V>(freelist: int, slots: seq<Slot<V>>, chunks: seq<Chunk>, role: seq<Role>)
    requires FreeOk(freelist, slots, chunks, role)
    requires chunks != [] && chunks[0].size > 1
    ensures
      var s := chunks[0].head;
      var rest := [Chunk(s + 1, chunks[0].size - 1)] + chunks[1..];
      var role' := SplitRole(role, s, chunks[0].size);
      && 0 <= s && s + 1 < |slots|
      && FreeOk(s + 1, slots[s + 1 := Free(NextChunk(chunks, 0), chunks[0].size - 1)], rest, role')
      && NotCovered(rest, s)
      && FreeTotal(rest) + 1 == FreeTotal(chunks)
      && (forall x | 0 <= x < |role| && role[x].InChain? :: role'[x] == role[x] && x != s + 1)
      && role'[s] == role[s]
  {
    var s := chunks[0].head;
    var n := chunks[0].size;
    var rest := [Chunk(s + 1, n - 1)] + chunks[1..];
    var role' := SplitRole(role, s, n);
    assert ChunkOk(slots, chunks, 0);
    var slots' := slots[s + 1 := Free(NextChunk(chunks, 0), n - 1)];
    assert InRun(chunks[0], s) && InRun(chunks[0], s + 1);
    assert role[s + 1] == InChunk(s);
    // the runs of the chunks behind the head keep their slots and owners
    forall c, x | 1 <= c < |chunks| && InRun(chunks[c], x)
      ensures !InRun(chunks[0], x) && x != s + 1
    {
      assert role[x] == InChunk(chunks[c].head);
      assert chunks[c].head != s;
    }
    forall c, x | 0 <= c < |rest| && InRun(rest[c], x)
      ensures 0 <= x < |role'| && role'[x] == InChunk(rest[c].head)
    {
      if c > 0 {
        assert rest[c] == chunks[c];
        assert InRun(chunks[c], x);
        assert role[x] == InChunk(chunks[c].head);
        assert chunks[c].head != s;
        assert !InRun(chunks[0], x);
      }
    }
    assert NextChunk(rest, 0) == NextChunk(chunks, 0);
    forall c | 0 <= c < |rest|
      ensures ChunkOk(slots', rest, c)
    {
      if c > 0 {
        assert rest[c] == chunks[c];
        assert ChunkOk(slots, chunks, c);
        assert InRun(chunks[c], chunks[c].head);
      }
    }
    forall c, d | 0 <= c < d < |rest|
      ensures rest[c].head != rest[d].head
    {
      if c == 0 {
        assert ChunkOk(slots, chunks, d);
        assert InRun(chunks[d], chunks[d].head);
      }
    }
    forall x | 0 <= x < |role| && role[x].InChain?
      ensures role'[x] == role[x] && x != s + 1
    {
      assert !InRun(chunks[0], x);
    }
  }

  /** `hash_freelist_alloc_entry` when the head run is a single slot: the slot
      is handed out and the freelist moves on to the head's successor. */
  lemma AllocWhole<V>(freelist: int, slots: seq<Slot<V>>, chunks: seq<Chunk>, role: seq<Role>)
    requires FreeOk(freelist, slots, chunks, role)
    requires chunks != [] && chunks[0].size == 1
    ensures
      var s := chunks[0].head;
      && 0 <= s < |slots|
      && FreeOk(NextChunk(chunks, 0), slots, chunks[1..], role)
      && NotCovered(chunks[1..], s)
      && FreeTotal(chunks[1..]) + 1 == FreeTotal(chunks)
  {
    var s := chunks[0].head;
    assert ChunkOk(slots, chunks, 0);
    forall c | 0 <= c < |chunks[1..]|
      ensures ChunkOk(slots, chunks[1..], c)
    {
      assert chunks[1..][c] == chunks[c + 1];
      assert ChunkOk(slots, chunks, c + 1);
    }
    forall c | 0 <= c < |chunks[1..]|
      ensures !InRun(chunks[1..][c], s)
    {
      assert chunks[1..][c] == chunks[c + 1];
      assert InRun(chunks[0], s);
      assert chunks[c + 1].head != s;
    }
  }

  /** The freelist runs after `hash_freelist_alloc_entry`: the head run
      loses its first slot, and disappears when that was its only slot. */
  function AllocChunks(chunks: seq<Chunk>): seq<Chunk> {
    if chunks == [] then []
    else if chunks[0].size > 1 then [Chunk(chunks[0].head + 1, chunks[0].size - 1)] + chunks[1..]
    else chunks[1..]
  }

  /** The slots after `hash_freelist_alloc_entry`: a shrunk head run gets a
      new header in its second slot, with the old successor. */
  function AllocSlots<V>(slots: seq<Slot<V>>, chunks: seq<Chunk>): seq<Slot<V>> {
    if chunks != [] && chunks[0].size > 1 && 0 <= chunks[0].head + 1 < |slots|
    then slots[chunks[0].head + 1 := Free(NextChunk(chunks, 0), chunks[0].size - 1)]
    else slots
  }

  /** The owners after `hash_freelist_alloc_entry`. */
  function AllocRole(role: seq<Role>, chunks: seq<Chunk>): seq<Role> {
    if chunks != [] && chunks[0].size > 1 then SplitRole(role, chunks[0].head, chunks[0].size) else role
  }

  /** `hash_freelist_alloc_entry` keeps the freelist well formed, hands out
      a slot that no remaining run covers, frees one slot fewer, and leaves
      every slot owned by a chain as it was. */
  lemma AllocOk<V>(freelist: int, slots: seq<Slot<V>>, chunks: seq<Chunk>, role: seq<Role>)
    requires FreeOk(freelist, slots, chunks, role) && chunks != []
    ensures var s := chunks[0].head;
      var chunks', slots', role' := AllocChunks(chunks), AllocSlots(slots, chunks), AllocRole(role, chunks);
      && 0 <= s < |slots| && |slots'| == |slots| && |role'| == |role|
      && slots[s] == Free(NextChunk(chunks, 0), chunks[0].size)
      && (chunks[0].size > 1 ==> s + 1 < |slots| && slots' == slots[s + 1 := Free(NextChunk(chunks, 0), chunks[0].size - 1)])
      && (chunks[0].size <= 1 ==> slots' == slots)
      && FreeOk(ChunkHead(chunks'), slots', chunks', role')
      && NotCovered(chunks', s) && role'[s] == InChunk(s)
      && FreeTotal(chunks') + 1 == FreeTotal(chunks)
      && (forall x | 0 <= x < |role| && role[x].InChain? :: role'[x] == role[x] && slots'[x] == slots[x])
  {
    var s := chunks[0].head;
    assert ChunkOk(slots, chunks, 0);
    assert InRun(chunks[0], s);
    if chunks[0].size > 1 {
      AllocSplit(freelist, slots, chunks, role);
    } else {
      AllocWhole(freelist, slots, chunks, role);
      assert ChunkHead(chunks[1..]) == NextChunk(chunks, 0);
    }
  }

  /** The evident intent of `hash_freelist_free_entry`: the freed slot is
      pushed as a one-slot chunk whose successor is the old head. */
  lemma FreePush<V>(freelist: int, slots: seq<Slot<V>>, chunks: seq<Chunk>, role: seq<Role>, s: int)
    requires FreeOk(freelist, slots, chunks, role)
    requires 0 <= s < |slots| && NotCovered(chunks, s)
    ensures FreeOk(s, slots[s := Free(freelist, 1)], [Chunk(s, 1)] + chunks, role[s := InChunk(s)])
    ensures FreeTotal([Chunk(s, 1)] + chunks) == FreeTotal(chunks) + 1
  {
    var chunks' := [Chunk(s, 1)] + chunks;
    var slots' := slots[s := Free(freelist, 1)];
    assert chunks'[1..] == chunks;
    forall c | 0 <= c < |chunks'|
      ensures ChunkOk(slots', chunks', c)
    {
      if c > 0 {
        assert chunks'[c] == chunks[c - 1];
        assert ChunkOk(slots, chunks, c - 1);
        assert InRun(chunks[c - 1], chunks[c - 1].head);
      }
    }
    forall c, x | 0 <= c < |chunks'| && InRun(chunks'[c], x)
      ensures 0 <= x < |role| && role[s := InChunk(s)][x] == InChunk(chunks'[c].head)
    {
      if c > 0 {
        assert chunks'[c] == chunks[c - 1];
        assert !InRun(chunks[c - 1], s);
      }
    }
    forall c, d | 0 <= c < d < |chunks'|
      ensures chunks'[c].head != chunks'[d].head
    {
      if c == 0 {
        assert chunks'[d] == chunks[d - 1];
        assert ChunkOk(slots, chunks, d - 1);
        assert InRun(chunks[d - 1], chunks[d - 1].head);
      } else {
        assert chunks'[c] == chunks[c - 1] && chunks'[d] == chunks[d - 1];
      }
    }
  }
}
