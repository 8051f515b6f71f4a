/** The collision chains of hash.c in index form, and the facts about them
    that store, delete, resize and the iterator rely on. Chain `b` is the
    ghost sequence of slot indices met by walking `bucket[b]` and the `next`
    links; `contents` is the key -> value map the table stands for. */
module Chains {
  import opened Djb2
  import opened Arena

  function HeadOf(chain: seq<int>): int {
    if chain == [] then NIL else chain[0]
  }

  function NextOf(chain: seq<int>, j: int): int
    requires 0 <= j < |chain|
  {
    if j + 1 < |chain| then chain[j + 1] else NIL
  }

  /** `hash % buckets`: the chain a digest selects. */
  function BucketOf(h: Hash, buckets: int): int
    requires buckets >= 1
  {
    h % buckets
  }

  /** The key stored in slot `x`, or the empty key when it holds none. */
  function KeyAt<V>(slots: seq<Slot<V>>, x: int): CString {
    if 0 <= x < |slots| && slots[x].Used? then slots[x].key else []
  }

  /** Entry `j` of chain `b` is a live slot owned by that chain, linking to
      entry j+1; its cached hash is the key's digest and selects chain `b`;
      and its pair belongs to `contents`. */
  ghost predicate EntryOk<V>(slots: seq<Slot<V>>, chains: seq<seq<int>>, role: seq<Role>, contents: map<CString, V>, b: int, j: int)
    requires 0 <= b < |chains| && 0 <= j < |chains[b]|
  {
    var x := chains[b][j];
    && 0 <= x < |slots| && x < |role|
    && role[x] == InChain(b)
    && slots[x].Used?
    && slots[x].next == NextOf(chains[b], j)
    && slots[x].hash == Hash33(slots[x].key)
    && BucketOf(slots[x].hash, |chains|) == b
    && slots[x].key in contents && contents[slots[x].key] == slots[x].value
  }

  /** Key `k` is found in the chain its digest selects. */
  ghost predicate Present<V>(slots: seq<Slot<V>>, chains: seq<seq<int>>, k: CString)
    requires |chains| >= 1
  {
    var b := BucketOf(Hash33(k), |chains|);
    exists j | 0 <= j < |chains[b]| :: KeyAt(slots, chains[b][j]) == k
  }

  /** The chain invariant: every bucket heads its chain, every entry is well
      placed, no chain holds a key twice, and every key of `contents` is in
      its chain. */
  ghost predicate ChainsOk<V>(bucket: seq<int>, slots: seq<Slot<V>>, chains: seq<seq<int>>, role: seq<Role>, contents: map<CString, V>) {
    && |chains| == |bucket| && |bucket| >= 1 && |role| == |slots|
    && (forall b | 0 <= b < |bucket| :: bucket[b] == HeadOf(chains[b]))
    && EntriesOk(slots, chains, role, contents)
    && KeysDistinct(slots, chains)
    && AllPresent(slots, chains, contents)
  }

  ghost predicate EntriesOk<V>(slots: seq<Slot<V>>, chains: seq<seq<int>>, role: seq<Role>, contents: map<CString, V>) {
    forall b, j | 0 <= b < |chains| && 0 <= j < |chains[b]| :: EntryOk(slots, chains, role, contents, b, j)
  }

  ghost predicate KeysDistinct<V>(slots: seq<Slot<V>>, chains: seq<seq<int>>) {
    forall b, i, j | 0 <= b < |chains| && 0 <= i < j < |chains[b]| :: KeyAt(slots, chains[b][i]) != KeyAt(slots, chains[b][j])
  }

  ghost predicate AllPresent<V>(slots: seq<Slot<V>>, chains: seq<seq<int>>, contents: map<CString, V>)
    requires |chains| >= 1
  {
    forall k | k in contents :: Present(slots, chains, k)
  }

  /** The position of the first entry of `chain` holding `key`, or |chain|
      when none does: the chain walk of hash_store, hash_fetch, hash_exists
      and hash_exists_pair. */
  function Search<V>(slots: seq<Slot<V>>, chain: seq<int>, key: CString): (j: nat)
    ensures j <= |chain|
    ensures j < |chain| ==> KeyAt(slots, chain[j]) == key
    ensures forall i | 0 <= i < j :: KeyAt(slots, chain[i]) != key
    decreases |chain|
  {
    if chain == [] then 0
    else if KeyAt(slots, chain[0]) == key then 0
    else 1 + Search(slots, chain[1..], key)
  }

  /** On valid chains the walk of the chain `key` selects stops at an entry
      exactly when `key` is in the table, and that entry holds its value. */
  lemma SearchFinds<V>(bucket: seq<int>, slots: seq<Slot<V>>, chains: seq<seq<int>>, role: seq<Role>, contents: map<CString, V>, key: CString)
    requires ChainsOk(bucket, slots, chains, role, contents)
    ensures var b := BucketOf(Hash33(key), |chains|);
      var j := Search(slots, chains[b], key);
      && (j < |chains[b]| <==> key in contents)
      && (j < |chains[b]| ==> EntryOk(slots, chains, role, contents, b, j) && slots[chains[b][j]].key == key)
  {
    var b := BucketOf(Hash33(key), |chains|);
    var j := Search(slots, chains[b], key);
    if j < |chains[b]| {
      assert EntryOk(slots, chains, role, contents, b, j);
    } else {
      AbsentFromChain(bucket, slots, chains, role, contents, key);
    }
  }

  /** Two entries of the table with the same key are the same entry. */
  lemma SameKeySameEntry<V>(bucket: seq<int>, slots: seq<Slot<V>>, chains: seq<seq<int>>, role: seq<Role>, contents: map<CString, V>,
                            b: int, j: int, b': int, j': int)
    requires ChainsOk(bucket, slots, chains, role, contents)
    requires 0 <= b < |chains| && 0 <= j < |chains[b]| && 0 <= b' < |chains| && 0 <= j' < |chains[b']|
    requires KeyAt(slots, chains[b][j]) == KeyAt(slots, chains[b'][j'])
    ensures b == b' && j == j'
  {
    assert EntryOk(slots, chains, role, contents, b, j);
    assert EntryOk(slots, chains, role, contents, b', j');
  }

  /** A slot owned by no chain is in no chain. */
  lemma NotInChains<V>(bucket: seq<int>, slots: seq<Slot<V>>, chains: seq<seq<int>>, role: seq<Role>, contents: map<CString, V>, x: int)
    requires ChainsOk(bucket, slots, chains, role, contents)
    requires 0 <= x < |role| && !role[x].InChain?
    ensures forall b, j | 0 <= b < |chains| && 0 <= j < |chains[b]| :: chains[b][j] != x
  {
    forall b, j | 0 <= b < |chains| && 0 <= j < |chains[b]|
      ensures chains[b][j] != x
    {
      assert EntryOk(slots, chains, role, contents, b, j);
    }
  }

  /** The chains do not see writes to slots they do not own. */
  lemma ChainsFrame<V>(bucket: seq<int>, slots: seq<Slot<V>>, slots': seq<Slot<V>>, chains: seq<seq<int>>, role: seq<Role>, role': seq<Role>, contents: map<CString, V>)
    requires ChainsOk(bucket, slots, chains, role, contents)
    requires |slots'| == |slots| && |role'| == |role|
    requires forall x | 0 <= x < |slots| && role[x].InChain? :: slots'[x] == slots[x] && role'[x] == role[x]
    ensures ChainsOk(bucket, slots', chains, role', contents)
  {
    forall b, j | 0 <= b < |chains| && 0 <= j < |chains[b]|
      ensures EntryOk(slots', chains, role', contents, b, j) && KeyAt(slots', chains[b][j]) == KeyAt(slots, chains[b][j])
    {
      assert EntryOk(slots, chains, role, contents, b, j);
    }
    forall k | k in contents
      ensures Present(slots', chains, k)
    {
      assert Present(slots, chains, k);
      var b := BucketOf(Hash33(k), |chains|);
      var j :| 0 <= j < |chains[b]| && KeyAt(slots, chains[b][j]) == k;
      assert KeyAt(slots', chains[b][j]) == k;
    }
  }

  /** The chains do not see a write to a slot that lies in none of them. */
  lemma ChainsDetached<V>(bucket: seq<int>, slots: seq<Slot<V>>, chains: seq<seq<int>>, role: seq<Role>, contents: map<CString, V>,
                          s: int, y: Slot<V>, r: Role)
    requires ChainsOk(bucket, slots, chains, role, contents)
    requires 0 <= s < |slots|
    requires forall b, j | 0 <= b < |chains| && 0 <= j < |chains[b]| :: chains[b][j] != s
    ensures ChainsOk(bucket, slots[s := y], chains, role[s := r], contents)
  {
    var slots', role' := slots[s := y], role[s := r];
    forall b, j | 0 <= b < |chains| && 0 <= j < |chains[b]|
      ensures EntryOk(slots', chains, role', contents, b, j) && KeyAt(slots', chains[b][j]) == KeyAt(slots, chains[b][j])
    {
      assert EntryOk(slots, chains, role, contents, b, j);
    }
    forall k | k in contents
      ensures Present(slots', chains, k)
    {
      assert Present(slots, chains, k);
      var b := BucketOf(Hash33(k), |chains|);
      var j :| 0 <= j < |chains[b]| && KeyAt(slots, chains[b][j]) == k;
      assert KeyAt(slots', chains[b][j]) == k;
    }
  }

  /** `n` NULL bucket heads. */
  function EmptyBuckets(n: nat): (r: seq<int>)
    ensures |r| == n && forall b | 0 <= b < n :: r[b] == NIL
  {
    seq(n, _ => NIL)
  }

  /** `n` empty chains. */
  function EmptyChains(n: nat): (r: seq<seq<int>>)
    ensures |r| == n && forall b | 0 <= b < n :: r[b] == []
  {
    seq(n, _ => [])
  }

  /** A table whose buckets are all empty holds nothing. */
  lemma NoChains<V>(slots: seq<Slot<V>>, role: seq<Role>, n: int)
    requires n >= 1 && |role| == |slots|
    ensures ChainsOk(EmptyBuckets(n), slots, EmptyChains(n), role, map[])
  {
  }

  /** After a search of chain `b` that met no entry with key `k`, `k` is
      not in the table. */
  lemma AbsentFromChain<V>(bucket: seq<int>, slots: seq<Slot<V>>, chains: seq<seq<int>>, role: seq<Role>, contents: map<CString, V>, k: CString)
    requires ChainsOk(bucket, slots, chains, role, contents)
    requires var b := BucketOf(Hash33(k), |chains|); forall j | 0 <= j < |chains[b]| :: KeyAt(slots, chains[b][j]) != k
    ensures k !in contents
  {
  }

  /** `hash_store` overwriting the value of entry `j` of chain `b`. */
  lemma Overwrite<V>(bucket: seq<int>, slots: seq<Slot<V>>, chains: seq<seq<int>>, role: seq<Role>, contents: map<CString, V>, b: int, j: int, v: V)
    requires ChainsOk(bucket, slots, chains, role, contents)
    requires 0 <= b < |chains| && 0 <= j < |chains[b]|
    ensures
      var x := chains[b][j];
      0 <= x < |slots| && slots[x].Used? &&
      ChainsOk(bucket, slots[x := slots[x].(value := v)], chains, role, contents[slots[x].key := v])
  {
    var x := chains[b][j];
    assert EntryOk(slots, chains, role, contents, b, j);
    var k := slots[x].key;
    var slots' := slots[x := slots[x].(value := v)];
    var contents' := contents[k := v];
    forall b', j' | 0 <= b' < |chains| && 0 <= j' < |chains[b']|
      ensures EntryOk(slots', chains, role, contents', b', j') && KeyAt(slots', chains[b'][j']) == KeyAt(slots, chains[b'][j'])
    {
      assert EntryOk(slots, chains, role, contents, b', j');
      if chains[b'][j'] != x && KeyAt(slots, chains[b'][j']) == k {
        SameKeySameEntry(bucket, slots, chains, role, contents, b, j, b', j');
      }
    }
    forall k' | k' in contents'
      ensures Present(slots', chains, k')
    {
      assert Present(slots, chains, k');
      var b' := BucketOf(Hash33(k'), |chains|);
      var j' :| 0 <= j' < |chains[b']| && KeyAt(slots, chains[b'][j']) == k';
      assert KeyAt(slots', chains[b'][j']) == k';
    }
  }

  /** `hash_store` linking a fresh slot `s` as the new head of chain `b`
      for a key the table does not hold. */
  lemma LinkHead<V>(bucket: seq<int>, slots: seq<Slot<V>>, chains: seq<seq<int>>, role: seq<Role>, contents: map<CString, V>,
                    s: int, key: CString, v: V, b: int)
    requires ChainsOk(bucket, slots, chains, role, contents)
    requires 0 <= s < |slots| && !role[s].InChain?
    requires key !in contents && b == BucketOf(Hash33(key), |chains|)
    ensures ChainsOk(bucket[b := s], slots[s := Used(key, v, bucket[b], Hash33(key))], chains[b := [s] + chains[b]],
                     role[s := InChain(b)], contents[key := v])
  {
    NotInChains(bucket, slots, chains, role, contents, s);
    LinkHeadEntries(bucket, slots, chains, role, contents, s, key, v, b);
    LinkHeadKeys(bucket, slots, chains, role, contents, s, key, v, b);
    LinkHeadPresent(bucket, slots, chains, role, contents, s, key, v, b);
  }

  lemma LinkHeadEntries<V>(bucket: seq<int>, slots: seq<Slot<V>>, chains: seq<seq<int>>, role: seq<Role>, contents: map<CString, V>,
                           s: int, key: CString, v: V, b: int)
    requires ChainsOk(bucket, slots, chains, role, contents)
    requires 0 <= s < |slots| && key !in contents && b == BucketOf(Hash33(key), |chains|)
    requires forall b', j' | 0 <= b' < |chains| && 0 <= j' < |chains[b']| :: chains[b'][j'] != s
    ensures EntriesOk(slots[s := Used(key, v, bucket[b], Hash33(key))], chains[b := [s] + chains[b]], role[s := InChain(b)], contents[key := v])
  {
    var slots' := slots[s := Used(key, v, bucket[b], Hash33(key))];
    var chains' := chains[b := [s] + chains[b]];
    var role' := role[s := InChain(b)];
    var contents' := contents[key := v];
    forall b', j' | 0 <= b' < |chains'| && 0 <= j' < |chains'[b']|
      ensures EntryOk(slots', chains', role', contents', b', j')
    {
      if b' == b && j' == 0 {
        assert chains'[b'] == [s] + chains[b];
      } else {
        var jo := if b' == b then j' - 1 else j';
        assert chains'[b'][j'] == chains[b'][jo];
        assert EntryOk(slots, chains, role, contents, b', jo);
        assert NextOf(chains'[b'], j') == NextOf(chains[b'], jo);
      }
    }
  }

  lemma LinkHeadKeys<V>(bucket: seq<int>, slots: seq<Slot<V>>, chains: seq<seq<int>>, role: seq<Role>, contents: map<CString, V>,
                        s: int, key: CString, v: V, b: int)
    requires ChainsOk(bucket, slots, chains, role, contents)
    requires 0 <= s < |slots| && key !in contents && b == BucketOf(Hash33(key), |chains|)
    requires forall b', j' | 0 <= b' < |chains| && 0 <= j' < |chains[b']| :: chains[b'][j'] != s
    ensures KeysDistinct(slots[s := Used(key, v, bucket[b], Hash33(key))], chains[b := [s] + chains[b]])
  {
    var slots' := slots[s := Used(key, v, bucket[b], Hash33(key))];
    var chains' := chains[b := [s] + chains[b]];
    forall b', i, j | 0 <= b' < |chains'| && 0 <= i < j < |chains'[b']|
      ensures KeyAt(slots', chains'[b'][i]) != KeyAt(slots', chains'[b'][j])
    {
      var jo := if b' == b then j - 1 else j;
      assert chains'[b'][j] == chains[b'][jo];
      assert EntryOk(slots, chains, role, contents, b', jo);
      if b' == b && i == 0 {
        assert chains'[b'][i] == s;
      } else {
        var io := if b' == b then i - 1 else i;
        assert chains'[b'][i] == chains[b'][io];
        assert EntryOk(slots, chains, role, contents, b', io);
        assert KeyAt(slots, chains[b'][io]) != KeyAt(slots, chains[b'][jo]);
      }
    }
  }

  lemma LinkHeadPresent<V>(bucket: seq<int>, slots: seq<Slot<V>>, chains: seq<seq<int>>, role: seq<Role>, contents: map<CString, V>,
                           s: int, key: CString, v: V, b: int)
    requires ChainsOk(bucket, slots, chains, role, contents)
    requires 0 <= s < |slots| && key !in contents && b == BucketOf(Hash33(key), |chains|)
    requires forall b', j' | 0 <= b' < |chains| && 0 <= j' < |chains[b']| :: chains[b'][j'] != s
    ensures AllPresent(slots[s := Used(key, v, bucket[b], Hash33(key))], chains[b := [s] + chains[b]], contents[key := v])
  {
    var slots' := slots[s := Used(key, v, bucket[b], Hash33(key))];
    var chains' := chains[b := [s] + chains[b]];
    var contents' := contents[key := v];
    forall k | k in contents'
      ensures Present(slots', chains', k)
    {
      var bk := BucketOf(Hash33(k), |chains|);
      if k == key {
        assert chains'[bk][0] == s;
      } else {
        LinkKeepsPresent(slots, chains, s, key, v, bucket[b], b, k);
      }
    }
  }

  /** A key found before a new entry heads chain `b` is found after it. */
  lemma LinkKeepsPresent<V>(slots: seq<Slot<V>>, chains: seq<seq<int>>, s: int, key: CString, v: V, next: int, b: int, k: CString)
    requires 0 <= s < |slots| && 0 <= b < |chains| && Present(slots, chains, k)
    requires forall b', j' | 0 <= b' < |chains| && 0 <= j' < |chains[b']| :: chains[b'][j'] != s
    ensures Present(slots[s := Used(key, v, next, Hash33(key))], chains[b := [s] + chains[b]], k)
  {
    var slots' := slots[s := Used(key, v, next, Hash33(key))];
    var chains' := chains[b := [s] + chains[b]];
    var bk := BucketOf(Hash33(k), |chains|);
    var j :| 0 <= j < |chains[bk]| && KeyAt(slots, chains[bk][j]) == k;
    var jn := if bk == b then j + 1 else j;
    assert chains'[bk][jn] == chains[bk][j];
    assert KeyAt(slots', chains[bk][j]) == k;
  }

  /** The chain after unlinking its entry `j`. */
  function Unlinked(chain: seq<int>, j: int): seq<int>
    requires 0 <= j < |chain|
  {
    chain[..j] + chain[j + 1..]
  }

  /** `hash_delete` unlinking entry `j` of chain `b`: through the bucket when
      it is the head, through the previous entry's link otherwise. The slot
      leaves every chain and its key leaves `contents`. */
  lemma Unlink<V>(bucket: seq<int>, slots: seq<Slot<V>>, chains: seq<seq<int>>, role: seq<Role>, contents: map<CString, V>, b: int, j: int)
    requires ChainsOk(bucket, slots, chains, role, contents)
    requires 0 <= b < |chains| && 0 <= j < |chains[b]|
    ensures
      var s := chains[b][j];
      && 0 <= s < |slots| && slots[s].Used? && role[s] == InChain(b)
      && (j > 0 ==> 0 <= chains[b][j - 1] < |slots| && slots[chains[b][j - 1]].Used?)
      && var chains' := chains[b := Unlinked(chains[b], j)];
         && ChainsOk(UnlinkedBucket(bucket, slots, chains, b, j), UnlinkedSlots(slots, chains, b, j), chains', role, contents - {slots[s].key})
         && (forall b', j' | 0 <= b' < |chains'| && 0 <= j' < |chains'[b']| :: chains'[b'][j'] != s)
  {
    var s := chains[b][j];
    assert EntryOk(slots, chains, role, contents, b, j);
    if j > 0 {
      assert EntryOk(slots, chains, role, contents, b, j - 1);
    }
    var bucket' := UnlinkedBucket(bucket, slots, chains, b, j);
    var chains' := chains[b := Unlinked(chains[b], j)];
    forall b' | 0 <= b' < |bucket'|
      ensures bucket'[b'] == HeadOf(chains'[b'])
    {
      if b' == b && j == 0 && |chains[b]| > 1 {
        assert EntryOk(slots, chains, role, contents, b, 1);
      }
    }
    UnlinkEntries(bucket, slots, chains, role, contents, b, j);
    UnlinkKeys(bucket, slots, chains, role, contents, b, j);
    UnlinkPresent(bucket, slots, chains, role, contents, b, j);
  }

  /** The bucket array after unlinking entry `j` of chain `b`. */
  function UnlinkedBucket<V>(bucket: seq<int>, slots: seq<Slot<V>>, chains: seq<seq<int>>, b: int, j: int): seq<int>
    requires 0 <= b < |chains| && 0 <= j < |chains[b]| && 0 <= b < |bucket|
    requires 0 <= chains[b][j] < |slots| && slots[chains[b][j]].Used?
  {
    if j == 0 then bucket[b := slots[chains[b][j]].next] else bucket
  }

  /** The slots after unlinking entry `j > 0` of chain `b`: entry j-1 takes
      over entry j's link. */
  function UnlinkedSlots<V>(slots: seq<Slot<V>>, chains: seq<seq<int>>, b: int, j: int): seq<Slot<V>>
    requires 0 <= b < |chains| && 0 <= j < |chains[b]|
    requires 0 <= chains[b][j] < |slots| && slots[chains[b][j]].Used?
    requires j > 0 ==> 0 <= chains[b][j - 1] < |slots| && slots[chains[b][j - 1]].Used?
  {
    if j == 0 then slots
    else slots[chains[b][j - 1] := slots[chains[b][j - 1]].(next := slots[chains[b][j]].next)]
  }

  lemma UnlinkEntries<V>(bucket: seq<int>, slots: seq<Slot<V>>, chains: seq<seq<int>>, role: seq<Role>, contents: map<CString, V>, b: int, j: int)
    requires ChainsOk(bucket, slots, chains, role, contents)
    requires 0 <= b < |chains| && 0 <= j < |chains[b]|
    requires 0 <= chains[b][j] < |slots| && slots[chains[b][j]].Used?
    requires j > 0 ==> 0 <= chains[b][j - 1] < |slots| && slots[chains[b][j - 1]].Used?
    ensures var s := chains[b][j];
      var chains' := chains[b := Unlinked(chains[b], j)];
      && EntriesOk(UnlinkedSlots(slots, chains, b, j), chains', role, contents - {slots[s].key})
      && (forall b', j' | 0 <= b' < |chains'| && 0 <= j' < |chains'[b']| :: chains'[b'][j'] != s)
  {
    var chains' := chains[b := Unlinked(chains[b], j)];
    forall b', j' | 0 <= b' < |chains'| && 0 <= j' < |chains'[b']|
      ensures EntryOk(UnlinkedSlots(slots, chains, b, j), chains', role, contents - {slots[chains[b][j]].key}, b', j')
      ensures chains'[b'][j'] != chains[b][j]
    {
      UnlinkOneEntry(bucket, slots, chains, role, contents, b, j, b', j');
    }
  }

  /** Entry `j'` of chain `b'` after the unlink is entry `jo` before it. */
  lemma UnlinkOneEntry<V>(bucket: seq<int>, slots: seq<Slot<V>>, chains: seq<seq<int>>, role: seq<Role>, contents: map<CString, V>,
                          b: int, j: int, b': int, j': int)
    requires ChainsOk(bucket, slots, chains, role, contents)
    requires 0 <= b < |chains| && 0 <= j < |chains[b]|
    requires 0 <= chains[b][j] < |slots| && slots[chains[b][j]].Used?
    requires j > 0 ==> 0 <= chains[b][j - 1] < |slots| && slots[chains[b][j - 1]].Used?
    requires 0 <= b' < |chains| && 0 <= j' < |chains[b := Unlinked(chains[b], j)][b']|
    ensures var chains' := chains[b := Unlinked(chains[b], j)];
      && EntryOk(UnlinkedSlots(slots, chains, b, j), chains', role, contents - {slots[chains[b][j]].key}, b', j')
      && chains'[b'][j'] != chains[b][j]
  {
    var s := chains[b][j];
    assert EntryOk(slots, chains, role, contents, b, j);
    var k := slots[s].key;
    var slots' := UnlinkedSlots(slots, chains, b, j);
    var chains' := chains[b := Unlinked(chains[b], j)];
    var jo := if b' == b && j' >= j then j' + 1 else j';
    assert chains'[b'][j'] == chains[b'][jo];
    assert EntryOk(slots, chains, role, contents, b', jo);
    var x := chains[b'][jo];
    if b' == b {
      UnlinkSameChain(bucket, slots, chains, role, contents, b, j, j');
    } else {
      UnlinkOtherChain(bucket, slots, chains, role, contents, b, j, b', j');
    }
    var contents' := contents - {k};
    assert slots[x].key in contents' && contents'[slots[x].key] == slots[x].value;
    assert slots'[x].next == NextOf(chains'[b'], j');
  }

  /** Position `j'` of a chain after unlinking its entry `j` is position
      `jo` before it, and its successor is the one `jo` had, except that the
      entry before `j` takes over the successor of `j`. */
  lemma UnlinkedNext(c: seq<int>, j: int, j': int)
    requires 0 <= j < |c| && 0 <= j' < |Unlinked(c, j)|
    ensures var jo := if j' >= j then j' + 1 else j';
      && jo < |c| && Unlinked(c, j)[j'] == c[jo]
      && NextOf(Unlinked(c, j), j') == if j > 0 && j' == j - 1 then NextOf(c, j) else NextOf(c, jo)
  {
    var c' := Unlinked(c, j);
    if j' + 1 < |c'| {
      assert c'[j' + 1] == c[if j' + 1 >= j then j' + 2 else j' + 1];
    }
  }

  /** An entry left in the chain the unlink shortens keeps its slot, with
      the link to its new successor. */
  lemma UnlinkSameChain<V>(bucket: seq<int>, slots: seq<Slot<V>>, chains: seq<seq<int>>, role: seq<Role>, contents: map<CString, V>,
                           b: int, j: int, j': int)
    requires ChainsOk(bucket, slots, chains, role, contents)
    requires 0 <= b < |chains| && 0 <= j < |chains[b]|
    requires 0 <= chains[b][j] < |slots| && slots[chains[b][j]].Used?
    requires j > 0 ==> 0 <= chains[b][j - 1] < |slots| && slots[chains[b][j - 1]].Used?
    requires 0 <= j' < |Unlinked(chains[b], j)|
    ensures var x := chains[b][if j' >= j then j' + 1 else j'];
      && 0 <= x < |slots| && slots[x].Used? && x != chains[b][j]
      && UnlinkedSlots(slots, chains, b, j)[x] == slots[x].(next := NextOf(Unlinked(chains[b], j), j'))
  {
    var s := chains[b][j];
    var slots' := UnlinkedSlots(slots, chains, b, j);
    var jo := if j' >= j then j' + 1 else j';
    UnlinkedNext(chains[b], j, j');
    var x := chains[b][jo];
    assert EntryOk(slots, chains, role, contents, b, j);
    assert EntryOk(slots, chains, role, contents, b, jo);
    if KeyAt(slots, x) == KeyAt(slots, s) {
      SameKeySameEntry(bucket, slots, chains, role, contents, b, j, b, jo);
    }
    if !(j > 0 && j' == j - 1) && j > 0 {
      assert EntryOk(slots, chains, role, contents, b, j - 1);
      if x == chains[b][j - 1] {
        SameKeySameEntry(bucket, slots, chains, role, contents, b, j - 1, b, jo);
      }
    }
  }

  /** An entry of another chain keeps its slot as it was. */
  lemma UnlinkOtherChain<V>(bucket: seq<int>, slots: seq<Slot<V>>, chains: seq<seq<int>>, role: seq<Role>, contents: map<CString, V>,
                            b: int, j: int, b': int, j': int)
    requires ChainsOk(bucket, slots, chains, role, contents)
    requires 0 <= b < |chains| && 0 <= j < |chains[b]|
    requires 0 <= chains[b][j] < |slots| && slots[chains[b][j]].Used?
    requires j > 0 ==> 0 <= chains[b][j - 1] < |slots| && slots[chains[b][j - 1]].Used?
    requires 0 <= b' < |chains| && b' != b && 0 <= j' < |chains[b']|
    ensures var x := chains[b'][j'];
      && 0 <= x < |slots| && x != chains[b][j]
      && UnlinkedSlots(slots, chains, b, j)[x] == slots[x]
  {
    assert EntryOk(slots, chains, role, contents, b, j);
    assert EntryOk(slots, chains, role, contents, b', j');
    if j > 0 {
      assert EntryOk(slots, chains, role, contents, b, j - 1);
    }
  }

  lemma UnlinkKeys<V>(bucket: seq<int>, slots: seq<Slot<V>>, chains: seq<seq<int>>, role: seq<Role>, contents: map<CString, V>, b: int, j: int)
    requires ChainsOk(bucket, slots, chains, role, contents)
    requires 0 <= b < |chains| && 0 <= j < |chains[b]|
    requires 0 <= chains[b][j] < |slots| && slots[chains[b][j]].Used?
    requires j > 0 ==> 0 <= chains[b][j - 1] < |slots| && slots[chains[b][j - 1]].Used?
    ensures KeysDistinct(UnlinkedSlots(slots, chains, b, j), chains[b := Unlinked(chains[b], j)])
  {
    var slots' := UnlinkedSlots(slots, chains, b, j);
    var c' := Unlinked(chains[b], j);
    var chains' := chains[b := c'];
    forall b', i, i' | 0 <= b' < |chains'| && 0 <= i < i' < |chains'[b']|
      ensures KeyAt(slots', chains'[b'][i]) != KeyAt(slots', chains'[b'][i'])
    {
      var io := if b' == b && i >= j then i + 1 else i;
      var io' := if b' == b && i' >= j then i' + 1 else i';
      assert chains'[b'][i] == chains[b'][io];
      assert chains'[b'][i'] == chains[b'][io'];
      assert KeyAt(slots, chains[b'][io]) != KeyAt(slots, chains[b'][io']);
      UnlinkedKeyAt(slots, chains, b, j, chains[b'][io]);
      UnlinkedKeyAt(slots, chains, b, j, chains[b'][io']);
    }
  }

  /** Unlinking rewrites a link, never a key. */
  lemma UnlinkedKeyAt<V>(slots: seq<Slot<V>>, chains: seq<seq<int>>, b: int, j: int, y: int)
    requires 0 <= b < |chains| && 0 <= j < |chains[b]|
    requires 0 <= chains[b][j] < |slots| && slots[chains[b][j]].Used?
    requires j > 0 ==> 0 <= chains[b][j - 1] < |slots| && slots[chains[b][j - 1]].Used?
    ensures KeyAt(UnlinkedSlots(slots, chains, b, j), y) == KeyAt(slots, y)
  {
  }

  lemma UnlinkPresent<V>(bucket: seq<int>, slots: seq<Slot<V>>, chains: seq<seq<int>>, role: seq<Role>, contents: map<CString, V>, b: int, j: int)
    requires ChainsOk(bucket, slots, chains, role, contents)
    requires 0 <= b < |chains| && 0 <= j < |chains[b]|
    requires 0 <= chains[b][j] < |slots| && slots[chains[b][j]].Used?
    requires j > 0 ==> 0 <= chains[b][j - 1] < |slots| && slots[chains[b][j - 1]].Used?
    ensures AllPresent(UnlinkedSlots(slots, chains, b, j), chains[b := Unlinked(chains[b], j)], contents - {slots[chains[b][j]].key})
  {
    forall k' | k' in contents - {slots[chains[b][j]].key}
      ensures Present(UnlinkedSlots(slots, chains, b, j), chains[b := Unlinked(chains[b], j)], k')
    {
      UnlinkKeepsPresent(slots, chains, b, j, k');
    }
  }

  /** A key other than the unlinked one is still found in its chain. */
  lemma UnlinkKeepsPresent<V>(slots: seq<Slot<V>>, chains: seq<seq<int>>, b: int, j: int, k': CString)
    requires 0 <= b < |chains| && 0 <= j < |chains[b]|
    requires 0 <= chains[b][j] < |slots| && slots[chains[b][j]].Used?
    requires j > 0 ==> 0 <= chains[b][j - 1] < |slots| && slots[chains[b][j - 1]].Used?
    requires Present(slots, chains, k') && k' != slots[chains[b][j]].key
    ensures Present(UnlinkedSlots(slots, chains, b, j), chains[b := Unlinked(chains[b], j)], k')
  {
    var slots' := UnlinkedSlots(slots, chains, b, j);
    var chains' := chains[b := Unlinked(chains[b], j)];
    var bk := BucketOf(Hash33(k'), |chains|);
    var i :| 0 <= i < |chains[bk]| && KeyAt(slots, chains[bk][i]) == k';
    assert i != j || bk != b;
    var iN := if bk == b && i > j then i - 1 else i;
    assert chains'[bk][iN] == chains[bk][i];
    assert KeyAt(slots', chains'[bk][iN]) == k';
  }
}
