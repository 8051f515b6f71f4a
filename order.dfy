/** The order in which hash.c visits entries when it walks the whole table:
    bucket 0 to buckets-1, each chain from its head (`hash_resize`,
    `hash_iter_pairs`). */
module Order {
  import opened Djb2
  import opened Arena
  import opened Chains

  /** The slot indices of all chains, chain after chain. */
  function Flat(chains: seq<seq<int>>): seq<int> {
    if chains == [] then [] else Flat(chains[..|chains| - 1]) + chains[|chains| - 1]
  }

  /** Position in Flat(chains) of the head of chain `b`. */
  function Offset(chains: seq<seq<int>>, b: int): (k: nat)
    requires 0 <= b <= |chains|
    ensures k <= |Flat(chains)|
  {
    FlatPrefix(chains, b);
    |Flat(chains[..b])|
  }

  lemma FlatSnoc(chains: seq<seq<int>>, b: int)
    requires 0 <= b < |chains|
    ensures Flat(chains[..b + 1]) == Flat(chains[..b]) + chains[b]
  {
    assert chains[..b + 1][..b] == chains[..b];
  }

  lemma OffsetStep(chains: seq<seq<int>>, b: int)
    requires 0 <= b < |chains|
    ensures Flat(chains[..b + 1]) == Flat(chains[..b]) + chains[b]
    ensures Offset(chains, b + 1) == Offset(chains, b) + |chains[b]|
  {
    FlatSnoc(chains, b);
  }

  lemma OffsetZero(chains: seq<seq<int>>)
    ensures Offset(chains, 0) == 0
  {
    assert chains[..0] == [];
  }

  lemma OffsetEnd(chains: seq<seq<int>>)
    ensures Offset(chains, |chains|) == |Flat(chains)|
  {
    assert chains[..|chains|] == chains;
  }

  /** The walk of the first `n` chains is a prefix of the walk of them all. */
  lemma {:induction false} FlatPrefix(chains: seq<seq<int>>, n: int)
    requires 0 <= n <= |chains|
    ensures Flat(chains[..n]) <= Flat(chains)
    decreases |chains| - n
  {
    if n == |chains| {
      assert chains[..n] == chains;
    } else {
      FlatPrefix(chains, n + 1);
      FlatSnoc(chains, n);
    }
  }

  /** Entry `j` of chain `b` is visited at position Offset(b) + j. */
  lemma FlatIndex(chains: seq<seq<int>>, b: int, j: int)
    requires 0 <= b < |chains| && 0 <= j < |chains[b]|
    ensures Offset(chains, b) + j < |Flat(chains)|
    ensures Flat(chains)[Offset(chains, b) + j] == chains[b][j]
  {
    FlatPrefix(chains, b + 1);
    OffsetStep(chains, b);
  }

  /** Every position of the walk belongs to exactly one (chain, entry). */
  lemma {:induction false} FlatLocate(chains: seq<seq<int>>, i: int) returns (b: int, j: int)
    requires 0 <= i < |Flat(chains)|
    ensures 0 <= b < |chains| && 0 <= j < |chains[b]|
    ensures Offset(chains, b) + j == i && Flat(chains)[i] == chains[b][j]
    decreases |chains|
  {
    var n := |chains|;
    var init := chains[..n - 1];
    assert Flat(chains) == Flat(init) + chains[n - 1];
    if i < |Flat(init)| {
      b, j := FlatLocate(init, i);
      assert init[..b] == chains[..b];
    } else {
      b, j := n - 1, i - |Flat(init)|;
    }
  }

  /** Every slot visited by the walk of valid chains holds a live entry. */
  lemma FlatUsed<V>(bucket: seq<int>, slots: seq<Slot<V>>, chains: seq<seq<int>>, role: seq<Role>, contents: map<CString, V>)
    requires ChainsOk(bucket, slots, chains, role, contents)
    ensures forall i | 0 <= i < |Flat(chains)| :: 0 <= Flat(chains)[i] < |slots| && slots[Flat(chains)[i]].Used?
  {
    forall i | 0 <= i < |Flat(chains)|
      ensures 0 <= Flat(chains)[i] < |slots| && slots[Flat(chains)[i]].Used?
    {
      var b, j := FlatLocate(chains, i);
      assert EntryOk(slots, chains, role, contents, b, j);
    }
  }

  predicate AllUsed<V>(slots: seq<Slot<V>>, order: seq<int>) {
    forall i | 0 <= i < |order| :: 0 <= order[i] < |slots| && slots[order[i]].Used?
  }

  /** The (key, value) pairs of the slots in `order`. */
  function Pairs<V>(slots: seq<Slot<V>>, order: seq<int>): (ps: seq<(CString, V)>)
    requires AllUsed(slots, order)
    ensures |ps| == |order|
    ensures forall i | 0 <= i < |order| :: ps[i] == (slots[order[i]].key, slots[order[i]].value)
  {
    seq(|order|, i requires 0 <= i < |order| => (slots[order[i]].key, slots[order[i]].value))
  }

  /** Builds a map from pairs, later pairs winning. */
  function ToMap<V>(ps: seq<(CString, V)>): map<CString, V> {
    if ps == [] then map[] else ToMap(ps[..|ps| - 1])[ps[|ps| - 1].0 := ps[|ps| - 1].1]
  }

  ghost predicate DistinctKeys<V>(ps: seq<(CString, V)>) {
    forall i, j | 0 <= i < j < |ps| :: ps[i].0 != ps[j].0
  }

  /** The keys of the map of pairs are exactly the keys of the pairs. */
  lemma {:induction false} ToMapKeys<V>(ps: seq<(CString, V)>)
    ensures forall i | 0 <= i < |ps| :: ps[i].0 in ToMap(ps)
    ensures forall k | k in ToMap(ps) :: exists i | 0 <= i < |ps| :: ps[i].0 == k
    decreases |ps|
  {
    if ps != [] {
      var n := |ps|;
      var init := ps[..n - 1];
      ToMapKeys(init);
      forall i | 0 <= i < n - 1
        ensures ps[i].0 in ToMap(ps)
      {
        assert init[i] == ps[i];
      }
      forall k | k in ToMap(ps)
        ensures exists i | 0 <= i < |ps| :: ps[i].0 == k
      {
        if k != ps[n - 1].0 {
          var i :| 0 <= i < |init| && init[i].0 == k;
          assert ps[i].0 == k;
        }
      }
    }
  }

  /** With distinct keys, every pair survives in the map and the map has as
      many keys as there are pairs. */
  lemma {:induction false} ToMapHolds<V>(ps: seq<(CString, V)>)
    requires DistinctKeys(ps)
    ensures forall i | 0 <= i < |ps| :: ps[i].0 in ToMap(ps) && ToMap(ps)[ps[i].0] == ps[i].1
    ensures |ToMap(ps)| == |ps|
    decreases |ps|
  {
    ToMapKeys(ps);
    if ps != [] {
      var n := |ps|;
      var init := ps[..n - 1];
      assert DistinctKeys(init);
      ToMapHolds(init);
      ToMapKeys(init);
      forall i | 0 <= i < |init|
        ensures init[i].0 != ps[n - 1].0
      {
        assert init[i] == ps[i];
      }
      assert ps[n - 1].0 !in ToMap(init);
      forall i | 0 <= i < n - 1
        ensures ToMap(ps)[ps[i].0] == ps[i].1
      {
        assert init[i] == ps[i];
        assert ps[i].0 != ps[n - 1].0;
      }
    }
  }

  /** Walking valid chains meets every key of the table exactly once, with
      its value: the pairs have distinct keys, each is in `contents`, and
      every key of `contents` is among them. */
  lemma EnumeratesContents<V>(bucket: seq<int>, slots: seq<Slot<V>>, chains: seq<seq<int>>, role: seq<Role>, contents: map<CString, V>)
    requires ChainsOk(bucket, slots, chains, role, contents)
    ensures AllUsed(slots, Flat(chains))
    ensures var ps := Pairs(slots, Flat(chains));
      && DistinctKeys(ps)
      && (forall i | 0 <= i < |ps| :: ps[i].0 in contents && contents[ps[i].0] == ps[i].1)
      && (forall k | k in contents :: exists i | 0 <= i < |ps| :: ps[i].0 == k)
      && ToMap(ps) == contents
      && |Flat(chains)| == |contents|
  {
    FlatUsed(bucket, slots, chains, role, contents);
    var order := Flat(chains);
    var ps := Pairs(slots, order);
    forall i, i' | 0 <= i < i' < |ps|
      ensures ps[i].0 != ps[i'].0
    {
      var b, j := FlatLocate(chains, i);
      var b', j' := FlatLocate(chains, i');
      if ps[i].0 == ps[i'].0 {
        assert KeyAt(slots, chains[b][j]) == KeyAt(slots, chains[b'][j']);
        SameKeySameEntry(bucket, slots, chains, role, contents, b, j, b', j');
      }
    }
    forall i | 0 <= i < |ps|
      ensures ps[i].0 in contents && contents[ps[i].0] == ps[i].1
    {
      var b, j := FlatLocate(chains, i);
      assert EntryOk(slots, chains, role, contents, b, j);
    }
    forall k | k in contents
      ensures exists i | 0 <= i < |ps| :: ps[i].0 == k
    {
      assert Present(slots, chains, k);
      var b := BucketOf(Hash33(k), |chains|);
      var j :| 0 <= j < |chains[b]| && KeyAt(slots, chains[b][j]) == k;
      FlatIndex(chains, b, j);
      assert EntryOk(slots, chains, role, contents, b, j);
      assert ps[Offset(chains, b) + j].0 == k;
    }
    ToMapKeys(ps);
    ToMapHolds(ps);
    assert ToMap(ps) == contents;
  }
}
