/** The keys that the table's range query lists: those of the primary buckets. */
module TableKeys {
  import opened TableModel
  import opened TableMap
  import opened KeysRange

  function AcceptedIn<K, V>(bucket: Bucket<K, V>, filter: (K, V) -> bool): seq<K> {
    if bucket == [] then []
    else if filter(bucket[0].0, bucket[0].1) then [bucket[0].0] + AcceptedIn(bucket[1..], filter)
    else AcceptedIn(bucket[1..], filter)
  }

  function FirstBucket<K, V>(chain: Chain<K, V>): Bucket<K, V> {
    if chain == [] then [] else chain[0]
  }

  /** The accepted keys of the primary buckets, in order. */
  function PrimaryKeys<K, V>(chains: seq<Chain<K, V>>, filter: (K, V) -> bool): seq<K> {
    if chains == [] then [] else AcceptedIn(FirstBucket(chains[0]), filter) + PrimaryKeys(chains[1..], filter)
  }

  /** Those from record `r` of bucket `i` on. */
  function KeysFrom<K, V>(chains: seq<Chain<K, V>>, filter: (K, V) -> bool, i: nat, r: nat): seq<K>
    requires i <= |chains|
  {
    if i == |chains| then [] else AcceptedIn(Drop(FirstBucket(chains[i]), r), filter) + PrimaryKeys(chains[i + 1..], filter)
  }

  lemma NextRecord<K, V>(chains: seq<Chain<K, V>>, filter: (K, V) -> bool, i: nat, r: nat)
    requires i < |chains| && r < |FirstBucket(chains[i])|
    ensures var (k, v) := FirstBucket(chains[i])[r];
      KeysFrom(chains, filter, i, r) == (if filter(k, v) then [k] else []) + KeysFrom(chains, filter, i, r + 1)
  {
    var bucket := FirstBucket(chains[i]);
    assert bucket[r..][1..] == bucket[r + 1..];
  }

  lemma NextBucket<K, V>(chains: seq<Chain<K, V>>, filter: (K, V) -> bool, i: nat)
    requires i < |chains|
    ensures KeysFrom(chains, filter, i, |FirstBucket(chains[i])|) == KeysFrom(chains, filter, i + 1, 0)
  {
    hide PrimaryKeys;
    var bucket := FirstBucket(chains[i]);
    assert Drop(bucket, |bucket|) == [];
    KeysFromStart(chains, filter, i + 1);
  }

  lemma KeysFromStart<K, V>(chains: seq<Chain<K, V>>, filter: (K, V) -> bool, i: nat)
    requires i <= |chains|
    ensures KeysFrom(chains, filter, i, 0) == PrimaryKeys(chains[i..], filter)
  {
    if i < |chains| {
      assert chains[i..][0] == chains[i] && chains[i..][1..] == chains[i + 1..];
      assert Drop(FirstBucket(chains[i]), 0) == FirstBucket(chains[i]);
    }
  }

  lemma AllKeys<K, V>(chains: seq<Chain<K, V>>, filter: (K, V) -> bool)
    ensures KeysFrom(chains, filter, 0, 0) == PrimaryKeys(chains, filter)
  {
    KeysFromStart(chains, filter, 0);
    assert chains[0..] == chains;
  }

  lemma NoKeys<K, V>(chains: seq<Chain<K, V>>, filter: (K, V) -> bool, r: nat)
    ensures KeysFrom(chains, filter, |chains|, r) == []
  {
  }

  // ---- What is listed ----------------------------------------------------------------------

  lemma {:induction false} AcceptedIs<K, V>(bucket: Bucket<K, V>, filter: (K, V) -> bool, k: K)
    ensures k in AcceptedIn(bucket, filter) <==> exists r :: r in bucket && r.0 == k && filter(r.0, r.1)
  {
    if bucket != [] {
      assert bucket == [bucket[0]] + bucket[1..];
      AcceptedIs(bucket[1..], filter, k);
    }
  }

  lemma {:induction false} PrimaryKeysAre<K, V>(chains: seq<Chain<K, V>>, filter: (K, V) -> bool, k: K)
    ensures k in PrimaryKeys(chains, filter)
       <==> exists i, r :: 0 <= i < |chains| && r in FirstBucket(chains[i]) && r.0 == k && filter(r.0, r.1)
  {
    if chains != [] {
      AcceptedIs(FirstBucket(chains[0]), filter, k);
      PrimaryKeysAre(chains[1..], filter, k);
      if i, r :| 0 <= i < |chains| && r in FirstBucket(chains[i]) && r.0 == k && filter(r.0, r.1) {
        if i > 0 {
          assert chains[1..][i - 1] == chains[i];
        }
      }
      if k in PrimaryKeys(chains[1..], filter) {
        var i, r :| 0 <= i < |chains| - 1 && r in FirstBucket(chains[1..][i]) && r.0 == k && filter(r.0, r.1);
        assert chains[1..][i] == chains[i + 1];
      }
    }
  }

  /** An accepted record outside the primary bucket of its chain. */
  ghost predicate InOverflow<K, V>(t: Table<K, V>, filter: (K, V) -> bool, r: (K, V)) {
    filter(r.0, r.1) && exists i, j :: 0 <= i < |t.chains| && 1 <= j < |t.chains[i]| && r in t.chains[i][j]
  }

  lemma InAll<K, V>(t: Table<K, V>, i: nat, j: nat, r: (K, V))
    requires Unique(All(t.chains)) && i < |t.chains| && j < |t.chains[i]| && r in t.chains[i][j]
    ensures r in All(t.chains) && r.0 in Contents(t) && Contents(t)[r.0] == r.1
  {
    RecsMember(t.chains[i], r);
    AllMember(t.chains, r);
  }

  lemma TwiceInChain<K, V>(chain: Chain<K, V>, j: nat, l: nat, r: (K, V))
    requires j < |chain| && l < |chain| && j != l && r in chain[j] && r in chain[l]
    ensures Recs(chain)[r] >= 2
  {
    RecsUpdate(chain, j, []);
    assert chain[j := []][l] == chain[l];
    RecsMember(chain[j := []], r);
    assert r in multiset(chain[j]);
  }

  lemma TwiceInTable<K, V>(chains: seq<Chain<K, V>>, i: nat, j: nat, m: nat, l: nat, r: (K, V))
    requires i < |chains| && j < |chains[i]| && m < |chains| && l < |chains[m]| && (i, j) != (m, l)
    requires r in chains[i][j] && r in chains[m][l]
    ensures All(chains)[r] >= 2
  {
    AllUpdate(chains, i, []);
    RecsMember(chains[i], r);
    if i == m {
      TwiceInChain(chains[i], j, l, r);
    } else {
      assert chains[i := []][m] == chains[m];
      RecsMember(chains[m], r);
      AllMember(chains[i := []], r);
    }
  }

  lemma MissedKey<K, V>(t: Table<K, V>, filter: (K, V) -> bool, k: K)
    requires Unique(All(t.chains)) && k in Contents(t) && filter(k, Contents(t)[k])
    ensures k !in PrimaryKeys(t.chains, filter) <==> InOverflow(t, filter, (k, Contents(t)[k]))
  {
    hide All, PrimaryKeys, Recs;
    var r := (k, Contents(t)[k]);
    AllMember(t.chains, r);
    var i :| 0 <= i < |t.chains| && r in Recs(t.chains[i]);
    RecsMember(t.chains[i], r);
    var j :| 0 <= j < |t.chains[i]| && r in t.chains[i][j];
    PrimaryKeysAre(t.chains, filter, k);
    if k !in PrimaryKeys(t.chains, filter) {
      assert j == 0 ==> r in FirstBucket(t.chains[i]);
    }
    if InOverflow(t, filter, r) {
      var m, l :| 0 <= m < |t.chains| && 1 <= l < |t.chains[m]| && r in t.chains[m][l];
      NotTwice(t, filter, k, m, l);
    }
  }

  lemma NotTwice<K, V>(t: Table<K, V>, filter: (K, V) -> bool, k: K, m: nat, l: nat)
    requires Unique(All(t.chains)) && k in Contents(t)
    requires m < |t.chains| && 1 <= l < |t.chains[m]| && (k, Contents(t)[k]) in t.chains[m][l]
    ensures k !in PrimaryKeys(t.chains, filter)
  {
    hide All, PrimaryKeys, Recs;
    var r := (k, Contents(t)[k]);
    PrimaryKeysAre(t.chains, filter, k);
    forall i, q | 0 <= i < |t.chains| && q in FirstBucket(t.chains[i])
      ensures q.0 != k
    {
      if q.0 == k {
        InAll(t, i, 0, q);
        InAll(t, m, l, r);
        TwiceInTable(t.chains, i, 0, m, l, r);
      }
    }
  }

  /** The table counts at least as many records as the query lists keys. */
  lemma {:induction false} FewerThanRecords<K, V>(chains: seq<Chain<K, V>>, filter: (K, V) -> bool)
    ensures |PrimaryKeys(chains, filter)| <= |All(chains)|
  {
    if chains != [] {
      var n := |chains| - 1;
      FewerThanRecords(chains[..n], filter);
      PrimarySplit(chains, filter);
      FewInChain(chains[n], filter);
    }
  }

  /** The size of the table is the number of its keys. */
  lemma SizeIsCount<K, V>(cfg: Config<K>, t: Table<K, V>)
    requires WellFormed(cfg, t)
    ensures t.size == |Contents(t)|
  {
    MapSize(All(t.chains));
  }

  lemma {:induction false} MapSize<K, V>(ms: multiset<(K, V)>)
    requires Unique(ms)
    ensures |ToMap(ms)| == |ms|
    decreases |ms|
  {
    hide ToMap, Unique;
    if ms != multiset{} {
      var r :| r in ms;
      var less := ms - multiset{r};
      SubtractOne(ms, r);
      MapSize(less);
      OneKeyLess(ToMap(ms), r.0);
    } else {
      assert ToMap(ms) == map[];
    }
  }

  lemma OneKeyLess<K, V>(m: map<K, V>, k: K)
    requires k in m
    ensures |m - {k}| == |m| - 1
  {
    assert (m - {k}).Keys == m.Keys - {k};
  }

  lemma FewInChain<K, V>(chain: Chain<K, V>, filter: (K, V) -> bool)
    ensures |AcceptedIn(FirstBucket(chain), filter)| <= |Recs(chain)|
  {
    if chain != [] {
      AcceptedFew(chain[0], filter);
    }
  }

  lemma {:induction false} AcceptedFew<K, V>(bucket: Bucket<K, V>, filter: (K, V) -> bool)
    ensures |AcceptedIn(bucket, filter)| <= |bucket|
  {
    if bucket != [] {
      AcceptedFew(bucket[1..], filter);
    }
  }

  lemma {:induction false} PrimarySplit<K, V>(chains: seq<Chain<K, V>>, filter: (K, V) -> bool)
    requires chains != []
    ensures var n := |chains| - 1;
      PrimaryKeys(chains, filter) == PrimaryKeys(chains[..n], filter) + AcceptedIn(FirstBucket(chains[n]), filter)
  {
    var n := |chains| - 1;
    if n > 0 {
      PrimarySplit(chains[1..], filter);
      assert chains[1..][..n - 1] == chains[..n][1..];
    } else {
      assert chains[..0] == [] && chains[1..] == [];
    }
  }

  /** The range query misses exactly the keys whose records lie in overflow buckets: it can list every
      accepted key if and only if there are none. */
  lemma OverflowIsMissed<K, V>(cfg: Config<K>, t: Table<K, V>, filter: (K, V) -> bool)
    requires WellFormed(cfg, t)
    ensures forall k | k in PrimaryKeys(t.chains, filter) :: k in Contents(t) && filter(k, Contents(t)[k])
    ensures forall k | k in Contents(t) && filter(k, Contents(t)[k]) ::
      k !in PrimaryKeys(t.chains, filter) <==> InOverflow(t, filter, (k, Contents(t)[k]))
  {
    hide All, ToMap, Placed, PrimaryKeys;
    forall k | k in PrimaryKeys(t.chains, filter)
      ensures k in Contents(t) && filter(k, Contents(t)[k])
    {
      PrimaryKeysAre(t.chains, filter, k);
      var i, r :| 0 <= i < |t.chains| && r in FirstBucket(t.chains[i]) && r.0 == k && filter(r.0, r.1);
      InAll(t, i, 0, r);
    }
    forall k | k in Contents(t) && filter(k, Contents(t)[k])
      ensures k !in PrimaryKeys(t.chains, filter) <==> InOverflow(t, filter, (k, Contents(t)[k]))
    {
      MissedKey(t, filter, k);
    }
  }

  /** Two records a bucket, at least four chains, and numbers as their own digests. */
  function Numbers(): Config<nat> {
    Config(2, 4, k => k)
  }

  function KeepAll(): (nat, bool) -> bool {
    (k, v) => false
  }

  function AcceptAll(): (nat, bool) -> bool {
    (k, v) => true
  }

  function ThreeInsertions(): seq<Op<nat, bool>> {
    [InsertOp(0, true, KeepAll()), InsertOp(4, true, KeepAll()), InsertOp(8, true, KeepAll())]
  }

  /** Insert 0, 4 and 8 into an empty table: the third key is in the table and is not listed. */
  lemma ThirdKeyMissed()
    ensures WellFormed(Numbers(), Empty<nat, bool>(Numbers())) && InBand(Numbers(), Empty<nat, bool>(Numbers()))
    ensures var t := Run(Numbers(), Empty<nat, bool>(Numbers()), ThreeInsertions());
      8 in Contents(t) && 8 !in PrimaryKeys(t.chains, AcceptAll())
  {
    hide WellFormed, InBand, PrimaryKeys, Recs, All, InOverflow, Run, Contents;
    EmptyWellFormed<nat, bool>(Numbers());
    CrowdedIsReached();
    UniqueOf(Numbers(), Crowded());
    InAll(Crowded(), 0, 1, (8, true));
    CrowdedOverflow(AcceptAll());
    MissedKey(Crowded(), AcceptAll(), 8);
  }

  /** Keys 0, 4 and 8 in one chain with buckets of two. */
  function Crowded(): Table<nat, bool> {
    Table(4, 0, 3, [[[(0, true), (4, true)], [(8, true)]], [[]], [[]], [[]]])
  }

  lemma CrowdedIsReached()
    requires WellFormed(Numbers(), Empty<nat, bool>(Numbers())) && InBand(Numbers(), Empty<nat, bool>(Numbers()))
    ensures Run(Numbers(), Empty<nat, bool>(Numbers()), ThreeInsertions()) == Crowded()
  {
    hide Insert, WellFormed, InBand;
    var t := Empty<nat, bool>(Numbers());
    InsertOne([], (0, true));
    InsertOne([(0, true)], (4, true));
    assert [] + [(0, true)] == [(0, true)] && [(0, true)] + [(4, true)] == [(0, true), (4, true)];
    assert t.chains == [[[]], [[]], [[]], [[]]];
    var t1 := InsertFirst(t, [[]], 0, [[(0, true)]]);
    var t2 := InsertFirst(t1, [[(0, true)]], 4, [[(0, true), (4, true)]]);
    var t3 := InsertFirst(t2, [[(0, true), (4, true)]], 8, [[(0, true), (4, true)], [(8, true)]]);
    RunOne(t, ThreeInsertions());
    RunOne(t1, ThreeInsertions()[1..]);
    RunOne(t2, ThreeInsertions()[1..][1..]);
    assert ThreeInsertions()[1..][1..][1..] == [];
  }

  lemma UniqueOf<K, V>(cfg: Config<K>, t: Table<K, V>)
    requires WellFormed(cfg, t)
    ensures Unique(All(t.chains))
  {
  }

  lemma InsertOne(bucket: Bucket<nat, bool>, r: (nat, bool))
    requires |bucket| < 2
    ensures InsertChain(2, [bucket], r) == [bucket + [r]]
  {
    assert [bucket][1..] == [];
    assert [bucket + [r]] + [] == [bucket + [r]];
  }

  lemma RunOne(t: Table<nat, bool>, ops: seq<Op<nat, bool>>)
    requires WellFormed(Numbers(), t) && InBand(Numbers(), t) && ops != [] && ops[0].InsertOp?
    ensures Shape(Numbers(), t)
    ensures var t' := Insert(Numbers(), t, ops[0].key, ops[0].value, ops[0].filter).0;
      WellFormed(Numbers(), t') && InBand(Numbers(), t') && Run(Numbers(), t, ops) == Run(Numbers(), t', ops[1..])
  {
    hide Insert, WellFormed, InBand, Shape;
    ShapeOf(Numbers(), t);
    ApplyRefines(Numbers(), t, ops[0]);
  }

  /** One insertion into the first of four chains. */
  lemma InsertFirst(t: Table<nat, bool>, chain: Chain<nat, bool>, key: nat, chain': Chain<nat, bool>) returns (t': Table<nat, bool>)
    requires t.n == 4 && t.p == 0 && t.size <= 2 && t.chains == [chain, [[]], [[]], [[]]] && ChainShape(2, chain)
    requires key % 4 == 0 && FindInChain(chain, key).None? && InsertChain(2, chain, (key, true)) == chain'
    ensures Shape(Numbers(), t) && Insert(Numbers(), t, key, true, KeepAll()) == (t', true)
    ensures t' == Table(4, 0, t.size + 1, [chain', [[]], [[]], [[]]])
  {
    AddressIs(key, 4, 0);
    assert Room(2, 4) == 8;
    t' := Table(4, 0, t.size + 1, [chain', [[]], [[]], [[]]]);
    assert t.chains[0 := chain'] == t'.chains;
  }

  lemma CrowdedOverflow(filter: (nat, bool) -> bool)
    requires filter(8, true)
    ensures InOverflow(Crowded(), filter, (8, true))
  {
    assert (8, true) in Crowded().chains[0][1];
  }
}
