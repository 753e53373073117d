/** Linear hashing is a finite map: conservation of records under splits and merges, placement and
    uniqueness of keys, and the band of the load factor, over every operation and any hash. */
module TableMap {
  import opened Options
  import opened TableModel

  // ---- The records of chains and tables ----------------------------------------------------

  ghost function Recs<K, V>(chain: Chain<K, V>): multiset<(K, V)> {
    if chain == [] then multiset{} else multiset(chain[0]) + Recs(chain[1..])
  }

  ghost function All<K, V>(chains: seq<Chain<K, V>>): multiset<(K, V)> {
    if chains == [] then multiset{} else All(chains[..|chains| - 1]) + Recs(chains[|chains| - 1])
  }

  lemma {:induction false} RecsInsert<K, V>(capacity: nat, chain: Chain<K, V>, r: (K, V))
    ensures Recs(InsertChain(capacity, chain, r)) == Recs(chain) + multiset{r}
  {
    if chain == [] {
      assert Recs([[r]]) == multiset([r]) + Recs([]);
    } else if |chain[0]| == capacity {
      RecsInsert(capacity, chain[1..], r);
      assert ([chain[0]] + InsertChain(capacity, chain[1..], r))[1..] == InsertChain(capacity, chain[1..], r);
    } else {
      assert ([chain[0] + [r]] + chain[1..])[1..] == chain[1..];
    }
  }

  lemma {:induction false} RecsUpdate<K, V>(chain: Chain<K, V>, j: nat, bucket: Bucket<K, V>)
    requires j < |chain|
    ensures multiset(chain[j]) <= Recs(chain)
    ensures Recs(chain[j := bucket]) == Recs(chain) - multiset(chain[j]) + multiset(bucket)
  {
    RecsSplit(chain);
    RecsSplit(chain[j := bucket]);
    hide Recs;
    if j == 0 {
      assert chain[0 := bucket][1..] == chain[1..];
    } else {
      RecsUpdate(chain[1..], j - 1, bucket);
      assert chain[j := bucket][1..] == chain[1..][j - 1 := bucket];
    }
  }

  lemma RecsSplit<K, V>(chain: Chain<K, V>)
    requires chain != []
    ensures Recs(chain) == multiset(chain[0]) + Recs(chain[1..])
  {
  }

  lemma {:induction false} RecsTake<K, V>(chain: Chain<K, V>, m: nat)
    requires m < |chain|
    ensures Recs(chain[..m + 1]) == Recs(chain[..m]) + multiset(chain[m])
  {
    if m == 0 {
      assert chain[..1] == [chain[0]] && chain[..0] == [];
      assert Recs([chain[0]]) == multiset(chain[0]) + Recs([]);
    } else {
      RecsTake(chain[1..], m - 1);
      assert chain[..m + 1][1..] == chain[1..][..m];
      assert chain[..m][1..] == chain[1..][..m - 1];
    }
  }

  lemma {:induction false} AllUpdate<K, V>(chains: seq<Chain<K, V>>, i: nat, c: Chain<K, V>)
    requires i < |chains|
    ensures Recs(chains[i]) <= All(chains)
    ensures All(chains[i := c]) == All(chains) - Recs(chains[i]) + Recs(c)
  {
    var n := |chains| - 1;
    if i < n {
      AllUpdate(chains[..n], i, c);
      assert chains[i := c][..n] == chains[..n][i := c];
    } else {
      assert chains[i := c][..n] == chains[..n];
    }
  }

  lemma AllPush<K, V>(chains: seq<Chain<K, V>>, c: Chain<K, V>)
    ensures All(chains + [c]) == All(chains) + Recs(c)
  {
    assert (chains + [c])[..|chains|] == chains;
  }

  lemma {:induction false} AllMember<K, V>(chains: seq<Chain<K, V>>, r: (K, V))
    ensures r in All(chains) <==> exists i | 0 <= i < |chains| :: r in Recs(chains[i])
  {
    hide Recs;
    if chains != [] {
      var n := |chains| - 1;
      AllMember(chains[..n], r);
      if r in All(chains[..n]) {
        var i :| 0 <= i < n && r in Recs(chains[..n][i]);
        assert r in Recs(chains[i]);
      }
      if i :| 0 <= i < |chains| && r in Recs(chains[i]) {
        assert i < n ==> r in Recs(chains[..n][i]);
      }
    }
  }

  lemma {:induction false} RecsMember<K, V>(chain: Chain<K, V>, r: (K, V))
    ensures r in Recs(chain) <==> exists j | 0 <= j < |chain| :: r in chain[j]
  {
    if chain != [] {
      RecsMember(chain[1..], r);
      assert r in multiset(chain[0]) <==> r in chain[0];
      if r in Recs(chain[1..]) {
        var j :| 0 <= j < |chain[1..]| && r in chain[1..][j];
        assert r in chain[j + 1];
      }
      if j :| 0 <= j < |chain| && r in chain[j] {
        assert j > 0 ==> r in chain[1..][j - 1];
      }
    }
  }

  // ---- Conservation ------------------------------------------------------------------------

  lemma PlaceAll<K, V>(cfg: Config<K>, t: Table<K, V>, r: (K, V))
    requires Shape(cfg, t)
    ensures All(Place(cfg, t, r).chains) == All(t.chains) + multiset{r}
  {
    ChainForInRange(cfg, t, r.0);
    var c := ChainFor(cfg, t, r.0);
    RecsInsert(cfg.capacity, t.chains[c], r);
    AllUpdate(t.chains, c, InsertChain(cfg.capacity, t.chains[c], r));
  }

  lemma {:induction false} PlaceRecordsAll<K, V>(cfg: Config<K>, t: Table<K, V>, rs: Bucket<K, V>, m: nat)
    requires Shape(cfg, t) && m <= |rs|
    ensures All(PlaceRecords(cfg, t, rs, m).chains) == All(t.chains) + multiset(rs[..m])
  {
    hide Place, All, Shape;
    if m > 0 {
      PlaceRecordsAll(cfg, t, rs, m - 1);
      PlaceAll(cfg, PlaceRecords(cfg, t, rs, m - 1), rs[m - 1]);
      assert multiset(rs[..m]) == multiset(rs[..m - 1]) + multiset{rs[m - 1]} by {
        assert rs[..m] == rs[..m - 1] + [rs[m - 1]];
      }
    }
  }

  lemma {:induction false} PlaceBucketsAll<K, V>(cfg: Config<K>, t: Table<K, V>, chain: Chain<K, V>, m: nat)
    requires Shape(cfg, t) && m <= |chain|
    ensures All(PlaceBuckets(cfg, t, chain, m).chains) == All(t.chains) + Recs(chain[..m])
  {
    hide PlaceRecords, All, Shape, Recs;
    if m == 0 {
      NoRecords(chain);
    }
    if m > 0 {
      PlaceBucketsAll(cfg, t, chain, m - 1);
      PlaceRecordsAll(cfg, PlaceBuckets(cfg, t, chain, m - 1), chain[m - 1], |chain[m - 1]|);
      assert chain[m - 1][..|chain[m - 1]|] == chain[m - 1];
      RecsTake(chain, m - 1);
    }
  }

  /** A split loses and invents no record. */
  lemma SplitConserves<K, V>(cfg: Config<K>, t: Table<K, V>)
    requires Shape(cfg, t)
    ensures All(SplitStep(cfg, t).chains) == All(t.chains)
  {
    var chain := t.chains[t.p];
    PlaceBucketsAll(cfg, Opened(cfg, t), chain, |chain|);
    assert chain[..|chain|] == chain;
    OpenedAll(cfg, t);
  }

  lemma OpenedAll<K, V>(cfg: Config<K>, t: Table<K, V>)
    requires Shape(cfg, t)
    ensures All(Opened(cfg, t).chains) + Recs(t.chains[t.p]) == All(t.chains)
  {
    var empty: Chain<K, V> := [[]];
    EmptyChain<K, V>();
    AllUpdate(t.chains, t.p, empty);
    AllPush(t.chains[t.p := empty], empty);
  }

  lemma NoRecords<K, V>(chain: Chain<K, V>)
    ensures Recs(chain[..0]) == multiset{}
  {
  }

  lemma EmptyChain<K, V>()
    ensures Recs<K, V>([[]]) == multiset{}
  {
    assert Recs<K, V>([[]]) == multiset([]) + Recs<K, V>([]);
  }

  /** Nor does a merge. */
  lemma MergeConserves<K, V>(cfg: Config<K>, t: Table<K, V>)
    requires Shape(cfg, t) && |t.chains| > 1
    ensures All(MergeStep(cfg, t).chains) == All(t.chains)
  {
    hide Recs, PlaceBuckets;
    var n := |t.chains| - 1;
    var last := t.chains[n];
    PlaceBucketsAll(cfg, Closed(cfg, t), last, |last|);
    assert last[..|last|] == last;
    assert All(t.chains) == All(t.chains[..n]) + Recs(last) by {
      assert t.chains == t.chains[..n] + [last];
      AllPush(t.chains[..n], last);
    }
  }

  // ---- Placement ---------------------------------------------------------------------------

  /** Every key is only in the chain that `calculate_bucket_chain` names. */
  ghost predicate Placed<K, V>(cfg: Config<K>, t: Table<K, V>)
    requires t.n > 0
  {
    forall i, r | 0 <= i < |t.chains| && r in Recs(t.chains[i]) :: ChainFor(cfg, t, r.0) == i
  }

  lemma PlacePlaced<K, V>(cfg: Config<K>, t: Table<K, V>, r: (K, V))
    requires Shape(cfg, t) && Placed(cfg, t)
    ensures Placed(cfg, Place(cfg, t, r))
  {
    ChainForInRange(cfg, t, r.0);
    var c := ChainFor(cfg, t, r.0);
    RecsInsert(cfg.capacity, t.chains[c], r);
    hide Address, InsertChain;
    var t' := Place(cfg, t, r);
    forall i, q | 0 <= i < |t'.chains| && q in Recs(t'.chains[i])
      ensures ChainFor(cfg, t', q.0) == i
    {
      assert q != r ==> q in Recs(t.chains[i]);
    }
  }

  lemma {:induction false} PlaceRecordsPlaced<K, V>(cfg: Config<K>, t: Table<K, V>, rs: Bucket<K, V>, m: nat)
    requires Shape(cfg, t) && m <= |rs| && Placed(cfg, t)
    ensures Placed(cfg, PlaceRecords(cfg, t, rs, m))
  {
    if m > 0 {
      PlaceRecordsPlaced(cfg, t, rs, m - 1);
      PlacePlaced(cfg, PlaceRecords(cfg, t, rs, m - 1), rs[m - 1]);
    }
  }

  lemma {:induction false} PlaceBucketsPlaced<K, V>(cfg: Config<K>, t: Table<K, V>, chain: Chain<K, V>, m: nat)
    requires Shape(cfg, t) && m <= |chain| && Placed(cfg, t)
    ensures Placed(cfg, PlaceBuckets(cfg, t, chain, m))
  {
    if m > 0 {
      PlaceBucketsPlaced(cfg, t, chain, m - 1);
      PlaceRecordsPlaced(cfg, PlaceBuckets(cfg, t, chain, m - 1), chain[m - 1], |chain[m - 1]|);
    }
  }

  lemma OpenedPlaced<K, V>(cfg: Config<K>, t: Table<K, V>)
    requires Shape(cfg, t) && Placed(cfg, t)
    ensures Placed(cfg, Opened(cfg, t))
  {
    var t' := Opened(cfg, t);
    EmptyChain<K, V>();
    forall i, r | 0 <= i < |t'.chains| && r in Recs(t'.chains[i])
      ensures ChainFor(cfg, t', r.0) == i
    {
      assert i < |t.chains| && t'.chains[i] == t.chains[i];
      SplitAddress(cfg.hash(r.0), t.n, t.p);
    }
  }

  lemma ClosedPlaced<K, V>(cfg: Config<K>, t: Table<K, V>)
    requires Shape(cfg, t) && Placed(cfg, t) && |t.chains| > 1
    ensures Placed(cfg, Closed(cfg, t))
  {
    var t' := Closed(cfg, t);
    AdvanceRetreat(t.n, t.p);
    forall i, r | 0 <= i < |t'.chains| && r in Recs(t'.chains[i])
      ensures ChainFor(cfg, t', r.0) == i
    {
      assert t'.chains[i] == t.chains[i];
      SplitAddress(cfg.hash(r.0), t'.n, t'.p);
    }
  }

  // ---- The map -----------------------------------------------------------------------------

  ghost predicate Unique<K, V>(ms: multiset<(K, V)>) {
    && (forall r | r in ms :: ms[r] == 1)
    && (forall r, s | r in ms && s in ms :: r.0 == s.0 ==> r == s)
  }

  ghost function ToMap<K, V>(ms: multiset<(K, V)>): (m: map<K, V>)
    requires Unique(ms)
    ensures forall r | r in ms :: r.0 in m && m[r.0] == r.1
    ensures forall k | k in m :: (k, m[k]) in ms
  {
    map r | r in ms :: r.0 := r.1
  }

  /** The finite map that a table stands for. */
  ghost function Contents<K, V>(t: Table<K, V>): map<K, V>
    requires Unique(All(t.chains))
  {
    ToMap(All(t.chains))
  }

  /** The load is at most 0.95, and at least 0.75 unless the table has its minimum number of chains. */
  ghost predicate InBand<K, V>(cfg: Config<K>, t: Table<K, V>) {
    && 20 * t.size <= 19 * (cfg.capacity * |t.chains|)
    && (|t.chains| > cfg.minCount ==> 4 * t.size >= 3 * (cfg.capacity * |t.chains|))
  }

  /** The guards of the two loops keep to that band. */
  lemma BandIs<K, V>(cfg: Config<K>, t: Table<K, V>)
    ensures InBand(cfg, t) <==>
      && !Overloaded(cfg.capacity, t.size, |t.chains|)
      && (|t.chains| > cfg.minCount ==> !Underloaded(cfg.capacity, t.size, |t.chains|))
  {
    RoomIsProduct(cfg.capacity, |t.chains|);
  }

  lemma {:induction false} AllSplit<K, V>(chains: seq<Chain<K, V>>, n: nat)
    requires n <= |chains|
    ensures All(chains) == All(chains[..n]) + All(chains[n..])
  {
    hide All, Recs;
    if n == |chains| {
      assert chains[..n] == chains && chains[n..] == [];
      AllNone<K, V>();
    } else {
      var m := |chains| - 1;
      AllSplit(chains[..m], n);
      assert chains[..m][..n] == chains[..n];
      assert chains == chains[..m] + [chains[m]] && chains[n..] == chains[..m][n..] + [chains[m]];
      AllPush(chains[..m], chains[m]);
      AllPush(chains[..m][n..], chains[m]);
    }
  }

  lemma AllNone<K, V>()
    ensures All<K, V>([]) == multiset{}
  {
  }

  /** What the table keeps over every run; the load band is stated apart. */
  ghost predicate WellFormed<K, V>(cfg: Config<K>, t: Table<K, V>) {
    && Shape(cfg, t) && IsPow2(cfg.minCount) && cfg.minCount <= t.n
    && Placed(cfg, t)
    && Unique(All(t.chains))
    && t.size == |All(t.chains)|
  }

  /** A new table with the minimum number of empty chains. */
  function Empty<K, V>(cfg: Config<K>): Table<K, V> {
    Table(cfg.minCount, 0, 0, seq(cfg.minCount, _ => [[]]))
  }

  lemma {:induction false} AllEmpty<K, V>(chains: seq<Chain<K, V>>)
    requires forall i | 0 <= i < |chains| :: chains[i] == [[]]
    ensures All(chains) == multiset{}
  {
    if chains != [] {
      AllEmpty(chains[..|chains| - 1]);
      EmptyChain<K, V>();
    }
  }

  lemma EmptyWellFormed<K, V>(cfg: Config<K>)
    requires cfg.capacity > 0 && IsPow2(cfg.minCount)
    ensures WellFormed(cfg, Empty<K, V>(cfg)) && InBand(cfg, Empty<K, V>(cfg))
    ensures Contents(Empty<K, V>(cfg)) == map[]
  {
    AllEmpty(Empty<K, V>(cfg).chains);
    EmptyChain<K, V>();
  }

  /** `find` and `contains` look the key up in the map. */
  lemma FindIsLookup<K, V>(cfg: Config<K>, t: Table<K, V>, key: K)
    requires WellFormed(cfg, t)
    ensures Find(cfg, t, key).Some? <==> key in Contents(t)
    ensures Find(cfg, t, key).Some? ==> Find(cfg, t, key).value == Contents(t)[key]
  {
    hide Recs, All, Address, IsPow2;
    ChainForInRange(cfg, t, key);
    var c := ChainFor(cfg, t, key);
    var chain := t.chains[c];
    match FindInChain(chain, key) {
      case Some(at) =>
        var r := chain[at.0][at.1];
        RecsMember(chain, r);
        AllMember(t.chains, r);
      case None =>
        if key in Contents(t) {
          var r := (key, Contents(t)[key]);
          AllMember(t.chains, r);
          RecsMember(chain, r);
        }
    }
  }

  // ---- Rebalancing -------------------------------------------------------------------------

  lemma SplitWellFormed<K, V>(cfg: Config<K>, t: Table<K, V>)
    requires WellFormed(cfg, t)
    ensures var t' := SplitStep(cfg, t);
      WellFormed(cfg, t') && Contents(t') == Contents(t) && t'.size == t.size && |t'.chains| == |t.chains| + 1
  {
    hide All, Unique, ToMap, Placed, PlaceBuckets, Room;
    var chain := t.chains[t.p];
    SplitConserves(cfg, t);
    OpenedPlaced(cfg, t);
    PlaceBucketsPlaced(cfg, Opened(cfg, t), chain, |chain|);
    PlaceBucketsKeeps(cfg, Opened(cfg, t), chain, |chain|);
  }

  lemma MergeWellFormed<K, V>(cfg: Config<K>, t: Table<K, V>)
    requires WellFormed(cfg, t) && |t.chains| > cfg.minCount
    ensures var t' := MergeStep(cfg, t);
      WellFormed(cfg, t') && Contents(t') == Contents(t) && t'.size == t.size && |t'.chains| == |t.chains| - 1
  {
    hide All, Unique, ToMap, Placed, PlaceBuckets, Room;
    var last := t.chains[|t.chains| - 1];
    MergeConserves(cfg, t);
    ClosedPlaced(cfg, t);
    PlaceBucketsPlaced(cfg, Closed(cfg, t), last, |last|);
    PlaceBucketsKeeps(cfg, Closed(cfg, t), last, |last|);
    if t.p == 0 {
      HalfAtLeast(t.n, cfg.minCount);
    }
  }

  lemma {:induction false} HalfAtLeast(n: nat, m: nat)
    requires IsPow2(n) && IsPow2(m) && n > m
    ensures n / 2 >= m
  {
    if m > 1 {
      assert n == 2 * (n / 2) && m == 2 * (m / 2);
      HalfAtLeast(n / 2, m / 2);
    }
  }

  lemma {:induction false} RebalanceSplitWellFormed<K, V>(cfg: Config<K>, t: Table<K, V>)
    requires WellFormed(cfg, t)
    ensures var t' := RebalanceSplit(cfg, t);
      && WellFormed(cfg, t') && Contents(t') == Contents(t) && t'.size == t.size
      && !Overloaded(cfg.capacity, t'.size, |t'.chains|)
    decreases 20 * t.size - 19 * Room(cfg.capacity, |t.chains|)
  {
    hide SplitStep, WellFormed, Contents;
    ShapeOf(cfg, t);
    if Overloaded(cfg.capacity, t.size, |t.chains|) {
      SplitWellFormed(cfg, t);
      RebalanceSplitWellFormed(cfg, SplitStep(cfg, t));
    }
  }

  lemma {:induction false} RebalanceMergeWellFormed<K, V>(cfg: Config<K>, t: Table<K, V>)
    requires WellFormed(cfg, t) && cfg.minCount > 0
    ensures var t' := RebalanceMerge(cfg, t);
      && WellFormed(cfg, t') && Contents(t') == Contents(t) && t'.size == t.size
      && (|t'.chains| > cfg.minCount ==> !Underloaded(cfg.capacity, t'.size, |t'.chains|))
    decreases |t.chains|
  {
    hide MergeStep, WellFormed, Contents;
    ShapeOf(cfg, t);
    if |t.chains| > cfg.minCount && Underloaded(cfg.capacity, t.size, |t.chains|) {
      MergeWellFormed(cfg, t);
      RebalanceMergeWellFormed(cfg, MergeStep(cfg, t));
    }
  }

  // ---- Insert ------------------------------------------------------------------------------

  /** The record that the cleanup drops. */
  function Cleanup<K, V>(cfg: Config<K>, t: Table<K, V>, key: K, filter: (K, V) -> bool): (K, V)
    requires Shape(cfg, t) && Cleanable(cfg, t, key, filter).Some?
  {
    ChainForInRange(cfg, t, key);
    t.chains[ChainFor(cfg, t, key)][0][Cleanable(cfg, t, key, filter).value]
  }

  function Dropped<K, V>(cfg: Config<K>, t: Table<K, V>, key: K, filter: (K, V) -> bool): Option<(K, V)>
    requires Shape(cfg, t)
  {
    if Cleanable(cfg, t, key, filter).Some? then Some(Cleanup(cfg, t, key, filter)) else None
  }

  /** The map after `insert`: the new record, minus the one the cleanup filter dropped. */
  function AfterInsert<K, V>(m: map<K, V>, dropped: Option<(K, V)>, key: K, value: V): map<K, V> {
    (if dropped.Some? then m - {dropped.value.0} else m)[key := value]
  }

  lemma CleanedKeeps<K, V>(cfg: Config<K>, t: Table<K, V>, key: K, filter: (K, V) -> bool)
    requires WellFormed(cfg, t)
    ensures var t' := Cleaned(cfg, t, key, filter);
      && Placed(cfg, t') && t'.n == t.n && t'.p == t.p && |t'.chains| == |t.chains| && t'.size == t.size
      && All(t'.chains) <= All(t.chains)
    ensures Cleanable(cfg, t, key, filter).None? ==> Cleaned(cfg, t, key, filter) == t
    ensures Cleanable(cfg, t, key, filter).Some? ==>
      var r := Cleanup(cfg, t, key, filter);
      && r in All(t.chains) && filter(r.0, r.1)
      && All(Cleaned(cfg, t, key, filter).chains) == All(t.chains) - multiset{r}
  {
    hide Address, Unique, All, Recs, FirstAccepted, IsPow2;
    ChainForInRange(cfg, t, key);
    var c := ChainFor(cfg, t, key);
    if Cleanable(cfg, t, key, filter).Some? {
      DropRecord(t, c, 0, Cleanable(cfg, t, key, filter).value);
      DropPlaced(cfg, t, Cleaned(cfg, t, key, filter), c);
    }
  }

  /** Removing one record from one bucket. */
  lemma WithoutOne<T>(s: seq<T>, i: nat)
    requires i < |s|
    ensures multiset(s) == multiset(Without(s, i)) + multiset{s[i]}
  {
    assert s == s[..i] + [s[i]] + s[i + 1..];
  }

  lemma DropRecord<K, V>(t: Table<K, V>, c: nat, j: nat, i: nat)
    requires c < |t.chains| && j < |t.chains[c]| && i < |t.chains[c][j]|
    ensures var r, chain := t.chains[c][j][i], t.chains[c][j := Without(t.chains[c][j], i)];
      && Recs(chain) == Recs(t.chains[c]) - multiset{r}
      && r in Recs(t.chains[c]) && r in All(t.chains)
      && All(t.chains[c := chain]) == All(t.chains) - multiset{r}
  {
    hide Recs, All, Without;
    var bucket := t.chains[c][j];
    var rest := Without(bucket, i);
    WithoutOne(bucket, i);
    RecsUpdate(t.chains[c], j, rest);
    AllUpdate(t.chains, c, t.chains[c][j := rest]);
  }

  lemma DropPlaced<K, V>(cfg: Config<K>, t: Table<K, V>, t': Table<K, V>, c: nat)
    requires t.n > 0 && Placed(cfg, t) && c < |t.chains|
    requires t'.n == t.n && t'.p == t.p && |t'.chains| == |t.chains|
    requires forall i | 0 <= i < |t.chains| && i != c :: t'.chains[i] == t.chains[i]
    requires Recs(t'.chains[c]) <= Recs(t.chains[c])
    ensures Placed(cfg, t')
  {
    hide Address;
    forall i, r | 0 <= i < |t'.chains| && r in Recs(t'.chains[i])
      ensures ChainFor(cfg, t', r.0) == i
    {
      assert r in Recs(t.chains[i]);
    }
  }

  /** Before rebalancing: the table with the new record in place. */
  lemma InsertedWellFormed<K, V>(cfg: Config<K>, t: Table<K, V>, key: K, value: V, filter: (K, V) -> bool)
    requires WellFormed(cfg, t) && Find(cfg, t, key).None?
    ensures
      var t1 := Inserted(cfg, t, key, value, filter);
      && WellFormed(cfg, t1) && Contents(t1) == AfterInsert(Contents(t), Dropped(cfg, t, key, filter), key, value)
      && |t1.chains| == |t.chains|
      && t1.size == if Cleanable(cfg, t, key, filter).Some? then t.size else t.size + 1
  {
    hide All, Cleaned, Cleanup, WellFormed, Inserted, Find, Placed, Shape, Unique, ToMap, Contents, Cleanable;
    ShapeOf(cfg, t);
    FindIsLookup(cfg, t, key);
    InsertedParts(cfg, t, key, value, filter);
    ContentsIs(cfg, t);
    var ms := All(Cleaned(cfg, t, key, filter).chains);
    if Cleanable(cfg, t, key, filter).Some? {
      SubtractOne(All(t.chains), Cleanup(cfg, t, key, filter));
    }
    AddUnique(ms, key, value);
    WellFormedFrom(cfg, t, Inserted(cfg, t, key, value, filter));
  }

  /** What the steps of an insertion do to the records, to their places and to the size. */
  lemma InsertedParts<K, V>(cfg: Config<K>, t: Table<K, V>, key: K, value: V, filter: (K, V) -> bool)
    requires WellFormed(cfg, t)
    ensures
      var t1, ms := Inserted(cfg, t, key, value, filter), All(Cleaned(cfg, t, key, filter).chains);
      && All(t1.chains) == ms + multiset{(key, value)}
      && Placed(cfg, t1) && t1.n == t.n && t1.p == t.p && |t1.chains| == |t.chains|
      && t1.size == (if Cleanable(cfg, t, key, filter).Some? then t.size else t.size + 1)
      && ms == if Cleanable(cfg, t, key, filter).Some?
               then All(t.chains) - multiset{Cleanup(cfg, t, key, filter)} else All(t.chains)
    ensures Cleanable(cfg, t, key, filter).Some? ==> Cleanup(cfg, t, key, filter) in All(t.chains)
  {
    hide All, Placed, Place, Cleaned, Cleanable, Cleanup, ChainShape, IsPow2;
    CleanedKeeps(cfg, t, key, filter);
    var cleaned := Cleaned(cfg, t, key, filter);
    PlaceAll(cfg, cleaned, (key, value));
    PlacePlaced(cfg, cleaned, (key, value));
    PlaceSize(cfg, cleaned, (key, value));
    var placed := Place(cfg, cleaned, (key, value));
    PlacedResized(cfg, placed, placed.size + 1);
  }

  lemma PlacedResized<K, V>(cfg: Config<K>, t: Table<K, V>, size: nat)
    requires t.n > 0 && Placed(cfg, t)
    ensures Placed(cfg, t.(size := size))
  {
    hide Address;
    var t' := t.(size := size);
    forall i, r | 0 <= i < |t'.chains| && r in Recs(t'.chains[i])
      ensures ChainFor(cfg, t', r.0) == i
    {
      assert ChainFor(cfg, t, r.0) == i;
    }
  }

  lemma ContentsIs<K, V>(cfg: Config<K>, t: Table<K, V>)
    requires WellFormed(cfg, t)
    ensures Unique(All(t.chains)) && Contents(t) == ToMap(All(t.chains)) && t.size == |All(t.chains)|
  {
  }

  lemma WellFormedFrom<K, V>(cfg: Config<K>, t: Table<K, V>, t': Table<K, V>)
    requires WellFormed(cfg, t) && Shape(cfg, t') && t'.n == t.n && t'.p == t.p
    requires Placed(cfg, t') && Unique(All(t'.chains)) && t'.size == |All(t'.chains)|
    ensures WellFormed(cfg, t') && Contents(t') == ToMap(All(t'.chains))
  {
    hide Placed, All, Shape, Unique, ToMap;
  }

  lemma PlaceSize<K, V>(cfg: Config<K>, t: Table<K, V>, r: (K, V))
    requires Shape(cfg, t)
    ensures var t' := Place(cfg, t, r);
      t'.size == t.size && t'.n == t.n && t'.p == t.p && |t'.chains| == |t.chains|
  {
  }

  lemma AddUnique<K, V>(ms: multiset<(K, V)>, key: K, value: V)
    requires Unique(ms) && key !in ToMap(ms)
    ensures Unique(ms + multiset{(key, value)})
    ensures ToMap(ms + multiset{(key, value)}) == ToMap(ms)[key := value]
    ensures |ms + multiset{(key, value)}| == |ms| + 1
  {
    hide ToMap;
    var more := ms + multiset{(key, value)};
    assert forall r :: r in more <==> r in ms || r == (key, value);
    var a, b := ToMap(more), ToMap(ms)[key := value];
    forall k | k in a
      ensures k in b && a[k] == b[k]
    {
      assert (k, a[k]) in more;
    }
    forall k | k in b
      ensures k in a
    {
      assert k != key ==> (k, b[k]) in more;
      assert (key, value) in more;
    }
  }

  lemma SubtractOne<K, V>(ms: multiset<(K, V)>, r: (K, V))
    requires Unique(ms) && r in ms
    ensures Unique(ms - multiset{r})
    ensures ToMap(ms - multiset{r}) == ToMap(ms) - {r.0}
    ensures |ms - multiset{r}| == |ms| - 1
  {
    hide ToMap;
    var less := ms - multiset{r};
    assert forall q :: q in less <==> q in ms && q != r;
    var a, b := ToMap(less), ToMap(ms) - {r.0};
    forall k | k in a
      ensures k in b && a[k] == b[k]
    {
      assert (k, a[k]) in less;
    }
    forall k | k in b
      ensures k in a
    {
      assert (k, b[k]) in less;
    }
  }

  /** `insert` is insertion into the map: an existing key changes nothing; a new key is added, and
      at most one other record goes, one that the cleanup filter accepts. */
  lemma InsertIsMapInsert<K, V>(cfg: Config<K>, t: Table<K, V>, key: K, value: V, filter: (K, V) -> bool)
    requires WellFormed(cfg, t)
    ensures var (t', inserted) := Insert(cfg, t, key, value, filter);
      && WellFormed(cfg, t')
      && (inserted <==> key !in Contents(t))
      && Contents(t') == if inserted then AfterInsert(Contents(t), Dropped(cfg, t, key, filter), key, value) else Contents(t)
  {
    hide WellFormed, Inserted, Find, Cleanable, Contents, AfterInsert;
    ShapeOf(cfg, t);
    FindIsLookup(cfg, t, key);
    if Find(cfg, t, key).None? {
      InsertedWellFormed(cfg, t, key, value, filter);
      RebalanceSplitWellFormed(cfg, Inserted(cfg, t, key, value, filter));
    }
  }

  /** The primary bucket of the chain that a key belongs to. */
  ghost function HomeBucket<K, V>(cfg: Config<K>, t: Table<K, V>, key: K): Bucket<K, V>
    requires Shape(cfg, t)
  {
    ChainForInRange(cfg, t, key);
    t.chains[Address(cfg.hash(key), t.n, t.p)][0]
  }

  /** `insert` drops the first record of the primary bucket of the key's chain that the filter accepts, and
      none exactly if there is none. */
  lemma DroppedIsFirst<K, V>(cfg: Config<K>, t: Table<K, V>, key: K, filter: (K, V) -> bool)
    requires Shape(cfg, t)
    ensures var bucket := HomeBucket(cfg, t, key);
      match Dropped(cfg, t, key, filter)
      case Some(r) => exists i :: 0 <= i < |bucket| && bucket[i] == r && filter(r.0, r.1)
                        && forall l | 0 <= l < i :: !filter(bucket[l].0, bucket[l].1)
      case None => forall i | 0 <= i < |bucket| :: !filter(bucket[i].0, bucket[i].1)
  {
    ChainForInRange(cfg, t, key);
    var bucket, at := HomeBucket(cfg, t, key), Cleanable(cfg, t, key, filter);
    if at.Some? {
      assert bucket[at.value] == Dropped(cfg, t, key, filter).value;
    }
  }

  /** What `insert` drops is one record of the table that the filter accepts. */
  lemma DroppedIsAccepted<K, V>(cfg: Config<K>, t: Table<K, V>, key: K, filter: (K, V) -> bool)
    requires WellFormed(cfg, t) && Dropped(cfg, t, key, filter).Some?
    ensures var (k, v) := Dropped(cfg, t, key, filter).value;
      k in Contents(t) && Contents(t)[k] == v && filter(k, v)
  {
    CleanedKeeps(cfg, t, key, filter);
  }

  // ---- Remove ------------------------------------------------------------------------------

  lemma ErasedWellFormed<K, V>(cfg: Config<K>, t: Table<K, V>, key: K)
    requires WellFormed(cfg, t) && Find(cfg, t, key).Some?
    ensures t.size > 0
    ensures var t' := Erased(cfg, t, key);
      WellFormed(cfg, t') && Contents(t') == Contents(t) - {key} && |t'.chains| == |t.chains| && t'.size == t.size - 1
  {
    hide Address, Recs, IsPow2, FindInChain, All, ToMap, Unique;
    ChainForInRange(cfg, t, key);
    var c := ChainFor(cfg, t, key);
    var at := FindInChain(t.chains[c], key).value;
    DropRecord(t, c, at.0, at.1);
    SubtractOne(All(t.chains), t.chains[c][at.0][at.1]);
    DropPlaced(cfg, t, Erased(cfg, t, key), c);
  }

  /** `remove` removes the key from the map and hands its value over. */
  lemma RemoveIsMapRemove<K, V>(cfg: Config<K>, t: Table<K, V>, key: K)
    requires WellFormed(cfg, t)
    ensures Find(cfg, t, key).Some? ==> t.size > 0
    ensures var (t', removed) := Remove(cfg, t, key);
      && WellFormed(cfg, t')
      && Contents(t') == Contents(t) - {key}
      && removed == if key in Contents(t) then Some(Contents(t)[key]) else None
  {
    hide Find, Erased, Contents, WellFormed, RebalanceMerge;
    FindIsLookup(cfg, t, key);
    ShapeOf(cfg, t);
    if Find(cfg, t, key).Some? {
      ErasedWellFormed(cfg, t, key);
      RebalanceMergeWellFormed(cfg, Erased(cfg, t, key));
    }
  }

  // ---- The load band -----------------------------------------------------------------------

  /** One split at a load above 0.95 leaves it at 0.75 or more when there are at least 4 chains. */
  lemma SplitStaysAbove(capacity: nat, size: nat, count: nat)
    requires capacity > 0 && count >= 4 && Overloaded(capacity, size, count)
    ensures !Underloaded(capacity, size, count + 1)
  {
    RoomAtLeast(capacity, count, 4);
    assert Room(capacity, 4) == 4 * capacity by { RoomIsProduct(capacity, 4); }
  }

  lemma MergeStaysBelow(capacity: nat, size: nat, count: nat)
    requires capacity > 0 && count >= 5 && Underloaded(capacity, size, count)
    ensures !Overloaded(capacity, size, count - 1)
  {
    RoomAtLeast(capacity, count, 5);
    assert Room(capacity, 5) == 5 * capacity by { RoomIsProduct(capacity, 5); }
  }

  lemma {:induction false} RebalanceSplitBand<K, V>(cfg: Config<K>, t: Table<K, V>)
    requires WellFormed(cfg, t) && cfg.minCount >= 4
    requires |t.chains| > cfg.minCount ==> !Underloaded(cfg.capacity, t.size, |t.chains|)
    ensures InBand(cfg, RebalanceSplit(cfg, t))
    decreases 20 * t.size - 19 * Room(cfg.capacity, |t.chains|)
  {
    hide SplitStep, WellFormed, Shape, InBand;
    ShapeOf(cfg, t);
    BandIs(cfg, t);
    if Overloaded(cfg.capacity, t.size, |t.chains|) {
      SplitWellFormed(cfg, t);
      SplitStaysAbove(cfg.capacity, t.size, |t.chains|);
      RebalanceSplitBand(cfg, SplitStep(cfg, t));
    }
  }

  lemma ShapeOf<K, V>(cfg: Config<K>, t: Table<K, V>)
    requires WellFormed(cfg, t)
    ensures Shape(cfg, t) && cfg.capacity > 0 && |t.chains| >= cfg.minCount && t.n > 0 && cfg.minCount > 0
  {
  }

  lemma {:induction false} RebalanceMergeBand<K, V>(cfg: Config<K>, t: Table<K, V>)
    requires WellFormed(cfg, t) && cfg.minCount >= 4 && !Overloaded(cfg.capacity, t.size, |t.chains|)
    ensures InBand(cfg, RebalanceMerge(cfg, t))
    decreases |t.chains|
  {
    hide MergeStep, WellFormed, Shape, InBand;
    ShapeOf(cfg, t);
    BandIs(cfg, t);
    if |t.chains| > cfg.minCount && Underloaded(cfg.capacity, t.size, |t.chains|) {
      MergeWellFormed(cfg, t);
      MergeStaysBelow(cfg.capacity, t.size, |t.chains|);
      RebalanceMergeBand(cfg, MergeStep(cfg, t));
    }
  }

  /** With buckets of two or more records, one record more needs at most one split. */
  lemma SplitsOnce<K, V>(cfg: Config<K>, t: Table<K, V>)
    requires WellFormed(cfg, t) && cfg.capacity >= 2
    requires t.size > 0 && !Overloaded(cfg.capacity, t.size - 1, |t.chains|)
    ensures |t.chains| <= |RebalanceSplit(cfg, t).chains| <= |t.chains| + 1
  {
    hide SplitStep, WellFormed, Shape;
    ShapeOf(cfg, t);
    if Overloaded(cfg.capacity, t.size, |t.chains|) {
      SplitWellFormed(cfg, t);
      ShapeOf(cfg, SplitStep(cfg, t));
      assert RebalanceSplit(cfg, t) == RebalanceSplit(cfg, SplitStep(cfg, t)) == SplitStep(cfg, t);
    }
  }

  lemma MergesOnce<K, V>(cfg: Config<K>, t: Table<K, V>)
    requires WellFormed(cfg, t) && cfg.capacity >= 2 && cfg.minCount > 0
    requires |t.chains| > cfg.minCount ==> !Underloaded(cfg.capacity, t.size + 1, |t.chains|)
    ensures |t.chains| - 1 <= |RebalanceMerge(cfg, t).chains| <= |t.chains|
  {
    hide MergeStep, WellFormed, Shape;
    ShapeOf(cfg, t);
    if |t.chains| > cfg.minCount && Underloaded(cfg.capacity, t.size, |t.chains|) {
      MergeWellFormed(cfg, t);
      ShapeOf(cfg, MergeStep(cfg, t));
      assert RebalanceMerge(cfg, t) == RebalanceMerge(cfg, MergeStep(cfg, t)) == MergeStep(cfg, t);
    }
  }

  /** With the built-in factors and at least 4 chains, `insert` keeps the load in its band, and with
      buckets of two or more records it splits at most once. */
  lemma InsertKeepsBand<K, V>(cfg: Config<K>, t: Table<K, V>, key: K, value: V, filter: (K, V) -> bool)
    requires WellFormed(cfg, t) && InBand(cfg, t) && cfg.minCount >= 4
    ensures var t' := Insert(cfg, t, key, value, filter).0;
      InBand(cfg, t') && (cfg.capacity >= 2 ==> |t.chains| <= |t'.chains| <= |t.chains| + 1)
  {
    hide WellFormed, Inserted, Find, Cleanable, RebalanceSplit, Shape, InBand;
    ShapeOf(cfg, t);
    BandIs(cfg, t);
    if Find(cfg, t, key).None? {
      InsertedWellFormed(cfg, t, key, value, filter);
      var t1 := Inserted(cfg, t, key, value, filter);
      BandIs(cfg, t1);
      if Cleanable(cfg, t, key, filter).None? {
        RebalanceSplitBand(cfg, t1);
        if cfg.capacity >= 2 {
          SplitsOnce(cfg, t1);
        }
      }
    }
  }

  /** `remove` keeps the load in its band, and with buckets of two or more records it merges at most
      once. */
  lemma RemoveKeepsBand<K, V>(cfg: Config<K>, t: Table<K, V>, key: K)
    requires WellFormed(cfg, t) && InBand(cfg, t) && cfg.minCount >= 4
    ensures Find(cfg, t, key).Some? ==> t.size > 0
    ensures var t' := Remove(cfg, t, key).0;
      InBand(cfg, t') && (cfg.capacity >= 2 ==> |t.chains| - 1 <= |t'.chains| <= |t.chains|)
  {
    hide WellFormed, Erased, Find, RebalanceMerge, Shape, InBand;
    ShapeOf(cfg, t);
    BandIs(cfg, t);
    if Find(cfg, t, key).Some? {
      ErasedWellFormed(cfg, t, key);
      var t1 := Erased(cfg, t, key);
      RebalanceMergeBand(cfg, t1);
      if cfg.capacity >= 2 {
        MergesOnce(cfg, t1);
      }
    }
  }

  // ---- Runs --------------------------------------------------------------------------------

  datatype Op<!K, !V> = InsertOp(key: K, value: V, filter: (K, V) -> bool) | RemoveOp(key: K)

  function Apply<K(==), V>(cfg: Config<K>, t: Table<K, V>, op: Op<K, V>): (t': Table<K, V>)
    requires Shape(cfg, t) && cfg.minCount > 0
    requires op.RemoveOp? && Find(cfg, t, op.key).Some? ==> t.size > 0
  {
    match op
    case InsertOp(key, value, filter) => Insert(cfg, t, key, value, filter).0
    case RemoveOp(key) => Remove(cfg, t, key).0
  }

  /** One operation on a finite map; an insertion may drop one record that its filter accepts. */
  ghost predicate MapStep<K, V>(m: map<K, V>, op: Op<K, V>, m': map<K, V>) {
    match op
    case InsertOp(key, value, filter) =>
      if key in m then m' == m
      else m' == m[key := value] || exists k :: k in m && filter(k, m[k]) && m' == (m - {k})[key := value]
    case RemoveOp(key) => m' == m - {key}
  }

  lemma ApplyRefines<K, V>(cfg: Config<K>, t: Table<K, V>, op: Op<K, V>)
    requires WellFormed(cfg, t) && InBand(cfg, t) && cfg.minCount >= 4
    ensures op.RemoveOp? && Find(cfg, t, op.key).Some? ==> t.size > 0
    ensures var t' := Apply(cfg, t, op);
      WellFormed(cfg, t') && InBand(cfg, t') && MapStep(Contents(t), op, Contents(t'))
  {
    hide Insert, Remove, WellFormed, InBand, Contents, Find, Cleanable, Cleanup;
    ShapeOf(cfg, t);
    match op {
      case InsertOp(key, value, filter) =>
        InsertIsMapInsert(cfg, t, key, value, filter);
        InsertKeepsBand(cfg, t, key, value, filter);
        if Dropped(cfg, t, key, filter).Some? {
          DroppedIsAccepted(cfg, t, key, filter);
        }
      case RemoveOp(key) =>
        RemoveIsMapRemove(cfg, t, key);
        RemoveKeepsBand(cfg, t, key);
    }
  }

  /** The table after the operations `ops`, which are all defined. */
  ghost function Run<K, V>(cfg: Config<K>, t: Table<K, V>, ops: seq<Op<K, V>>): (t': Table<K, V>)
    requires WellFormed(cfg, t) && InBand(cfg, t) && cfg.minCount >= 4
    ensures WellFormed(cfg, t') && InBand(cfg, t')
    decreases |ops|
  {
    if ops == [] then t
    else
      ShapeOf(cfg, t);
      ApplyRefines(cfg, t, ops[0]);
      Run(cfg, Apply(cfg, t, ops[0]), ops[1..])
  }

  ghost predicate MapRun<K(!new), V(!new)>(m: map<K, V>, ops: seq<Op<K, V>>, m': map<K, V>)
    decreases |ops|
  {
    if ops == [] then m' == m else
      exists mid: map<K, V> :: MapStep(m, ops[0], mid) && MapRun(mid, ops[1..], m')
  }

  /** Over every run, for any hash function, the table is a finite map whose load is in its band. */
  lemma {:induction false} RunRefinesMap<K(!new), V(!new)>(cfg: Config<K>, t: Table<K, V>, ops: seq<Op<K, V>>)
    requires WellFormed(cfg, t) && InBand(cfg, t) && cfg.minCount >= 4
    ensures WellFormed(cfg, Run(cfg, t, ops)) && InBand(cfg, Run(cfg, t, ops))
    ensures MapRun(Contents(t), ops, Contents(Run(cfg, t, ops)))
    decreases |ops|
  {
    hide Apply, WellFormed, InBand, Contents, MapStep, Find, Shape;
    if ops != [] {
      ShapeOf(cfg, t);
      ApplyRefines(cfg, t, ops[0]);
      RunRefinesMap(cfg, Apply(cfg, t, ops[0]), ops[1..]);
    }
  }
}
