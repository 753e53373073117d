/** Linear hashing on values: what the table does when every bucket stays in memory.

    A chain is a non-empty sequence of buckets, the primary bucket first.  The functions follow
    the member functions of `LinearHashingTable` with the same names; the lemmas show that over
    any hash function they are the operations of a finite map, and that the load stays in its band. */
module TableModel {
  import opened Bits
  import opened Options

  type Bucket<K, V> = seq<(K, V)>

  type Chain<K, V> = seq<Bucket<K, V>>

  datatype Config<!K> = Config(capacity: nat, minCount: nat, hash: K -> nat)

  datatype Table<K, V> = Table(n: nat, p: nat, size: nat, chains: seq<Chain<K, V>>)

  // ---- Addresses ---------------------------------------------------------------------------

  /** `calculate_bucket_chain` on a digest. */
  function Address(digest: nat, n: nat, p: nat): nat
    requires n > 0
  {
    var bucket := And(digest, n - 1);
    if bucket < p then And(digest, 2 * n - 1) else bucket
  }

  predicate IsPow2(n: nat) {
    n > 0 && (n == 1 || (n % 2 == 0 && IsPow2(n / 2)))
  }

  /** The table after one more split, and after one less. */
  function Advance(n: nat, p: nat): (nat, nat) {
    if p + 1 == n then (2 * n, 0) else (n, p + 1)
  }

  function Retreat(n: nat, p: nat): (r: (nat, nat))
    requires n > 1 || p > 0
  {
    if p == 0 then (n / 2, n / 2 - 1) else (n, p - 1)
  }

  lemma {:induction false} IsPow2Is(n: nat) returns (e: nat)
    requires IsPow2(n)
    ensures n == Pow2(e)
  {
    if n == 1 {
      e := 0;
    } else {
      var e' := IsPow2Is(n / 2);
      e := e' + 1;
    }
  }

  /** With the bases a power of two, the masks are remainders. */
  lemma AddressIs(digest: nat, n: nat, p: nat)
    requires IsPow2(n)
    ensures Address(digest, n, p) == if digest % n < p then digest % (2 * n) else digest % n
    ensures digest % (2 * n) == digest % n || digest % (2 * n) == digest % n + n
    ensures p <= n ==> Address(digest, n, p) < n + p
  {
    hide And, IsPow2;
    var e := IsPow2Is(n);
    AndLowMask(digest, e);
    AndLowMask(digest, e + 1);
    assert Pow2(e + 1) == 2 * n;
    ModDouble(digest, e);
    ModBelow(digest, n);
    hide Pow2;
  }

  lemma ModBelow(a: nat, n: nat)
    requires n > 0
    ensures 0 <= a % n < n
  {
  }

  lemma ModDouble(a: nat, e: nat)
    ensures a % Pow2(e + 1) == a % Pow2(e) || a % Pow2(e + 1) == a % Pow2(e) + Pow2(e)
  {
    ModHigh(a, e);
    var b := (a / Pow2(e)) % 2;
    assert b == 0 || b == 1;
  }

  lemma RetreatAdvance(n: nat, p: nat)
    requires IsPow2(n) && p < n
    ensures var (n', p') := Advance(n, p);
      IsPow2(n') && p' < n' && n' + p' == n + p + 1 && Retreat(n', p') == (n, p)
  {
  }

  lemma AdvanceRetreat(n: nat, p: nat)
    requires IsPow2(n) && p < n && n + p > 1
    ensures var (n', p') := Retreat(n, p);
      IsPow2(n') && p' < n' && n' + p' == n + p - 1 && Advance(n', p') == (n, p)
  {
    hide IsPow2;
    HalfPow2(n);
  }

  lemma HalfPow2(n: nat)
    requires IsPow2(n)
    ensures n > 0 && (n > 1 ==> n % 2 == 0 && IsPow2(n / 2))
  {
  }

  /** A split moves keys only from the split chain `p` to the new last chain `n + p`. */
  lemma SplitAddress(digest: nat, n: nat, p: nat)
    requires IsPow2(n) && p < n
    ensures var (n', p') := Advance(n, p);
      Address(digest, n', p') == Address(digest, n, p)
      || (Address(digest, n, p) == p && Address(digest, n', p') == n + p)
  {
    AddressIs(digest, n, p);
    RetreatAdvance(n, p);
    var (n', p') := Advance(n, p);
    AddressIs(digest, n', p');
  }

  // ---- Buckets, chains, loads --------------------------------------------------------------

  /** `insert_internal`: the first bucket that is not full, or a new overflow bucket. */
  function InsertChain<K, V>(capacity: nat, chain: Chain<K, V>, r: (K, V)): Chain<K, V> {
    if chain == [] then [[r]]
    else if |chain[0]| == capacity then [chain[0]] + InsertChain(capacity, chain[1..], r)
    else [chain[0] + [r]] + chain[1..]
  }

  /** The record goes behind those of the first bucket that is not full, or into a new one. */
  lemma {:induction false} InsertAt<K, V>(capacity: nat, chain: Chain<K, V>, j: nat, r: (K, V))
    requires j <= |chain| && forall k | 0 <= k < j :: |chain[k]| == capacity
    requires j < |chain| ==> |chain[j]| != capacity
    ensures InsertChain(capacity, chain, r) == if j < |chain| then chain[j := chain[j] + [r]] else chain + [[r]]
  {
    if j > 0 {
      InsertAt(capacity, chain[1..], j - 1, r);
      assert chain == [chain[0]] + chain[1..];
    }
  }

  /** The first position of `key` in a bucket. */
  function FindInBucket<K(==), V>(bucket: Bucket<K, V>, key: K): (r: Option<nat>)
    ensures r.Some? ==> r.value < |bucket| && bucket[r.value].0 == key
    ensures r.Some? ==> forall i | 0 <= i < r.value :: bucket[i].0 != key
    ensures r.None? ==> forall i | 0 <= i < |bucket| :: bucket[i].0 != key
  {
    if bucket == [] then None
    else if bucket[0].0 == key then Some(0)
    else
      match FindInBucket(bucket[1..], key)
      case None =>
        assert forall i | 1 <= i < |bucket| :: bucket[i] == bucket[1..][i - 1];
        None
      case Some(i) =>
        assert forall j | 1 <= j < |bucket| :: bucket[j] == bucket[1..][j - 1];
        Some(i + 1)
  }

  /** `find_internal`: the first bucket of the chain that holds `key`, and the place in it. */
  function FindInChain<K(==), V>(chain: Chain<K, V>, key: K): (r: Option<(nat, nat)>)
    ensures r.Some? ==> r.value.0 < |chain| && r.value.1 < |chain[r.value.0]|
                        && chain[r.value.0][r.value.1].0 == key
                        && FindInBucket(chain[r.value.0], key) == Some(r.value.1)
    ensures r.Some? ==> forall j | 0 <= j < r.value.0 :: FindInBucket(chain[j], key) == None
    ensures r.None? ==> forall j | 0 <= j < |chain| :: FindInBucket(chain[j], key) == None
  {
    if chain == [] then None
    else
      match FindInBucket(chain[0], key)
      case Some(i) => Some((0, i))
      case None =>
        assert forall j | 1 <= j < |chain| :: chain[j] == chain[1..][j - 1];
        match FindInChain(chain[1..], key)
        case Some((j, i)) => Some((j + 1, i))
        case None => None
  }

  function Without<T>(s: seq<T>, i: nat): seq<T>
    requires i < |s|
  {
    s[..i] + s[i + 1..]
  }

  /** `capacity * count`, the denominator of the load. */
  function Room(capacity: nat, count: nat): nat {
    if count == 0 then 0 else Room(capacity, count - 1) + capacity
  }

  lemma {:induction false} RoomIsProduct(capacity: nat, count: nat)
    ensures Room(capacity, count) == capacity * count
  {
    if count > 0 {
      RoomIsProduct(capacity, count - 1);
    }
  }

  lemma {:induction false} RoomAtLeast(capacity: nat, count: nat, low: nat)
    requires low <= count
    ensures Room(capacity, count) >= Room(capacity, low)
  {
    if low < count {
      RoomAtLeast(capacity, count - 1, low);
    }
  }

  /** `compute_load() > 0.95` and `compute_load() < 0.75`, cross-multiplied. */
  predicate Overloaded(capacity: nat, size: nat, count: nat) {
    20 * size > 19 * Room(capacity, count)
  }

  predicate Underloaded(capacity: nat, size: nat, count: nat) {
    4 * size < 3 * Room(capacity, count)
  }

  // ---- Table operations --------------------------------------------------------------------

  function ChainFor<K, V>(cfg: Config<K>, t: Table<K, V>, key: K): nat
    requires t.n > 0
  {
    Address(cfg.hash(key), t.n, t.p)
  }

  /** The shape every table has between any two steps. */
  predicate Shape<K, V>(cfg: Config<K>, t: Table<K, V>) {
    && cfg.capacity > 0
    && IsPow2(t.n) && t.p < t.n && |t.chains| == t.n + t.p
    && forall i | 0 <= i < |t.chains| :: ChainShape(cfg.capacity, t.chains[i])
  }

  predicate ChainShape<K, V>(capacity: nat, chain: Chain<K, V>) {
    chain != [] && forall j | 0 <= j < |chain| :: |chain[j]| <= capacity
  }

  lemma {:induction false} InsertChainShape<K, V>(capacity: nat, chain: Chain<K, V>, r: (K, V))
    requires capacity > 0 && forall j | 0 <= j < |chain| :: |chain[j]| <= capacity
    ensures ChainShape(capacity, InsertChain(capacity, chain, r))
  {
    if chain != [] && |chain[0]| == capacity {
      InsertChainShape(capacity, chain[1..], r);
    }
  }

  lemma ChainForInRange<K, V>(cfg: Config<K>, t: Table<K, V>, key: K)
    requires Shape(cfg, t)
    ensures ChainFor(cfg, t, key) < |t.chains|
  {
    AddressIs(cfg.hash(key), t.n, t.p);
  }

  /** Insert one record into the chain that its key belongs to. */
  function Place<K, V>(cfg: Config<K>, t: Table<K, V>, r: (K, V)): (t': Table<K, V>)
    requires Shape(cfg, t)
    ensures Shape(cfg, t')
  {
    ChainForInRange(cfg, t, r.0);
    var c := ChainFor(cfg, t, r.0);
    InsertChainShape(cfg.capacity, t.chains[c], r);
    t.(chains := t.chains[c := InsertChain(cfg.capacity, t.chains[c], r)])
  }

  /** Re-insert the first `m` records of a bucket, in order. */
  function PlaceRecords<K, V>(cfg: Config<K>, t: Table<K, V>, rs: Bucket<K, V>, m: nat): (t': Table<K, V>)
    requires Shape(cfg, t) && m <= |rs|
    ensures Shape(cfg, t')
  {
    if m == 0 then t else Place(cfg, PlaceRecords(cfg, t, rs, m - 1), rs[m - 1])
  }

  /** Re-insert the records of the first `m` buckets of a chain, in order. */
  function PlaceBuckets<K, V>(cfg: Config<K>, t: Table<K, V>, chain: Chain<K, V>, m: nat): (t': Table<K, V>)
    requires Shape(cfg, t) && m <= |chain|
    ensures Shape(cfg, t')
  {
    if m == 0 then t else
      PlaceRecords(cfg, PlaceBuckets(cfg, t, chain, m - 1), chain[m - 1], |chain[m - 1]|)
  }

  /** `split` and the move of the split pointer: an empty chain in place of chain `p` and another
      at the end. */
  function Opened<K, V>(cfg: Config<K>, t: Table<K, V>): (t': Table<K, V>)
    requires Shape(cfg, t)
    ensures Shape(cfg, t')
  {
    RetreatAdvance(t.n, t.p);
    var (n', p') := Advance(t.n, t.p);
    Table(n', p', t.size, t.chains[t.p := [[]]] + [[[]]])
  }

  /** One turn of the `rebalance_split` loop. */
  function SplitStep<K, V>(cfg: Config<K>, t: Table<K, V>): (t': Table<K, V>)
    requires Shape(cfg, t)
    ensures Shape(cfg, t')
  {
    PlaceBuckets(cfg, Opened(cfg, t), t.chains[t.p], |t.chains[t.p]|)
  }

  lemma {:induction false} PlaceRecordsKeeps<K, V>(cfg: Config<K>, t: Table<K, V>, rs: Bucket<K, V>, m: nat)
    requires Shape(cfg, t) && m <= |rs|
    ensures var t' := PlaceRecords(cfg, t, rs, m);
      t'.n == t.n && t'.p == t.p && t'.size == t.size && |t'.chains| == |t.chains|
  {
    if m > 0 {
      PlaceRecordsKeeps(cfg, t, rs, m - 1);
    }
  }

  lemma {:induction false} PlaceBucketsKeeps<K, V>(cfg: Config<K>, t: Table<K, V>, chain: Chain<K, V>, m: nat)
    requires Shape(cfg, t) && m <= |chain|
    ensures var t' := PlaceBuckets(cfg, t, chain, m);
      t'.n == t.n && t'.p == t.p && t'.size == t.size && |t'.chains| == |t.chains|
  {
    if m > 0 {
      PlaceBucketsKeeps(cfg, t, chain, m - 1);
      PlaceRecordsKeeps(cfg, PlaceBuckets(cfg, t, chain, m - 1), chain[m - 1], |chain[m - 1]|);
    }
  }

  /** `rebalance_split`. */
  function RebalanceSplit<K, V>(cfg: Config<K>, t: Table<K, V>): (t': Table<K, V>)
    requires Shape(cfg, t)
    ensures Shape(cfg, t')
    decreases 20 * t.size - 19 * Room(cfg.capacity, |t.chains|)
  {
    if Overloaded(cfg.capacity, t.size, |t.chains|) then
      PlaceBucketsKeeps(cfg, Opened(cfg, t), t.chains[t.p], |t.chains[t.p]|);
      RebalanceSplit(cfg, SplitStep(cfg, t))
    else t
  }

  /** `shrink` and the move of the split pointer back. */
  function Closed<K, V>(cfg: Config<K>, t: Table<K, V>): (t': Table<K, V>)
    requires Shape(cfg, t) && |t.chains| > 1
    ensures Shape(cfg, t')
  {
    AdvanceRetreat(t.n, t.p);
    var (n', p') := Retreat(t.n, t.p);
    Table(n', p', t.size, t.chains[..|t.chains| - 1])
  }

  /** One turn of the `rebalance_merge` loop. */
  function MergeStep<K, V>(cfg: Config<K>, t: Table<K, V>): (t': Table<K, V>)
    requires Shape(cfg, t) && |t.chains| > 1
    ensures Shape(cfg, t')
  {
    var last := t.chains[|t.chains| - 1];
    PlaceBuckets(cfg, Closed(cfg, t), last, |last|)
  }

  /** `rebalance_merge`. */
  function RebalanceMerge<K, V>(cfg: Config<K>, t: Table<K, V>): (t': Table<K, V>)
    requires Shape(cfg, t) && cfg.minCount > 0
    ensures Shape(cfg, t')
    decreases |t.chains|
  {
    if |t.chains| > cfg.minCount && Underloaded(cfg.capacity, t.size, |t.chains|) then
      var last := t.chains[|t.chains| - 1];
      PlaceBucketsKeeps(cfg, Closed(cfg, t), last, |last|);
      RebalanceMerge(cfg, MergeStep(cfg, t))
    else t
  }

  /** The chain that the last turn of the `rebalance_merge` loop takes out; `before` if there is no turn. */
  function LastMerged<K, V>(cfg: Config<K>, t: Table<K, V>, before: Chain<K, V>): Chain<K, V>
    requires Shape(cfg, t) && cfg.minCount > 0
    decreases |t.chains|
  {
    if |t.chains| > cfg.minCount && Underloaded(cfg.capacity, t.size, |t.chains|) then
      var last := t.chains[|t.chains| - 1];
      PlaceBucketsKeeps(cfg, Closed(cfg, t), last, |last|);
      LastMerged(cfg, MergeStep(cfg, t), last)
    else before
  }

  /** The first record of the primary bucket that the cleanup filter accepts. */
  function FirstAccepted<K, V>(bucket: Bucket<K, V>, filter: (K, V) -> bool): (r: Option<nat>)
    ensures r.Some? ==> r.value < |bucket| && filter(bucket[r.value].0, bucket[r.value].1)
    ensures r.Some? ==> forall i | 0 <= i < r.value :: !filter(bucket[i].0, bucket[i].1)
    ensures r.None? ==> forall i | 0 <= i < |bucket| :: !filter(bucket[i].0, bucket[i].1)
  {
    if bucket == [] then None
    else if filter(bucket[0].0, bucket[0].1) then Some(0)
    else
      assert forall i | 1 <= i < |bucket| :: bucket[i] == bucket[1..][i - 1];
      match FirstAccepted(bucket[1..], filter)
      case None => None
      case Some(i) => Some(i + 1)
  }

  /** `find` and `contains`. */
  function Find<K(==), V>(cfg: Config<K>, t: Table<K, V>, key: K): Option<V>
    requires Shape(cfg, t)
  {
    ChainForInRange(cfg, t, key);
    var chain: Chain<K, V> := t.chains[ChainFor(cfg, t, key)];
    match FindInChain(chain, key)
    case None => None
    case Some(at) => Some(chain[at.0][at.1].1)
  }

  function Cleanable<K, V>(cfg: Config<K>, t: Table<K, V>, key: K, filter: (K, V) -> bool): Option<nat>
    requires Shape(cfg, t)
  {
    ChainForInRange(cfg, t, key);
    FirstAccepted(t.chains[ChainFor(cfg, t, key)][0], filter)
  }

  /** The table when a record accepted by the filter, if any, has been dropped from the primary
      bucket of the key's chain. */
  function Cleaned<K, V>(cfg: Config<K>, t: Table<K, V>, key: K, filter: (K, V) -> bool): (t': Table<K, V>)
    requires Shape(cfg, t)
    ensures Shape(cfg, t')
  {
    ChainForInRange(cfg, t, key);
    var c := ChainFor(cfg, t, key);
    match Cleanable(cfg, t, key, filter)
    case None => t
    case Some(i) => t.(chains := t.chains[c := t.chains[c][0 := Without(t.chains[c][0], i)]])
  }

  /** The table with the new record in place, before rebalancing. */
  function Inserted<K, V>(cfg: Config<K>, t: Table<K, V>, key: K, value: V, filter: (K, V) -> bool): (t': Table<K, V>)
    requires Shape(cfg, t)
    ensures Shape(cfg, t')
  {
    var placed := Place(cfg, Cleaned(cfg, t, key, filter), (key, value));
    if Cleanable(cfg, t, key, filter).Some? then placed else placed.(size := placed.size + 1)
  }

  /** `insert`; the flag says whether the key was new. */
  function Insert<K(==), V>(cfg: Config<K>, t: Table<K, V>, key: K, value: V, filter: (K, V) -> bool)
    : (r: (Table<K, V>, bool))
    requires Shape(cfg, t)
    ensures Shape(cfg, r.0)
  {
    if Find(cfg, t, key).Some? then (t, false)
    else if Cleanable(cfg, t, key, filter).Some? then (Inserted(cfg, t, key, value, filter), true)
    else (RebalanceSplit(cfg, Inserted(cfg, t, key, value, filter)), true)
  }

  /** The table without the record of `key`, before rebalancing. */
  function Erased<K(==), V>(cfg: Config<K>, t: Table<K, V>, key: K): (t': Table<K, V>)
    requires Shape(cfg, t) && Find(cfg, t, key).Some? && t.size > 0
    ensures Shape(cfg, t')
  {
    ChainForInRange(cfg, t, key);
    var c := ChainFor(cfg, t, key);
    var (j, i) := FindInChain(t.chains[c], key).value;
    t.(size := t.size - 1, chains := t.chains[c := t.chains[c][j := Without(t.chains[c][j], i)]])
  }

  /** `remove`; the result is the removed value. */
  function Remove<K(==), V>(cfg: Config<K>, t: Table<K, V>, key: K): (r: (Table<K, V>, Option<V>))
    requires Shape(cfg, t) && cfg.minCount > 0 && (Find(cfg, t, key).Some? ==> t.size > 0)
    ensures Shape(cfg, r.0)
  {
    var found := Find(cfg, t, key);
    if found.None? then (t, None) else (RebalanceMerge(cfg, Erased(cfg, t, key)), found)
  }
}
