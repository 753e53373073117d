/** The operations of `TableModel` one step at a time, and which removal empties the chain that is then merged
    away. */
module TableSteps {
  import opened Options
  import opened TableModel
  import opened TableMap
  import opened TableKeys

  lemma FoundFirst<K, V>(chain: Chain<K, V>, key: K)
    requires FindInBucket(FirstBucket(chain), key).Some?
    ensures FindInChain(chain, key).Some? && FindInChain(chain, key).value.0 == 0 && chain != []
  {
  }

  /** A chain without records. */
  predicate Bare<K, V>(chain: Chain<K, V>) {
    forall j | 0 <= j < |chain| :: chain[j] == []
  }

  lemma BareMore<K, V>(chain: Chain<K, V>, m: nat)
    requires m < |chain|
    ensures !Bare(chain[..m + 1]) ==> !Bare(chain[..m]) || chain[m] != []
  {
    if Bare(chain[..m]) && chain[m] == [] {
      var more := chain[..m + 1];
      forall j | 0 <= j < |more|
        ensures more[j] == []
      {
        assert j < m ==> chain[..m][j] == [];
      }
    }
  }

  lemma BareAt<K, V>(chain: Chain<K, V>, m: nat)
    requires Bare(chain) && m < |chain|
    ensures chain[m] == []
  {
  }

  lemma BareNone<K, V>(chain: Chain<K, V>)
    ensures Bare(chain[..0])
  {
  }

  lemma ErasedShape<K, V>(cfg: Config<K>, t: Table<K, V>, c: nat, j: nat, i: nat)
    requires Shape(cfg, t) && c < |t.chains| && j < |t.chains[c]| && i < |t.chains[c][j]|
    ensures Shape(cfg, t.(chains := t.chains[c := t.chains[c][j := Without(t.chains[c][j], i)]]))
  {
  }

  lemma FindIs<K, V>(cfg: Config<K>, t: Table<K, V>, key: K)
    requires Shape(cfg, t)
    ensures t.n > 0 && ChainFor(cfg, t, key) < |t.chains|
    ensures var chain: Chain<K, V> := t.chains[ChainFor(cfg, t, key)];
      && (Find(cfg, t, key).Some? <==> FindInChain(chain, key).Some?)
      && (FindInChain(chain, key).Some? ==>
            var at := FindInChain(chain, key).value;
            at.0 < |chain| && at.1 < |chain[at.0]| && Find(cfg, t, key).value == chain[at.0][at.1].1)
  {
    ChainForInRange(cfg, t, key);
  }

  lemma CleanedIs<K, V>(cfg: Config<K>, t: Table<K, V>, key: K, filter: (K, V) -> bool)
    requires Shape(cfg, t)
    ensures t.n > 0 && ChainFor(cfg, t, key) < |t.chains| && t.chains[ChainFor(cfg, t, key)] != []
    ensures var c := ChainFor(cfg, t, key);
      && Cleanable(cfg, t, key, filter) == FirstAccepted(t.chains[c][0], filter)
      && (FirstAccepted(t.chains[c][0], filter).None? ==> Cleaned(cfg, t, key, filter) == t)
      && (FirstAccepted(t.chains[c][0], filter).Some? ==>
            Cleaned(cfg, t, key, filter)
            == t.(chains := t.chains[c := t.chains[c][0 := Without(t.chains[c][0], FirstAccepted(t.chains[c][0], filter).value)]]))
  {
    ChainForInRange(cfg, t, key);
  }

  lemma InsertIs<K, V>(cfg: Config<K>, t: Table<K, V>, key: K, value: V, filter: (K, V) -> bool)
    requires Shape(cfg, t)
    ensures
      var cleaned := Cleaned(cfg, t, key, filter);
      var c := ChainFor(cfg, t, key);
      && c < |cleaned.chains| && cleaned.n == t.n && cleaned.p == t.p && cleaned.size == t.size
      && var placed := cleaned.(chains := cleaned.chains[c := InsertChain(cfg.capacity, cleaned.chains[c], (key, value))]);
         Inserted(cfg, t, key, value, filter)
         == if Cleanable(cfg, t, key, filter).Some? then placed else placed.(size := t.size + 1)
    ensures Shape(cfg, Inserted(cfg, t, key, value, filter))
  {
    ChainForInRange(cfg, t, key);
  }

  lemma InsertCases<K, V>(cfg: Config<K>, t: Table<K, V>, key: K, value: V, filter: (K, V) -> bool)
    requires Shape(cfg, t)
    ensures TableModel.Insert(cfg, t, key, value, filter)
         == if Find(cfg, t, key).Some? then (t, false)
            else if Cleanable(cfg, t, key, filter).Some? then (Inserted(cfg, t, key, value, filter), true)
            else (TableModel.RebalanceSplit(cfg, Inserted(cfg, t, key, value, filter)), true)
  {
  }

  lemma RemoveCases<K, V>(cfg: Config<K>, t: Table<K, V>, key: K)
    requires Shape(cfg, t) && cfg.minCount > 0 && (Find(cfg, t, key).Some? ==> t.size > 0)
    ensures TableModel.Remove(cfg, t, key)
         == if Find(cfg, t, key).None? then (t, None)
            else (TableModel.RebalanceMerge(cfg, Erased(cfg, t, key)), Find(cfg, t, key))
  {
  }

  /** The record of `key` is the only one of the last chain. */
  predicate Lonely<K(==), V>(cfg: Config<K>, t: Table<K, V>, key: K) {
    && Shape(cfg, t) && Find(cfg, t, key).Some? && t.size > 0
    && ChainFor(cfg, t, key) == |t.chains| - 1
    && Bare(Erased(cfg, t, key).chains[|t.chains| - 1])
  }

  lemma LonelyIs<K, V>(cfg: Config<K>, t: Table<K, V>, key: K)
    requires Shape(cfg, t)
    ensures Lonely(cfg, t, key) ==>
      && Find(cfg, t, key).Some? && t.size > 0
      && ChainFor(cfg, t, key) == |t.chains| - 1 == |Erased(cfg, t, key).chains| - 1
      && Bare(Erased(cfg, t, key).chains[|t.chains| - 1])
    ensures Find(cfg, t, key).Some? && t.size > 0 && ChainFor(cfg, t, key) == |t.chains| - 1 && !Lonely(cfg, t, key) ==>
      !Bare(Erased(cfg, t, key).chains[|t.chains| - 1])
  {
  }

  /** The chain that the last merge of a removal takes out; empty if there is none. */
  function LastDrained<K(==), V>(cfg: Config<K>, t: Table<K, V>, key: K): Chain<K, V> {
    if Shape(cfg, t) && cfg.minCount > 0 && Find(cfg, t, key).Some? && t.size > 0
    then TableModel.LastMerged(cfg, Erased(cfg, t, key), []) else []
  }

  lemma LastDrainedIs<K, V>(cfg: Config<K>, t: Table<K, V>, key: K)
    requires Shape(cfg, t) && cfg.minCount > 0
    ensures if Find(cfg, t, key).Some? && t.size > 0
            then LastDrained(cfg, t, key) == TableModel.LastMerged(cfg, Erased(cfg, t, key), [])
              && (!Bare(LastDrained(cfg, t, key)) ==> |TableModel.RebalanceMerge(cfg, Erased(cfg, t, key)).chains| < |t.chains|)
            else Bare(LastDrained(cfg, t, key))
  {
    if Find(cfg, t, key).Some? && t.size > 0 {
      ErasedIs(cfg, t, key);
      MergeShrinks(cfg, Erased(cfg, t, key));
    }
  }

  lemma MergeShrinks<K, V>(cfg: Config<K>, t: Table<K, V>)
    requires Shape(cfg, t) && cfg.minCount > 0
    ensures if |t.chains| > cfg.minCount && Underloaded(cfg.capacity, t.size, |t.chains|)
            then |TableModel.RebalanceMerge(cfg, t).chains| < |t.chains| else TableModel.LastMerged(cfg, t, []) == []
    decreases |t.chains|
  {
    if |t.chains| > cfg.minCount && Underloaded(cfg.capacity, t.size, |t.chains|) {
      MergeStepSize(cfg, t);
      MergeShrinks(cfg, MergeStep(cfg, t));
    }
  }

  lemma ErasedIs<K, V>(cfg: Config<K>, t: Table<K, V>, key: K)
    requires Shape(cfg, t)
    ensures t.n > 0 && ChainFor(cfg, t, key) < |t.chains|
    ensures Find(cfg, t, key).Some? && t.size > 0 ==>
      var c := ChainFor(cfg, t, key);
      FindInChain(t.chains[c], key).Some? &&
      var at := FindInChain(t.chains[c], key).value;
      && at.0 < |t.chains[c]| && at.1 < |t.chains[c][at.0]|
      && Find(cfg, t, key).value == t.chains[c][at.0][at.1].1
      && Erased(cfg, t, key)
         == t.(size := t.size - 1, chains := t.chains[c := t.chains[c][at.0 := Without(t.chains[c][at.0], at.1)]])
      && Shape(cfg, Erased(cfg, t, key))
  {
    ChainForInRange(cfg, t, key);
  }

  lemma SplitStepIs<K, V>(cfg: Config<K>, t: Table<K, V>)
    requires Shape(cfg, t)
    ensures t.p < |t.chains|
    ensures SplitStep(cfg, t) == PlaceBuckets(cfg, TableModel.Opened(cfg, t), t.chains[t.p], |t.chains[t.p]|)
  {
  }

  lemma MergeStepIs<K, V>(cfg: Config<K>, t: Table<K, V>)
    requires Shape(cfg, t) && |t.chains| > 1
    ensures var last := t.chains[|t.chains| - 1]; MergeStep(cfg, t) == PlaceBuckets(cfg, TableModel.Closed(cfg, t), last, |last|)
  {
  }

  lemma SplitStepSize<K, V>(cfg: Config<K>, t: Table<K, V>)
    requires Shape(cfg, t)
    ensures SplitStep(cfg, t).size == t.size && |SplitStep(cfg, t).chains| == |t.chains| + 1
    ensures Room(cfg.capacity, |t.chains| + 1) == Room(cfg.capacity, |t.chains|) + cfg.capacity && cfg.capacity > 0
    ensures Overloaded(cfg.capacity, t.size, |t.chains|) ==>
              TableModel.RebalanceSplit(cfg, t) == TableModel.RebalanceSplit(cfg, SplitStep(cfg, t))
  {
    PlaceBucketsKeeps(cfg, TableModel.Opened(cfg, t), t.chains[t.p], |t.chains[t.p]|);
  }

  lemma MergeStepSize<K, V>(cfg: Config<K>, t: Table<K, V>)
    requires Shape(cfg, t) && |t.chains| > 1 && cfg.minCount > 0
    ensures MergeStep(cfg, t).size == t.size && |MergeStep(cfg, t).chains| == |t.chains| - 1
    ensures |t.chains| > cfg.minCount && Underloaded(cfg.capacity, t.size, |t.chains|) ==>
              TableModel.RebalanceMerge(cfg, t) == TableModel.RebalanceMerge(cfg, MergeStep(cfg, t))
  {
    var last := t.chains[|t.chains| - 1];
    PlaceBucketsKeeps(cfg, TableModel.Closed(cfg, t), last, |last|);
  }

  lemma LastMergedStep<K, V>(cfg: Config<K>, t: Table<K, V>, before: Chain<K, V>)
    requires Shape(cfg, t) && cfg.minCount > 0
    ensures TableModel.LastMerged(cfg, t, before)
         == if |t.chains| > cfg.minCount && Underloaded(cfg.capacity, t.size, |t.chains|)
            then TableModel.LastMerged(cfg, MergeStep(cfg, t), t.chains[|t.chains| - 1]) else before
  {
    hide MergeStep;
  }

  lemma ClosedShape<K, V>(cfg: Config<K>, t: Table<K, V>)
    requires Shape(cfg, t) && |t.chains| > 1
    ensures TableModel.Closed(cfg, t)
         == var (n', p') := Retreat(t.n, t.p); TableModel.Table(n', p', t.size, t.chains[..|t.chains| - 1])
    ensures Shape(cfg, TableModel.Closed(cfg, t))
  {
  }

  lemma OpenedShape<K, V>(cfg: Config<K>, t: Table<K, V>)
    requires Shape(cfg, t)
    ensures TableModel.Opened(cfg, t)
         == var (n', p') := Advance(t.n, t.p); TableModel.Table(n', p', t.size, t.chains[t.p := [[]]] + [[[]]])
    ensures Shape(cfg, TableModel.Opened(cfg, t))
  {
  }

  lemma ShapePositive<K, V>(cfg: Config<K>, t: Table<K, V>)
    requires Shape(cfg, t)
    ensures t.n > 0 && cfg.capacity > 0 && |t.chains| == t.n + t.p && t.p < t.n
  {
  }

  lemma PlaceNone<K, V>(cfg: Config<K>, t: Table<K, V>, rs: Bucket<K, V>)
    requires Shape(cfg, t)
    ensures PlaceRecords(cfg, t, rs, 0) == t
  {
  }

  lemma PlaceMore<K, V>(cfg: Config<K>, t: Table<K, V>, rs: Bucket<K, V>, m: nat)
    requires Shape(cfg, t) && m < |rs|
    ensures var t' := PlaceRecords(cfg, t, rs, m);
      && t'.n > 0
      && var c := Address(cfg.hash(rs[m].0), t'.n, t'.p);
      && c < |t'.chains|
      && PlaceRecords(cfg, t, rs, m + 1) == t'.(chains := t'.chains[c := InsertChain(cfg.capacity, t'.chains[c], rs[m])])
  {
    hide Address;
    var t' := PlaceRecords(cfg, t, rs, m);
    ChainForInRange(cfg, t', rs[m].0);
  }

  lemma PlaceOneMore<K, V>(cfg: Config<K>, t: Table<K, V>, chain: Chain<K, V>, m: nat)
    requires Shape(cfg, t) && m < |chain|
    ensures PlaceBuckets(cfg, t, chain, m + 1) == PlaceRecords(cfg, PlaceBuckets(cfg, t, chain, m), chain[m], |chain[m]|)
  {
  }

  lemma PlaceNothing<K, V>(cfg: Config<K>, t: Table<K, V>, chain: Chain<K, V>)
    requires Shape(cfg, t)
    ensures PlaceBuckets(cfg, t, chain, 0) == t
  {
  }

  lemma {:induction false} FindAt<K, V>(chain: Chain<K, V>, j: nat, key: K)
    requires j <= |chain| && forall k | 0 <= k < j :: FindInBucket(chain[k], key) == None
    requires j < |chain| ==> FindInBucket(chain[j], key).Some?
    ensures FindInChain(chain, key)
         == if j < |chain| then Some((j, FindInBucket(chain[j], key).value)) else None
  {
    if j > 0 {
      FindAt(chain[1..], j - 1, key);
    }
  }
}
