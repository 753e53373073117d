/** How many chains a table has: the load factors 0.95 and 0.75, which `rebalance_split` and
    `rebalance_merge` compare the load with. */
module LoadFactors {
  import opened Options
  import opened TableModel
  import opened TableMap

  /** The load of `size` records in `count` chains is above 0.95. */
  predicate Above(capacity: nat, size: nat, count: nat) {
    20 * size > 19 * (capacity * count)
  }

  /** It is below 0.75. */
  predicate Below(capacity: nat, size: nat, count: nat) {
    4 * size < 3 * (capacity * count)
  }

  lemma GuardsAre(capacity: nat, size: nat, count: nat)
    ensures Overloaded(capacity, size, count) <==> Above(capacity, size, count)
    ensures Underloaded(capacity, size, count) <==> Below(capacity, size, count)
  {
    RoomIsProduct(capacity, count);
  }

  /** Splitting goes on to the least number of chains that the load is not above 0.95 with. */
  lemma {:induction false} SplitsToLeast<K, V>(cfg: Config<K>, t: Table<K, V>)
    requires WellFormed(cfg, t)
    ensures var t' := RebalanceSplit(cfg, t);
      && |t'.chains| >= |t.chains| && t'.size == t.size && !Above(cfg.capacity, t.size, |t'.chains|)
      && forall count | |t.chains| <= count < |t'.chains| :: Above(cfg.capacity, t.size, count)
    decreases 20 * t.size - 19 * Room(cfg.capacity, |t.chains|)
  {
    hide SplitStep, WellFormed, Shape, Overloaded, Above;
    ShapeOf(cfg, t);
    GuardsAre(cfg.capacity, t.size, |t.chains|);
    if Overloaded(cfg.capacity, t.size, |t.chains|) {
      SplitWellFormed(cfg, t);
      SplitIsCloser(cfg.capacity, t.size, |t.chains|);
      SplitsToLeast(cfg, SplitStep(cfg, t));
    }
  }

  lemma SplitIsCloser(capacity: nat, size: nat, count: nat)
    requires capacity > 0 && Overloaded(capacity, size, count)
    ensures 0 <= 20 * size - 19 * Room(capacity, count + 1) + 19 * capacity
    ensures 20 * size - 19 * Room(capacity, count + 1) < 20 * size - 19 * Room(capacity, count)
    ensures 20 * size - 19 * Room(capacity, count) >= 0
  {
  }

  /** Merging goes on to the greatest number of chains that the load is not below 0.75 with, or the minimum. */
  lemma {:induction false} MergesToGreatest<K, V>(cfg: Config<K>, t: Table<K, V>)
    requires WellFormed(cfg, t)
    ensures cfg.minCount > 0
    ensures var t' := RebalanceMerge(cfg, t);
      && cfg.minCount <= |t'.chains| <= |t.chains| && t'.size == t.size
      && (|t'.chains| == cfg.minCount || !Below(cfg.capacity, t.size, |t'.chains|))
      && forall count | |t'.chains| < count <= |t.chains| :: Below(cfg.capacity, t.size, count)
    decreases |t.chains|
  {
    hide MergeStep, WellFormed, Shape, Underloaded, Below;
    ShapeOf(cfg, t);
    GuardsAre(cfg.capacity, t.size, |t.chains|);
    if |t.chains| > cfg.minCount && Underloaded(cfg.capacity, t.size, |t.chains|) {
      MergeWellFormed(cfg, t);
      MergesToGreatest(cfg, MergeStep(cfg, t));
    }
  }

  /** An insertion that adds a record splits exactly while the load is above 0.95; with buckets of two or
      more, from a table in its band, that is one split or none. */
  lemma InsertSplits<K, V>(cfg: Config<K>, t: Table<K, V>, key: K, value: V, filter: (K, V) -> bool)
    requires WellFormed(cfg, t)
    ensures
      var (t', inserted) := Insert(cfg, t, key, value, filter);
      var adds := inserted && Dropped(cfg, t, key, filter).None?;
      && t'.size == t.size + (if adds then 1 else 0)
      && (!adds ==> |t'.chains| == |t.chains|)
      && (adds ==>
            && |t'.chains| >= |t.chains| && 20 * t'.size <= 19 * (cfg.capacity * |t'.chains|)
            && forall count | |t.chains| <= count < |t'.chains| :: Above(cfg.capacity, t'.size, count))
      && (adds && InBand(cfg, t) && cfg.minCount >= 4 && cfg.capacity >= 2 ==>
            |t'.chains| == |t.chains| + (if 20 * (t.size + 1) > 19 * (cfg.capacity * |t.chains|) then 1 else 0))
  {
    hide WellFormed, Inserted, Find, Cleanable, RebalanceSplit, Shape, InBand, Cleanup;
    ShapeOf(cfg, t);
    if Find(cfg, t, key).None? {
      InsertedWellFormed(cfg, t, key, value, filter);
      if Cleanable(cfg, t, key, filter).None? {
        SplitsToLeast(cfg, Inserted(cfg, t, key, value, filter));
        if InBand(cfg, t) && cfg.minCount >= 4 && cfg.capacity >= 2 {
          InsertKeepsBand(cfg, t, key, value, filter);
          var t' := Insert(cfg, t, key, value, filter).0;
          assert |t'.chains| > |t.chains| ==> Above(cfg.capacity, t'.size, |t.chains|);
        }
      }
    }
  }

  /** A removal merges exactly while the load is below 0.75 and there are more chains than the minimum; with
      buckets of two or more, from a table in its band, that is one merge or none. */
  lemma RemoveMerges<K, V>(cfg: Config<K>, t: Table<K, V>, key: K)
    requires WellFormed(cfg, t)
    ensures cfg.minCount > 0 && (Find(cfg, t, key).Some? ==> t.size > 0)
    ensures
      var (t', removed) := Remove(cfg, t, key);
      && (removed.None? ==> t' == t)
      && (removed.Some? ==>
            && t'.size == t.size - 1 && cfg.minCount <= |t'.chains| <= |t.chains|
            && (|t'.chains| == cfg.minCount || 4 * t'.size >= 3 * (cfg.capacity * |t'.chains|))
            && forall count | |t'.chains| < count <= |t.chains| :: Below(cfg.capacity, t'.size, count))
      && (removed.Some? && InBand(cfg, t) && cfg.minCount >= 4 && cfg.capacity >= 2 ==>
            |t'.chains| == |t.chains| - (if |t.chains| > cfg.minCount && 4 * (t.size - 1) < 3 * (cfg.capacity * |t.chains|) then 1 else 0))
  {
    hide WellFormed, Erased, Find, RebalanceMerge, Shape, InBand;
    ShapeOf(cfg, t);
    if Find(cfg, t, key).Some? {
      ErasedWellFormed(cfg, t, key);
      MergesToGreatest(cfg, Erased(cfg, t, key));
      if InBand(cfg, t) && cfg.minCount >= 4 && cfg.capacity >= 2 {
        RemoveKeepsBand(cfg, t, key);
        var t' := Remove(cfg, t, key).0;
        assert |t'.chains| < |t.chains| ==> Below(cfg.capacity, t'.size, |t.chains|);
      }
    }
  }
}
