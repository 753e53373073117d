/** Where a split and a merge put the records, and in which order: the chains that a split opens are packed,
    and list what each of them gets in the order of the old chain. */
module SplitOrder {
  import opened Options
  import opened TableModel
  import opened TableMap

  /** The records of a chain, one bucket after the other. */
  function Flat<K, V>(chain: Chain<K, V>): Bucket<K, V> {
    if chain == [] then [] else Flat(chain[..|chain| - 1]) + chain[|chain| - 1]
  }

  /** Every bucket but the last is full. */
  predicate Packed<K, V>(capacity: nat, chain: Chain<K, V>) {
    && chain != [] && |chain[|chain| - 1]| <= capacity
    && forall j | 0 <= j < |chain| - 1 :: |chain[j]| == capacity
  }

  /** The records of `rs` whose address is chain `i`, in order. */
  function Addressed<K, V>(cfg: Config<K>, n: nat, p: nat, rs: Bucket<K, V>, i: nat): Bucket<K, V>
    requires n > 0
  {
    if rs == [] then [] else
      Addressed(cfg, n, p, rs[..|rs| - 1], i)
      + if Address(cfg.hash(rs[|rs| - 1].0), n, p) == i then [rs[|rs| - 1]] else []
  }

  lemma InsertPacked<K, V>(capacity: nat, chain: Chain<K, V>, r: (K, V))
    requires capacity > 0 && Packed(capacity, chain)
    ensures Packed(capacity, InsertChain(capacity, chain, r)) && Flat(InsertChain(capacity, chain, r)) == Flat(chain) + [r]
  {
    var n := |chain| - 1;
    var chain' := InsertChain(capacity, chain, r);
    if |chain[n]| == capacity {
      InsertAt(capacity, chain, n + 1, r);
      assert chain'[..n + 1] == chain;
    } else {
      InsertAt(capacity, chain, n, r);
      assert chain'[..n] == chain[..n];
    }
  }

  lemma {:induction false} AddressedConcat<K, V>(cfg: Config<K>, n: nat, p: nat, a: Bucket<K, V>, b: Bucket<K, V>, i: nat)
    requires n > 0
    ensures Addressed(cfg, n, p, a + b, i) == Addressed(cfg, n, p, a, i) + Addressed(cfg, n, p, b, i)
  {
    hide Address;
    if b == [] {
      assert a + b == a;
    } else {
      assert (a + b)[..|a + b| - 1] == a + b[..|b| - 1];
      AddressedConcat(cfg, n, p, a, b[..|b| - 1], i);
    }
  }

  /** `insert_internal` of one record after the other. */
  function InsertAll<K, V>(capacity: nat, chain: Chain<K, V>, rs: Bucket<K, V>): Chain<K, V> {
    if rs == [] then chain else InsertChain(capacity, InsertAll(capacity, chain, rs[..|rs| - 1]), rs[|rs| - 1])
  }

  lemma {:induction false} InsertAllConcat<K, V>(capacity: nat, chain: Chain<K, V>, a: Bucket<K, V>, b: Bucket<K, V>)
    ensures InsertAll(capacity, chain, a + b) == InsertAll(capacity, InsertAll(capacity, chain, a), b)
  {
    hide InsertChain;
    if b == [] {
      assert a + b == a;
    } else {
      assert (a + b)[..|a + b| - 1] == a + b[..|b| - 1];
      InsertAllConcat(capacity, chain, a, b[..|b| - 1]);
    }
  }

  lemma {:induction false} InsertAllPacked<K, V>(capacity: nat, chain: Chain<K, V>, rs: Bucket<K, V>)
    requires capacity > 0 && Packed(capacity, chain)
    ensures Packed(capacity, InsertAll(capacity, chain, rs)) && Flat(InsertAll(capacity, chain, rs)) == Flat(chain) + rs
  {
    hide InsertChain, Packed, Flat;
    if rs != [] {
      InsertAllPacked(capacity, chain, rs[..|rs| - 1]);
      InsertPacked(capacity, InsertAll(capacity, chain, rs[..|rs| - 1]), rs[|rs| - 1]);
      assert rs[..|rs| - 1] + [rs[|rs| - 1]] == rs;
    }
  }

  /** Placing records appends to every chain those that are addressed to it, in order. */
  lemma {:induction false} RecordsInOrder<K, V>(cfg: Config<K>, t: Table<K, V>, rs: Bucket<K, V>, m: nat, i: nat)
    requires Shape(cfg, t) && m <= |rs| && i < |t.chains|
    ensures var t' := PlaceRecords(cfg, t, rs, m);
      && t'.n == t.n > 0 && t'.p == t.p && |t'.chains| == |t.chains|
      && t'.chains[i] == InsertAll(cfg.capacity, t.chains[i], Addressed(cfg, t.n, t.p, rs[..m], i))
  {
    hide Address, InsertChain, InsertAll;
    PlaceRecordsKeeps(cfg, t, rs, m);
    ShapeIs(cfg, t);
    if m == 0 {
      InsertNone(cfg.capacity, t.chains[i]);
    } else {
      RecordsInOrder(cfg, t, rs, m - 1, i);
      assert rs[..m][..m - 1] == rs[..m - 1];
      var t1 := PlaceRecords(cfg, t, rs, m - 1);
      ChainForInRange(cfg, t1, rs[m - 1].0);
      InsertMore(cfg.capacity, t.chains[i], Addressed(cfg, t.n, t.p, rs[..m - 1], i), rs[m - 1]);
    }
  }

  lemma InsertNone<K, V>(capacity: nat, chain: Chain<K, V>)
    ensures InsertAll(capacity, chain, []) == chain
  {
  }

  lemma InsertMore<K, V>(capacity: nat, chain: Chain<K, V>, rs: Bucket<K, V>, r: (K, V))
    ensures InsertAll(capacity, chain, rs + [r]) == InsertChain(capacity, InsertAll(capacity, chain, rs), r)
    ensures rs + [] == rs
  {
    hide InsertChain;
    assert (rs + [r])[..|rs|] == rs;
  }

  lemma ShapeIs<K, V>(cfg: Config<K>, t: Table<K, V>)
    requires Shape(cfg, t)
    ensures t.n > 0 && cfg.capacity > 0
  {
  }

  lemma {:induction false} BucketsInOrder<K, V>(cfg: Config<K>, t: Table<K, V>, chain: Chain<K, V>, m: nat, i: nat)
    requires Shape(cfg, t) && m <= |chain| && i < |t.chains|
    ensures var t' := PlaceBuckets(cfg, t, chain, m);
      && t'.n == t.n > 0 && t'.p == t.p && |t'.chains| == |t.chains|
      && t'.chains[i] == InsertAll(cfg.capacity, t.chains[i], Addressed(cfg, t.n, t.p, Flat(chain[..m]), i))
  {
    hide Address, Addressed, PlaceRecords, InsertAll;
    ShapeIs(cfg, t);
    if m == 0 {
      AddressedNone<K, V>(cfg, t.n, t.p, i);
      InsertNone(cfg.capacity, t.chains[i]);
    } else {
      BucketsInOrder(cfg, t, chain, m - 1, i);
      var t1 := PlaceBuckets(cfg, t, chain, m - 1);
      RecordsInOrder(cfg, t1, chain[m - 1], |chain[m - 1]|, i);
      assert chain[..m][..m - 1] == chain[..m - 1] && chain[m - 1][..|chain[m - 1]|] == chain[m - 1];
      AddressedConcat(cfg, t.n, t.p, Flat(chain[..m - 1]), chain[m - 1], i);
      InsertAllConcat(cfg.capacity, t.chains[i], Addressed(cfg, t.n, t.p, Flat(chain[..m - 1]), i),
                      Addressed(cfg, t.n, t.p, chain[m - 1], i));
    }
  }

  lemma AddressedNone<K, V>(cfg: Config<K>, n: nat, p: nat, i: nat)
    requires n > 0
    ensures Addressed<K, V>(cfg, n, p, [], i) == []
  {
  }

  lemma {:induction false} FlatMember<K, V>(chain: Chain<K, V>, r: (K, V))
    ensures r in Flat(chain) ==> r in Recs(chain)
  {
    if chain != [] {
      var n := |chain| - 1;
      FlatMember(chain[..n], r);
      RecsMember(chain, r);
      RecsMember(chain[..n], r);
      if r in chain[n] {
        assert r in multiset(chain[n]);
      }
    }
  }

  /** If all records have the same address, that chain gets all and another one none. */
  lemma {:induction false} AllAddressed<K, V>(cfg: Config<K>, n: nat, p: nat, rs: Bucket<K, V>, i: nat, all: bool)
    requires n > 0 && forall r | r in rs :: (Address(cfg.hash(r.0), n, p) == i) == all
    ensures Addressed(cfg, n, p, rs, i) == if all then rs else []
  {
    hide Address;
    if rs != [] {
      assert rs[|rs| - 1] in rs && rs[..|rs| - 1] + [rs[|rs| - 1]] == rs;
      AllAddressed(cfg, n, p, rs[..|rs| - 1], i, all);
    }
  }

  /** A split touches chain `p` and the new one only: each is packed and lists, in order, the records of the
      old chain `p` that are addressed to it. */
  lemma SplitInOrder<K, V>(cfg: Config<K>, t: Table<K, V>, i: nat)
    requires WellFormed(cfg, t) && i <= |t.chains|
    ensures Shape(cfg, t) && |SplitStep(cfg, t).chains| == |t.chains| + 1
    ensures var t' := SplitStep(cfg, t);
      && t'.n > 0
      && (i == t.p || i == |t.chains| ==>
            Packed(cfg.capacity, t'.chains[i]) && Flat(t'.chains[i]) == Addressed(cfg, t'.n, t'.p, Flat(t.chains[t.p]), i))
      && (i != t.p && i < |t.chains| ==> t'.chains[i] == t.chains[i])
  {
    hide Address, Addressed, PlaceBuckets, Recs, All, IsPow2, InsertAll;
    ShapeOf(cfg, t);
    var chain, wide := t.chains[t.p], Opened(cfg, t);
    BucketsInOrder(cfg, wide, chain, |chain|, i);
    assert chain[..|chain|] == chain;
    if i == t.p || i == |t.chains| {
      assert Flat<K, V>([[]]) == [] by { assert Flat<K, V>([]) == []; }
      InsertAllPacked(cfg.capacity, wide.chains[i], Addressed(cfg, wide.n, wide.p, Flat(chain), i));
    } else {
      forall r | r in Flat(chain)
        ensures Address(cfg.hash(r.0), wide.n, wide.p) != i
      {
        FlatMember(chain, r);
        SplitAddress(cfg.hash(r.0), t.n, t.p);
      }
      AllAddressed(cfg, wide.n, wide.p, Flat(chain), i, false);
      InsertNone(cfg.capacity, t.chains[i]);
    }
  }

  /** A merge touches one chain only, the one that the last split had split: it gets the records of the last
      chain, in order. */
  lemma MergeInOrder<K, V>(cfg: Config<K>, t: Table<K, V>, i: nat)
    requires WellFormed(cfg, t) && |t.chains| > cfg.minCount && i < |t.chains| - 1
    ensures Shape(cfg, t) && |t.chains| > 1 && |MergeStep(cfg, t).chains| == |t.chains| - 1
    ensures MergeStep(cfg, t).chains[i]
         == if i == Retreat(t.n, t.p).1 then InsertAll(cfg.capacity, t.chains[i], Flat(t.chains[|t.chains| - 1])) else t.chains[i]
  {
    hide Address, Addressed, PlaceBuckets, Recs, All, IsPow2, InsertAll;
    ShapeOf(cfg, t);
    var last, narrow := t.chains[|t.chains| - 1], Closed(cfg, t);
    AdvanceRetreat(t.n, t.p);
    BucketsInOrder(cfg, narrow, last, |last|, i);
    assert last[..|last|] == last;
    forall r | r in Flat(last)
      ensures Address(cfg.hash(r.0), narrow.n, narrow.p) == narrow.p
    {
      FlatMember(last, r);
      SplitAddress(cfg.hash(r.0), narrow.n, narrow.p);
      AddressIs(cfg.hash(r.0), narrow.n, narrow.p);
    }
    AllAddressed(cfg, narrow.n, narrow.p, Flat(last), i, i == narrow.p);
    InsertNone(cfg.capacity, t.chains[i]);
  }
}
