/** A removal that does not survive: after `flush` skips the metadata because the only changed bucket
    was merged away, opening the files again brings the old table back. */
module Reopening {
  import opened Options
  import opened TableModel
  import opened TableMap
  import opened TableKeys
  import opened BucketManager
  import opened SavedTables
  import opened TableSteps
  import opened LinearHashing

  /** The table with the keys below `k`, inserted in order. */
  function Filled(k: nat): (t: Table<nat, bool>)
    ensures Shape(Numbers(), t)
  {
    if k == 0 then
      EmptyWellFormed<nat, bool>(Numbers());
      Empty(Numbers())
    else Insert(Numbers(), Filled(k - 1), k - 1, true, KeepAll()).0
  }

  /** One insertion of a new key into a chain with room. */
  lemma Fill(t: Table<nat, bool>, key: nat, bucket: Bucket<nat, bool>)
    requires Shape(Numbers(), t) && t.n == 4 && t.p == 0
    requires key < 8 && t.chains[key % 4] == [bucket] && |bucket| < 2
    requires forall i | 0 <= i < |bucket| :: bucket[i].0 != key
    ensures var t' := Table(4, 0, t.size + 1, t.chains[key % 4 := [bucket + [(key, true)]]]);
      Shape(Numbers(), t') && Insert(Numbers(), t, key, true, KeepAll()) == (RebalanceSplit(Numbers(), t'), true)
  {
    hide RebalanceSplit;
    AddressIs(key, 4, 0);
    assert FindInChain([bucket], key) == None;
    InsertOne(bucket, (key, true));
  }

  lemma NoSplit(t: Table<nat, bool>)
    requires Shape(Numbers(), t) && |t.chains| == 4 && t.size <= 7
    ensures RebalanceSplit(Numbers(), t) == t
  {
    assert Room(2, 4) == 8;
  }

  /** Chain `i` of four when the keys below `k` are in. */
  function Column(i: nat, k: nat): Chain<nat, bool> {
    [if k > i + 4 then [(i, true), (i + 4, true)] else if k > i then [(i, true)] else []]
  }

  lemma ColumnGrows(k: nat)
    requires 1 <= k <= 8
    ensures Column((k - 1) % 4, k) == [Column((k - 1) % 4, k - 1)[0] + [(k - 1, true)]]
    ensures forall j | 0 <= j < 4 && j != (k - 1) % 4 :: Column(j, k) == Column(j, k - 1)
  {
    var i := (k - 1) % 4;
    if k - 1 == i {
      assert [] + [(i, true)] == [(i, true)];
    } else {
      assert k - 1 == i + 4;
      assert [(i, true)] + [(i + 4, true)] == [(i, true), (i + 4, true)];
    }
  }

  lemma {:induction false} FilledFew(k: nat)
    requires k <= 7
    ensures Filled(k) == Table(4, 0, k, [Column(0, k), Column(1, k), Column(2, k), Column(3, k)])
    ensures k > 0 ==> Insert(Numbers(), Filled(k - 1), k - 1, true, KeepAll()).1
  {
    hide Insert, Shape;
    if k == 0 {
      assert Empty<nat, bool>(Numbers()).chains == [Column(0, 0), Column(1, 0), Column(2, 0), Column(3, 0)];
    } else {
      FilledFew(k - 1);
      var t := Filled(k - 1);
      var i := (k - 1) % 4;
      Fill(t, k - 1, Column(i, k - 1)[0]);
      ColumnGrows(k);
      assert t.chains[i := Column(i, k)] == [Column(0, k), Column(1, k), Column(2, k), Column(3, k)];
      NoSplit(Table(4, 0, k, t.chains[i := Column(i, k)]));
    }
  }

  /** The eighth record makes the table split chain 0. */
  lemma FilledFull()
    ensures Filled(8) == Halves([[(0, true)]], [[(4, true)]])
    ensures Insert(Numbers(), Filled(7), 7, true, KeepAll()).1
  {
    hide Insert, RebalanceSplit, Shape, Halves;
    FilledFew(7);
    var before := Filled(7);
    Fill(before, 7, Column(3, 7)[0]);
    var t := Table(4, 0, 8, [Column(0, 8), Column(1, 8), Column(2, 8), Column(3, 8)]);
    ColumnGrows(8);
    assert before.chains[3 := Column(3, 8)] == t.chains;
    FirstSplit(t);
  }

  /** The table after the split, with chain 0 and the new chain 4 given. */
  function Halves(low: Chain<nat, bool>, high: Chain<nat, bool>): Table<nat, bool> {
    Table(4, 1, 8, [low, Column(1, 8), Column(2, 8), Column(3, 8), high])
  }

  lemma PlaceLow()
    ensures Shape(Numbers(), Halves([[]], [[]]))
    ensures Place(Numbers(), Halves([[]], [[]]), (0, true)) == Halves([[(0, true)]], [[]])
  {
    AddressIs(0, 4, 1);
    InsertOne([], (0, true));
    assert [] + [(0, true)] == [(0, true)];
    assert Halves([[]], [[]]).chains[0 := [[(0, true)]]] == Halves([[(0, true)]], [[]]).chains;
  }

  lemma PlaceHigh()
    ensures Shape(Numbers(), Halves([[(0, true)]], [[]]))
    ensures Place(Numbers(), Halves([[(0, true)]], [[]]), (4, true)) == Halves([[(0, true)]], [[(4, true)]])
  {
    AddressIs(4, 4, 1);
    InsertOne([], (4, true));
    assert [] + [(4, true)] == [(4, true)];
    assert Halves([[(0, true)]], [[]]).chains[4 := [[(4, true)]]] == Halves([[(0, true)]], [[(4, true)]]).chains;
  }

  lemma PlaceBoth()
    ensures Shape(Numbers(), Halves([[]], [[]]))
    ensures PlaceBuckets(Numbers(), Halves([[]], [[]]), [[(0, true), (4, true)]], 1) == Halves([[(0, true)]], [[(4, true)]])
  {
    hide Place, Shape;
    PlaceLow();
    PlaceHigh();
    var start, rs := Halves([[]], [[]]), [(0, true), (4, true)];
    assert PlaceRecords(Numbers(), start, rs, 0) == start;
    assert PlaceRecords(Numbers(), start, rs, 1) == Place(Numbers(), start, rs[0]);
    assert PlaceRecords(Numbers(), start, rs, 2) == Place(Numbers(), PlaceRecords(Numbers(), start, rs, 1), rs[1]);
    assert PlaceBuckets(Numbers(), start, [rs], 0) == start;
    assert PlaceBuckets(Numbers(), start, [rs], 1) == PlaceRecords(Numbers(), start, rs, 2);
  }

  lemma FirstSplit(t: Table<nat, bool>)
    requires t == Table(4, 0, 8, [Column(0, 8), Column(1, 8), Column(2, 8), Column(3, 8)])
    ensures Shape(Numbers(), t)
    ensures RebalanceSplit(Numbers(), t) == Halves([[(0, true)]], [[(4, true)]])
  {
    hide PlaceBuckets;
    PlaceBoth();
    assert TableModel.Opened(Numbers(), t) == Halves([[]], [[]]);
    assert Column(0, 8) == [[(0, true), (4, true)]];
    assert Room(2, 4) == 8 && Room(2, 5) == 10;
  }

  /** Key 4 is alone in the last chain, and without it the table merges. */
  lemma MergeFollows()
    ensures Lonely(Numbers(), Filled(8), 4) && Filled(8).size == 8 && |Filled(8).chains| == 5
    ensures Filled(8).chains[4] == [[(4, true)]] && FindInBucket(FirstBucket(Filled(8).chains[4]), 4).Some?
    ensures Remove(Numbers(), Filled(8), 4).0 == Table(4, 0, 7, Filled(8).chains[..4])
  {
    hide Insert, RebalanceMerge;
    FilledFull();
    EraseFour();
    MergeOnly(Halves([[(0, true)]], [[]]).(size := 7));
  }

  lemma EraseFour()
    ensures var t := Halves([[(0, true)]], [[(4, true)]]);
      && Shape(Numbers(), t) && Find(Numbers(), t, 4).Some? && ChainFor(Numbers(), t, 4) == 4
      && Erased(Numbers(), t, 4) == Halves([[(0, true)]], [[]]).(size := 7)
  {
    AddressIs(4, 4, 1);
    assert FindInChain([[(4, true)]], 4) == Some((0, 0));
    var bucket := [(4, true)];
    assert Without(bucket, 0) == [];
    assert [bucket][0 := Without(bucket, 0)] == [[]];
    assert Halves([[(0, true)]], [[(4, true)]]).chains[4 := [[]]] == Halves([[(0, true)]], [[]]).chains;
  }

  lemma MergeOnly(t: Table<nat, bool>)
    requires t == Halves([[(0, true)]], [[]]).(size := 7)
    ensures Shape(Numbers(), t) && RebalanceMerge(Numbers(), t) == Table(4, 0, 7, t.chains[..4])
  {
    hide PlaceBuckets;
    assert Room(2, 4) == 8 && Room(2, 5) == 10;
    DrainNothing(Closed(Numbers(), t));
    var t' := MergeStep(Numbers(), t);
    assert t' == Closed(Numbers(), t) == Table(4, 0, 7, t.chains[..4]);
    assert RebalanceMerge(Numbers(), t') == t';
  }

  lemma DrainNothing(t: Table<nat, bool>)
    requires Shape(Numbers(), t)
    ensures PlaceBuckets(Numbers(), t, [[]], 1) == t
  {
    hide Shape;
    assert PlaceBuckets(Numbers(), t, [[]], 0) == t;
    assert PlaceRecords(Numbers(), t, [], 0) == t;
  }

  lemma FilledNone()
    ensures Filled(0) == Empty(Numbers())
  {
  }

  lemma FilledMore(k: nat)
    requires k < 8
    ensures Insert(Numbers(), Filled(k), k, true, KeepAll()) == (Filled(k + 1), true)
  {
    hide Insert, Shape, Column, Halves;
    if k == 7 {
      FilledFull();
    } else {
      FilledFew(k + 1);
    }
  }

  method FillTable() returns (t: LinearHashingTable<nat, bool>)
    ensures fresh(t) && fresh(t.manager) && fresh(t.manager.status)
    ensures t.Valid() && t.cfg == Numbers() && t.Table() == Filled(8) && t.manager.AnyDirty()
  {
    hide LinearHashingTable.Valid, LinearHashingTable.Table, Insert, Empty, FileBucketManager.AnyDirty, Contents, AfterInsert, Dropped, Filled, Shape;
    FilledNone();
    t := new LinearHashingTable<nat, bool>(Numbers(), 5);
    var k := 0;
    while k < 8
      invariant k <= 8 && fresh(t) && fresh(t.manager) && fresh(t.manager.status)
      invariant t.Valid() && t.cfg == Numbers() && t.Table() == Filled(k)
      invariant k > 0 ==> t.manager.AnyDirty()
    {
      FilledMore(k);
      var inserted := t.Insert(k, true, KeepAll());
      k := k + 1;
    }
  }

  /** Eight records, closed and opened again. */
  method ReopenFilled() returns (t: LinearHashingTable<nat, bool>)
    ensures fresh(t) && fresh(t.manager) && fresh(t.manager.status)
    ensures t.Valid() && t.cfg == Numbers() && t.Table() == Filled(8) && !t.manager.AnyDirty() && t.manager.MetadataStored()
  {
    hide LinearHashingTable.Valid, LinearHashingTable.Table, Filled, FileBucketManager.AnyDirty, Loadable, SavedTable, Exact, Numbers;
    var first := FillTable();
    first.Close();
    t := new LinearHashingTable<nat, bool>.Reopen(first, 5);
    NothingDirty(t.manager);
  }

  /** Key 4 is removed from that table, and the table closed and opened again: the removal is gone, and the
      table is the one before it. */
  method RemovalComesBack() returns (t: LinearHashingTable<nat, bool>, again: LinearHashingTable<nat, bool>)
    ensures fresh(t) && fresh(again)
    ensures t.Valid() && 4 !in Contents(t.Table())
    ensures again.Valid() && again.Table() == Filled(8) && 4 in Contents(again.Table())
  {
    hide LinearHashingTable.Valid, LinearHashingTable.Table, LinearHashingTable.ComesBack, Filled, FileBucketManager.AnyDirty,
         FileBucketManager.MetadataStored, Contents, InBand, Numbers;
    t := ReopenFilled();
    FourComesBack(t);
    var value;
    value, again := t.RemoveAndReopen(4, 5);
  }

  lemma NothingDirty(m: FileBucketManager<nat, bool>)
    requires m.loaded == {}
    ensures !m.AnyDirty()
  {
  }

  lemma FourComesBack(t: LinearHashingTable<nat, bool>)
    requires t.Valid() && t.cfg == Numbers() && t.Table() == Filled(8) && !t.manager.AnyDirty()
    ensures t.ComesBack(4) && InBand(Numbers(), Filled(8)) && Numbers().capacity == 2 && Numbers().minCount == 4
  {
    hide LinearHashingTable.Valid, LinearHashingTable.Table, LinearHashingTable.LeavesTraceOf, Filled, FileBucketManager.AnyDirty, Lonely;
    MergeFollows();
    assert Room(2, 5) == 10;
    t.PrimaryLeavesNoTrace(4);
  }
}
