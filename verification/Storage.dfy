/** Storages of records that expire, and the layers of storages behind one virtual node. */
module Storage {
  import opened Buffers
  import opened Options
  import opened TableModel
  import opened TableMap
  import opened CacheModel
  import opened BucketManager
  import opened LinearHashing
  import opened KeysRange
  import opened TableKeys

  datatype Value = Value(valueType: Byte, raw: seq<Byte>)

  datatype Record = Record(value: Value, created: int, expiration: int)

  /** The system clock: it never runs backwards. */
  class Clock {
    var now: int

    constructor () {
      now := 0;
    }

    method Read() returns (t: int)
      modifies this
      ensures t == now && now >= old(now)
    {
      var d :| d >= 0;
      now := now + d;
      t := now;
    }
  }

  /** What a storage with records `m` shows for key `k` at time `t`. */
  function Live(m: map<string, Record>, k: string, t: int): Option<Record> {
    if k in m && m[k].expiration >= t then Some(m[k]) else None
  }

  /** The filter of the range query. */
  function LiveAt(t: int): (string, Record) -> bool {
    (k: string, r: Record) => r.expiration >= t
  }

  /** The cleanup filter of an insertion. */
  function ExpiredAt(t: int): (string, Record) -> bool {
    (k: string, r: Record) => r.expiration < t
  }

  class LinearHashStorage {
    const values: LinearHashingTable<string, Record>
    ghost var records: map<string, Record>
    ghost var Repr: set<object>

    ghost predicate Valid()
      reads this, Repr
    {
      && Repr == {this, values, values.manager, values.manager.status}
      && values.Valid() && records == Contents(values.Table())
    }

    constructor (bucketCapacity: nat, minBucketsCount: nat, hash: string -> nat, cacheSize: nat)
      requires bucketCapacity > 0 && IsPow2(minBucketsCount)
      ensures Valid() && records == map[] && fresh(Repr)
    {
      hide LinearHashingTable.Valid, LinearHashingTable.Table, Contents, Empty, WellFormed, IsPow2, InBand, FileBucketManager.Durable;
      values := new LinearHashingTable<string, Record>(Config(bucketCapacity, minBucketsCount, hash), cacheSize);
      new;
      EmptyWellFormed<string, Record>(values.cfg);
      records := Contents(values.Table());
      Repr := {this, values, values.manager, values.manager.status};
    }

    method GetValue(key: string, clock: Clock) returns (r: Option<Value>)
      requires Valid() && clock !in Repr
      modifies Repr, clock
      ensures Valid() && Repr == old(Repr) && records == old(records) && clock.now >= old(clock.now)
      ensures values.Table() == old(values.Table())
      ensures r == match Live(records, key, clock.now) case Some(x) => Some(x.value) case None => None
    {
      hide LinearHashingTable.Valid, LinearHashingTable.Table, WellFormed, Shape, Unique, Contents;
      var record := values.Lookup(key);
      if record.None? {
        return None;
      }
      var now := clock.Read();
      if record.value.expiration < now {
        return None;
      }
      return Some(record.value.value);
    }

    /** `hasKey`: present and not expired. */
    method HasKey(key: string, clock: Clock) returns (r: bool)
      requires Valid() && clock !in Repr
      modifies Repr, clock
      ensures Valid() && Repr == old(Repr) && records == old(records) && clock.now >= old(clock.now)
      ensures values.Table() == old(values.Table())
      ensures r <==> Live(records, key, clock.now).Some?
    {
      hide LinearHashingTable.Valid, LinearHashingTable.Table, WellFormed, Shape, Unique, Contents;
      var record := values.Lookup(key);
      if record.None? {
        return false;
      }
      var now := clock.Read();
      return record.value.expiration >= now;
    }

    /** `putValue`: the key's old record goes, and then the new one takes the place of the first record of the
        primary bucket of the key's chain that has expired at time `now`, if there is one.  From now on only
        the new key is seen to change. */
    method PutValue(key: string, value: Value, expiration: int, clock: Clock) returns (ghost now: int)
      requires Valid() && clock !in Repr
      modifies Repr, clock
      ensures Valid() && Repr == old(Repr) && old(clock.now) <= now <= clock.now && values.manager.Durable()
      ensures key in records && records[key] == Record(value, clock.now, expiration)
      ensures PutSeen(old(records), records, key, records[key], clock.now)
      ensures Shape(values.cfg, TableWithout(values.cfg, old(values.Table()), key))
      ensures values.Table()
           == TableModel.Insert(values.cfg, TableWithout(values.cfg, old(values.Table()), key), key, records[key], ExpiredAt(now)).0
      ensures var bucket := HomeBucket(values.cfg, TableWithout(values.cfg, old(values.Table()), key), key);
        && ReplacesExpired(bucket, now, old(records) - {key}, records, key)
        && |records| == |old(records) - {key}| + if AnyExpired(bucket, now) then 0 else 1
    {
      hide LinearHashingTable.Valid, LinearHashingTable.Table, WellFormed, Shape, Unique, Contents, PutSeen, HomeBucket, ReplacesExpired, AnyExpired,
           TableWithout, TableModel.Insert, ExpiredAt;
      ghost var before := records;
      MakeAbsent(key);
      var nowMs := clock.Read();
      var created := clock.Read();
      InsertRecord(key, Record(value, created, expiration), nowMs);
      now := nowMs;
      PutAfterRemove(before, records, key, records[key], now, created);
    }

    /** The removal of `putValue`. */
    method MakeAbsent(key: string)
      requires Valid()
      modifies Repr
      ensures Valid() && Repr == old(Repr) && records == old(records) - {key}
      ensures values.Table() == TableWithout(values.cfg, old(values.Table()), key)
    {
      hide LinearHashingTable.Valid, LinearHashingTable.Table, LinearHashingTable.LeavesTraceOf, WellFormed, Shape, Unique, Contents,
           TableModel.Remove, Find, TableWithout, FileBucketManager.Durable, FileBucketManager.AnyDirty;
      values.HasShape();
      WithoutIs(values.cfg, values.Table(), key);
      var present := values.Lookup(key);
      if present.Some? {
        var removed := values.Remove(key);
        values.HasShape();
        records := Contents(values.Table());
      }
    }

    /** The insertion of `putValue`, which may drop one record that has expired at `now`. */
    method InsertRecord(key: string, record: Record, now: int)
      requires Valid() && key !in records
      modifies Repr
      ensures Valid() && Repr == old(Repr) && values.manager.Durable() && key in records && records[key] == record
      ensures PutSeen(old(records), records, key, record, now)
      ensures Shape(values.cfg, old(values.Table()))
      ensures values.Table() == TableModel.Insert(values.cfg, old(values.Table()), key, record, ExpiredAt(now)).0
      ensures var bucket := HomeBucket(values.cfg, old(values.Table()), key);
        && ReplacesExpired(bucket, now, old(records), records, key)
        && |records| == |old(records)| + if AnyExpired(bucket, now) then 0 else 1
    {
      hide LinearHashingTable.Valid, Contents, AfterInsert, Dropped, Cache.Ok, Shape, WellFormed, PutSeen, HomeBucket, ReplacesExpired, AnyExpired, TableModel.Insert;
      ghost var before, t := records, values.Table();
      var filter := ExpiredAt(now);
      values.HasShape();
      DroppedExpired(values, filter, key);
      DroppedIsFirst(values.cfg, t, key, filter);
      Put(key, record, filter);
      PutView(before, Dropped(values.cfg, t, key, filter), key, record, now, records);
      ExpiredGoes(HomeBucket(values.cfg, t, key), now, before, Dropped(values.cfg, t, key, filter), key, record, records);
    }

    method Put(key: string, record: Record, filter: (string, Record) -> bool)
      requires Valid() && key !in records
      modifies Repr
      ensures Valid() && Repr == old(Repr) && values.manager.Durable()
      ensures Shape(values.cfg, old(values.Table()))
      ensures values.Table() == TableModel.Insert(values.cfg, old(values.Table()), key, record, filter).0
      ensures records == AfterInsert(old(records), Dropped(values.cfg, old(values.Table()), key, filter), key, record)
    {
      hide LinearHashingTable.Valid, LinearHashingTable.Table, WellFormed, Shape, Unique, Contents, AfterInsert, Dropped, FileBucketManager.AnyDirty,
           FileBucketManager.MetadataStored, TableModel.Insert, InOverflow;
      values.HasShape();
      var inserted := values.Insert(key, record, filter);
      values.HasShape();
      records := Contents(values.Table());
    }

    /** `getSize`: every record counts, expired or not. */
    method GetSize() returns (n: nat)
      requires Valid()
      ensures n == |records| == values.Table().size
    {
      hide LinearHashingTable.Valid, LinearHashingTable.Table, WellFormed, Shape, Unique, Contents;
      n := values.Size();
    }

    /** `getKeysRange`: a slice of the live keys that lie in primary buckets, never more than the size. */
    method GetKeysRange(from: nat, count: nat, clock: Clock) returns (keys: seq<string>)
      requires Valid() && clock !in Repr
      modifies Repr, clock
      ensures Valid() && Repr == old(Repr) && records == old(records) && clock.now >= old(clock.now)
      ensures values.Table() == old(values.Table()) && keys == Take(Drop(Listed(clock.now), from), count)
      ensures |Listed(clock.now)| <= |records|
      ensures forall k | k in Listed(clock.now) :: Live(records, k, clock.now).Some?
      ensures forall k | Live(records, k, clock.now).Some? ::
        k !in Listed(clock.now) <==> InOverflow(values.Table(), LiveAt(clock.now), (k, records[k]))
    {
      hide LinearHashingTable.Valid, LinearHashingTable.Table, WellFormed, Shape, Unique, Contents, InOverflow, PrimaryKeys;
      var nowMs := clock.Read();
      values.HasShape();
      OverflowIsMissed(values.cfg, values.Table(), LiveAt(nowMs));
      FewerThanRecords(values.Table().chains, LiveAt(nowMs));
      SizeIsCount(values.cfg, values.Table());
      keys := values.GetKeysRange(from, count, LiveAt(nowMs));
    }

    /** The live keys in primary buckets, in the order of the buckets. */
    ghost function Listed(t: int): seq<string>
      reads values, values.manager
    {
      PrimaryKeys(values.Table().chains, LiveAt(t))
    }

    /** `deleteValue`: an expired record is deleted like any other. */
    method DeleteValue(key: string) returns (ok: bool)
      requires Valid()
      modifies Repr
      ensures Valid() && Repr == old(Repr) && (ok <==> key in old(records)) && records == old(records) - {key}
      ensures values.Table() == TableWithout(values.cfg, old(values.Table()), key)
    {
      hide LinearHashingTable.Valid, LinearHashingTable.Table, LinearHashingTable.LeavesTraceOf, WellFormed, Shape, Unique, Contents,
           TableModel.Remove, Find, TableWithout, FileBucketManager.Durable, FileBucketManager.AnyDirty;
      values.HasShape();
      WithoutIs(values.cfg, values.Table(), key);
      var present := values.Lookup(key);
      if present.None? {
        return false;
      }
      var removed := values.Remove(key);
      values.HasShape();
      records := Contents(values.Table());
      return true;
    }
  }

  /** What the insertion drops, the filter accepted. */
  lemma DroppedExpired(values: LinearHashingTable<string, Record>, filter: (string, Record) -> bool, key: string)
    requires values.Valid()
    ensures var d := Dropped(values.cfg, values.Table(), key, filter);
      d.Some? ==> filter(d.value.0, d.value.1) && d.value.0 in Contents(values.Table())
                  && Contents(values.Table())[d.value.0] == d.value.1
  {
    hide Contents, Dropped;
    if Dropped(values.cfg, values.Table(), key, filter).Some? {
      DroppedIsAccepted(values.cfg, values.Table(), key, filter);
    }
  }

  /** The table when the record of a key has been removed. */
  ghost function TableWithout(cfg: Config<string>, t: Table<string, Record>, key: string): Table<string, Record> {
    if Shape(cfg, t) && cfg.minCount > 0 && (Find(cfg, t, key).Some? ==> t.size > 0) then TableModel.Remove(cfg, t, key).0 else t
  }

  lemma WithoutIs(cfg: Config<string>, t: Table<string, Record>, key: string)
    requires WellFormed(cfg, t)
    ensures Shape(cfg, t) && cfg.minCount > 0 && (Find(cfg, t, key).Some? ==> t.size > 0)
    ensures TableWithout(cfg, t, key) == TableModel.Remove(cfg, t, key).0
    ensures key !in Contents(t) ==> TableWithout(cfg, t, key) == t
  {
    hide WellFormed, Find, Contents, Shape;
    ShapeOf(cfg, t);
    RemoveIsMapRemove(cfg, t, key);
    FindIsLookup(cfg, t, key);
  }

  // ---- What an insertion drops -------------------------------------------------------------

  predicate AnyExpired(bucket: Bucket<string, Record>, now: int) {
    exists r :: r in bucket && r.1.expiration < now
  }

  /** The first record of the bucket that has expired at `now`, and no other, has made room for `key`. */
  ghost predicate ReplacesExpired(bucket: Bucket<string, Record>, now: int, before: map<string, Record>, after: map<string, Record>, key: string)
  {
    && key in after
    && if AnyExpired(bucket, now)
       then exists i :: 0 <= i < |bucket| && bucket[i].1.expiration < now && (forall l | 0 <= l < i :: bucket[l].1.expiration >= now)
              && bucket[i].0 in before && after == (before - {bucket[i].0})[key := after[key]]
       else after == before[key := after[key]]
  }

  lemma ExpiredGoes(bucket: Bucket<string, Record>, now: int, before: map<string, Record>, dropped: Option<(string, Record)>,
                    key: string, record: Record, after: map<string, Record>)
    requires key !in before && after == AfterInsert(before, dropped, key, record)
    requires dropped.Some? ==> dropped.value.0 in before
    requires match dropped
      case Some(r) => exists i :: 0 <= i < |bucket| && bucket[i] == r && r.1.expiration < now
                        && forall l | 0 <= l < i :: bucket[l].1.expiration >= now
      case None => forall i | 0 <= i < |bucket| :: bucket[i].1.expiration >= now
    ensures ReplacesExpired(bucket, now, before, after, key)
    ensures |after| == |before| + if AnyExpired(bucket, now) then 0 else 1
  {
    match dropped {
      case Some(r) =>
        var i :| 0 <= i < |bucket| && bucket[i] == r && r.1.expiration < now && forall l | 0 <= l < i :: bucket[l].1.expiration >= now;
        assert bucket[i] in bucket;
        OneReplaced(before, r.0, key, record);
      case None =>
        OneMore(before, key, record);
    }
  }

  lemma OneReplaced<K, V>(m: map<K, V>, gone: K, key: K, value: V)
    requires gone in m && key !in m
    ensures |(m - {gone})[key := value]| == |m|
  {
    OneMore(m - {gone}, key, value);
    assert m.Keys == (m - {gone}).Keys + {gone};
  }

  lemma OneMore<K, V>(m: map<K, V>, key: K, value: V)
    requires key !in m
    ensures |m[key := value]| == |m| + 1
  {
    assert m[key := value].Keys == m.Keys + {key};
  }

  /** From time `now` on, only `key` is seen to change. */
  ghost predicate PutSeen(before: map<string, Record>, after: map<string, Record>, key: string, record: Record, now: int) {
    && (forall t | t >= now :: Live(after, key, t) == if record.expiration >= t then Some(record) else None)
    && (forall k, t | t >= now && k != key :: Live(after, k, t) == Live(before, k, t))
  }

  lemma PutView(before: map<string, Record>, dropped: Option<(string, Record)>,
                key: string, record: Record, now: int, after: map<string, Record>)
    requires key !in before && after == AfterInsert(before, dropped, key, record)
    requires dropped.Some? ==> dropped.value.1.expiration < now && dropped.value.0 in before && before[dropped.value.0] == dropped.value.1
    ensures PutSeen(before, after, key, record, now) && key in after && after[key] == record
  {
  }

  lemma PutAfterRemove(before: map<string, Record>, after: map<string, Record>, key: string, record: Record, now: int, later: int)
    requires PutSeen(before - {key}, after, key, record, now) && now <= later
    ensures PutSeen(before, after, key, record, later)
  {
    forall k, t | t >= later && k != key
      ensures Live(after, k, t) == Live(before, k, t)
    {
      assert Live(before - {key}, k, t) == Live(before, k, t);
    }
  }
}
