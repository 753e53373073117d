/** Reading and writing through a virtual node: its storages, first one first. */
module Layers {
  import opened Options
  import opened TableModel
  import opened TableMap
  import opened LinearHashing
  import opened KeysRange
  import opened ExpiringKeys
  import opened TableKeys
  import opened Storage

  datatype Status = Ok | KeyNotFound | NodeNotFound

  type Layer = LinearHashStorage

  ghost function ReprOf(layers: seq<Layer>): set<object>
    reads layers
  {
    set s, o | s in layers && o in s.Repr :: o
  }

  /** Different storages share no state; the same one may be listed more than once. */
  ghost predicate Apart(layers: seq<Layer>)
    reads layers
  {
    forall s, w | s in layers && w in layers && s != w :: s.Repr !! w.Repr
  }

  ghost predicate Ready(layers: seq<Layer>, clock: Clock)
    reads layers, ReprOf(layers)
  {
    Apart(layers) && clock !in ReprOf(layers) && forall s | s in layers :: s in s.Repr && s.Valid()
  }

  ghost function Maps(layers: seq<Layer>): (m: seq<map<string, Record>>)
    reads layers
    ensures |m| == |layers| && forall i | 0 <= i < |layers| :: m[i] == layers[i].records
  {
    seq(|layers|, i requires 0 <= i < |layers| reads layers => layers[i].records)
  }

  /** What the node shows for key `k` at time `t`: the record of the first layer where it is live. */
  function Seen(maps: seq<map<string, Record>>, k: string, t: int): Option<Record> {
    if maps == [] then None
    else if Live(maps[0], k, t).Some? then Live(maps[0], k, t)
    else Seen(maps[1..], k, t)
  }

  lemma {:induction false} SeenAt(maps: seq<map<string, Record>>, k: string, t: int, j: nat)
    requires j <= |maps| && forall i | 0 <= i < j :: Live(maps[i], k, t) == None
    requires j < |maps| ==> Live(maps[j], k, t).Some?
    ensures Seen(maps, k, t) == if j < |maps| then Live(maps[j], k, t) else None
  {
    if j > 0 {
      SeenAt(maps[1..], k, t, j - 1);
    }
  }

  lemma {:induction false} SeenSame(a: seq<map<string, Record>>, b: seq<map<string, Record>>, k: string, t: int)
    requires |a| == |b| && forall i | 0 <= i < |a| :: Live(a[i], k, t) == Live(b[i], k, t)
    ensures Seen(a, k, t) == Seen(b, k, t)
  {
    if a != [] {
      SeenSame(a[1..], b[1..], k, t);
    }
  }

  /** `getValue`. */
  method GetValue(layers: seq<Layer>, key: string, clock: Clock) returns (status: Status, value: Option<Value>)
    requires Ready(layers, clock)
    modifies ReprOf(layers), clock
    ensures Ready(layers, clock) && ReprOf(layers) == old(ReprOf(layers))
    ensures Maps(layers) == old(Maps(layers)) && clock.now >= old(clock.now)
    ensures status == NodeNotFound <==> layers == []
    ensures match Seen(Maps(layers), key, clock.now)
            case Some(r) => status == Ok && value == Some(r.value)
            case None => status != Ok && value == None
  {
    hide Ready, ReprOf, Apart, Seen, LinearHashStorage.Valid;
    if layers == [] {
      assert Maps(layers) == [];
      SeenAt([], key, clock.now, 0);
      return NodeNotFound, None;
    }
    ghost var maps := Maps(layers);
    var i := 0;
    while i < |layers|
      invariant i <= |layers| && Ready(layers, clock) && ReprOf(layers) == old(ReprOf(layers))
      invariant Maps(layers) == maps && clock.now >= old(clock.now)
      invariant forall j | 0 <= j < i :: Live(maps[j], key, clock.now) == None
    {
      var r := GetFrom(layers, i, key, clock);
      if r.Some? {
        SeenAt(maps, key, clock.now, i);
        return Ok, r;
      }
      i := i + 1;
    }
    SeenAt(maps, key, clock.now, |maps|);
    return KeyNotFound, None;
  }

  /** One layer's answer. */
  method GetFrom(layers: seq<Layer>, i: nat, key: string, clock: Clock) returns (r: Option<Value>)
    requires Ready(layers, clock) && i < |layers|
    modifies ReprOf(layers), clock
    ensures Ready(layers, clock) && ReprOf(layers) == old(ReprOf(layers))
    ensures Maps(layers) == old(Maps(layers)) && clock.now >= old(clock.now)
    ensures r == match Live(Maps(layers)[i], key, clock.now) case Some(x) => Some(x.value) case None => None
  {
    hide LinearHashStorage.Valid;
    ghost var maps := Maps(layers);
    r := layers[i].GetValue(key, clock);
    forall j | 0 <= j < |layers|
      ensures Maps(layers)[j] == maps[j]
    {
      assert layers[j] in layers && layers[i] in layers;
    }
  }

  /** Only the storage of layer `j` has changed. */
  ghost predicate OnlyLayer(layers: seq<Layer>, j: nat, a: seq<map<string, Record>>, b: seq<map<string, Record>>) {
    && j < |layers| == |a| == |b|
    && forall i | 0 <= i < |layers| :: b[i] == if layers[i] == layers[j] then b[j] else a[i]
  }

  /** `putValue`: at some time during the call, the record goes to the first layer where the key is live, or
      else to the first layer.  Every other key looks as before from then on; the key shows the new record
      until it expires, and then what the other storages show. */
  method PutValue(layers: seq<Layer>, key: string, value: Value, expiration: int, clock: Clock)
    returns (status: Status, ghost j: nat, ghost chosen: int)
    requires Ready(layers, clock)
    modifies ReprOf(layers), clock
    ensures Ready(layers, clock) && ReprOf(layers) == old(ReprOf(layers)) && clock.now >= old(clock.now)
    ensures status == if layers == [] then NodeNotFound else Ok
    ensures forall k, t | t >= clock.now && k != key :: Seen(Maps(layers), k, t) == Seen(old(Maps(layers)), k, t)
    ensures status == Ok ==> old(clock.now) <= chosen <= clock.now && FirstLive(old(Maps(layers)), key, chosen, j)
    ensures status == Ok ==>
      && OnlyLayer(layers, j, old(Maps(layers)), Maps(layers)) && key in Maps(layers)[j]
      && Maps(layers)[j][key] == Record(value, clock.now, expiration)
    ensures status == Ok ==> forall t | t >= clock.now ::
      if t <= expiration then Seen(Maps(layers), key, t) == Some(Record(value, clock.now, expiration))
      else SeenElsewhere(layers, old(Maps(layers)), j, key, t, Seen(Maps(layers), key, t))
  {
    hide Ready, ReprOf, Apart, Seen, SeenElsewhere, LinearHashStorage.Valid, PutSeen;
    j, chosen := 0, clock.now;
    if layers == [] {
      return NodeNotFound, j, chosen;
    }
    ghost var maps := Maps(layers);
    var i := 0;
    while i < |layers|
      invariant i <= |layers| && Ready(layers, clock) && ReprOf(layers) == old(ReprOf(layers))
      invariant Maps(layers) == maps && clock.now >= old(clock.now)
      invariant forall l | 0 <= l < i :: Live(maps[l], key, clock.now) == None
    {
      var present := LiveIn(layers, i, key, clock);
      if present {
        break;
      }
      i := i + 1;
    }
    if i == |layers| {
      i := 0;
    }
    j, chosen := i, clock.now;
    PutTo(layers, i, key, value, expiration, clock);
    PutIsSeen(layers, maps, Maps(layers), i, key, Maps(layers)[i][key], chosen, clock.now);
    return Ok, j, chosen;
  }

  /** Layer `j` is the first one where the key is live at time `t`; it is the first layer if there is none. */
  ghost predicate FirstLive(maps: seq<map<string, Record>>, key: string, t: int, j: nat) {
    && j < |maps|
    && if Live(maps[j], key, t).Some? then forall i | 0 <= i < j :: Live(maps[i], key, t) == None
       else j == 0 && forall i | 0 <= i < |maps| :: Live(maps[i], key, t) == None
  }

  /** `r` is what the first of the other storages, those that are not the one of layer `j`, shows for the key. */
  ghost predicate SeenElsewhere(layers: seq<Layer>, maps: seq<map<string, Record>>, j: nat, key: string, t: int, r: Option<Record>)
    requires j < |layers| == |maps|
  {
    if NotElsewhere(layers, maps, j, key, t) then r == None else
      exists i :: 0 <= i < |layers| && layers[i] != layers[j] && Live(maps[i], key, t).Some? && r == Live(maps[i], key, t)
        && forall l | 0 <= l < i && layers[l] != layers[j] :: Live(maps[l], key, t) == None
  }

  method LiveIn(layers: seq<Layer>, i: nat, key: string, clock: Clock) returns (r: bool)
    requires Ready(layers, clock) && i < |layers|
    modifies ReprOf(layers), clock
    ensures Ready(layers, clock) && ReprOf(layers) == old(ReprOf(layers))
    ensures Maps(layers) == old(Maps(layers)) && clock.now >= old(clock.now)
    ensures r <==> Live(Maps(layers)[i], key, clock.now).Some?
  {
    hide LinearHashStorage.Valid;
    ghost var maps := Maps(layers);
    r := layers[i].HasKey(key, clock);
    forall j | 0 <= j < |layers|
      ensures Maps(layers)[j] == maps[j]
    {
      assert layers[j] in layers && layers[i] in layers;
    }
  }

  method PutTo(layers: seq<Layer>, j: nat, key: string, value: Value, expiration: int, clock: Clock)
    requires Ready(layers, clock) && j < |layers|
    modifies ReprOf(layers), clock
    ensures Ready(layers, clock) && ReprOf(layers) == old(ReprOf(layers)) && clock.now >= old(clock.now)
    ensures OnlyLayer(layers, j, old(Maps(layers)), Maps(layers))
    ensures key in Maps(layers)[j] && Maps(layers)[j][key] == Record(value, clock.now, expiration)
    ensures PutSeen(old(Maps(layers))[j], Maps(layers)[j], key, Maps(layers)[j][key], clock.now)
  {
    hide LinearHashStorage.Valid, PutSeen, ReplacesExpired, AnyExpired, TableWithout, HomeBucket, Shape, LinearHashingTable.Table,
         TableModel.Insert, ExpiredAt;
    ghost var maps := Maps(layers);
    ghost var now := layers[j].PutValue(key, value, expiration, clock);
    forall i | 0 <= i < |layers|
      ensures layers[i] != layers[j] ==> Maps(layers)[i] == maps[i]
    {
      assert layers[i] in layers && layers[j] in layers;
    }
  }

  lemma PutIsSeen(layers: seq<Layer>, a: seq<map<string, Record>>, b: seq<map<string, Record>>, j: nat,
                  key: string, record: Record, then': int, now: int)
    requires OnlyLayer(layers, j, a, b) && PutSeen(a[j], b[j], key, record, now) && then' <= now
    requires forall i, l | 0 <= i < |layers| && 0 <= l < |layers| && layers[i] == layers[l] :: a[i] == a[l]
    requires FirstLive(a, key, then', j)
    ensures forall k, t | t >= now && k != key :: Seen(b, k, t) == Seen(a, k, t)
    ensures forall t | t >= now ::
      if t <= record.expiration then Seen(b, key, t) == Some(record) else SeenElsewhere(layers, a, j, key, t, Seen(b, key, t))
  {
    hide SeenElsewhere, Seen;
    forall k, t | t >= now && k != key
      ensures Seen(b, k, t) == Seen(a, k, t)
    {
      SeenSame(b, a, k, t);
    }
    forall t | t >= now
      ensures if t <= record.expiration then Seen(b, key, t) == Some(record) else SeenElsewhere(layers, a, j, key, t, Seen(b, key, t))
    {
      if t <= record.expiration {
        forall i | 0 <= i < j
          ensures Live(b[i], key, t) == None
        {
          assert layers[i] != layers[j];
          assert Live(a[i], key, then') == None;
        }
        SeenAt(b, key, t, j);
      } else {
        assert Live(b[j], key, t) == None;
        OthersAreSeen(layers, a, b, j, key, t);
      }
    }
  }

  /** A key that one storage does not show is seen in the first of the others. */
  lemma OthersAreSeen(layers: seq<Layer>, a: seq<map<string, Record>>, b: seq<map<string, Record>>, j: nat, key: string, t: int)
    requires OnlyLayer(layers, j, a, b) && Live(b[j], key, t) == None
    ensures SeenElsewhere(layers, a, j, key, t, Seen(b, key, t))
  {
    hide Seen;
    forall i | 0 <= i < |layers|
      ensures Live(b[i], key, t) == if layers[i] == layers[j] then None else Live(a[i], key, t)
    {
    }
    SeenNone(b, key, t);
    if i :| 0 <= i < |layers| && Live(b[i], key, t).Some? {
      var n := FirstShown(b, key, t);
      SeenAt(b, key, t, n);
    }
  }

  lemma FirstShown(maps: seq<map<string, Record>>, key: string, t: int) returns (n: nat)
    requires exists i :: 0 <= i < |maps| && Live(maps[i], key, t).Some?
    ensures n < |maps| && Live(maps[n], key, t).Some? && forall i | 0 <= i < n :: Live(maps[i], key, t) == None
  {
    n := 0;
    while Live(maps[n], key, t) == None
      invariant n < |maps| && forall i | 0 <= i < n :: Live(maps[i], key, t) == None
      decreases |maps| - n
    {
      n := n + 1;
    }
  }

  /** `deleteValue`: the record goes from the first layer that holds it, expired or not.  The key is gone
      afterwards exactly when no other storage of the node shows it. */
  method DeleteValue(layers: seq<Layer>, key: string, clock: Clock) returns (status: Status, ghost j: nat)
    requires Ready(layers, clock)
    modifies ReprOf(layers)
    ensures Ready(layers, clock) && ReprOf(layers) == old(ReprOf(layers)) && clock.now == old(clock.now)
    ensures status == NodeNotFound <==> layers == []
    ensures status == Ok <==> j < |layers|
    ensures j <= |layers| && forall i | 0 <= i < j :: key !in old(Maps(layers))[i]
    ensures status != Ok ==> Maps(layers) == old(Maps(layers))
    ensures status == Ok ==>
      && key in old(Maps(layers))[j] && Maps(layers)[j] == old(Maps(layers))[j] - {key}
      && OnlyLayer(layers, j, old(Maps(layers)), Maps(layers))
      && forall t :: Seen(Maps(layers), key, t) == None <==> NotElsewhere(layers, old(Maps(layers)), j, key, t)
  {
    hide Ready, ReprOf, Apart, Seen, LinearHashStorage.Valid;
    j := 0;
    if layers == [] {
      return NodeNotFound, 0;
    }
    ghost var maps := Maps(layers);
    var i := 0;
    while i < |layers|
      invariant i <= |layers| && Ready(layers, clock) && ReprOf(layers) == old(ReprOf(layers)) && clock.now == old(clock.now)
      invariant Maps(layers) == maps && forall l | 0 <= l < i :: key !in maps[l]
    {
      var ok := DeleteFrom(layers, i, key, clock);
      if ok {
        DeletedIsSeen(layers, maps, Maps(layers), i, key);
        return Ok, i;
      }
      i := i + 1;
    }
    return KeyNotFound, |layers|;
  }

  method DeleteFrom(layers: seq<Layer>, j: nat, key: string, ghost clock: Clock) returns (ok: bool)
    requires Ready(layers, clock) && j < |layers|
    modifies ReprOf(layers)
    ensures Ready(layers, clock) && ReprOf(layers) == old(ReprOf(layers)) && clock.now == old(clock.now)
    ensures ok <==> key in old(Maps(layers))[j]
    ensures !ok ==> Maps(layers) == old(Maps(layers))
    ensures ok ==> OnlyLayer(layers, j, old(Maps(layers)), Maps(layers)) && Maps(layers)[j] == old(Maps(layers))[j] - {key}
  {
    hide LinearHashStorage.Valid;
    ghost var maps := Maps(layers);
    ok := layers[j].DeleteValue(key);
    forall i | 0 <= i < |layers|
      ensures Maps(layers)[i] == if layers[i] == layers[j] then maps[j] - {key} else maps[i]
    {
      assert layers[i] in layers && layers[j] in layers;
    }
    assert !ok ==> maps[j] - {key} == maps[j];
    assert !ok ==> forall i | 0 <= i < |layers| :: layers[i] == layers[j] ==> maps[i] == maps[j];
  }

  /** No storage of the node but that of layer `j` shows the key. */
  ghost predicate NotElsewhere(layers: seq<Layer>, maps: seq<map<string, Record>>, j: nat, key: string, t: int)
    requires j < |layers| == |maps|
  {
    forall i | 0 <= i < |layers| :: layers[i] != layers[j] ==> Live(maps[i], key, t) == None
  }

  lemma DeletedIsSeen(layers: seq<Layer>, a: seq<map<string, Record>>, b: seq<map<string, Record>>, j: nat, key: string)
    requires OnlyLayer(layers, j, a, b) && b[j] == a[j] - {key}
    ensures forall t :: Seen(b, key, t) == None <==> NotElsewhere(layers, a, j, key, t)
  {
    forall t
      ensures Seen(b, key, t) == None <==> NotElsewhere(layers, a, j, key, t)
    {
      SeenNone(b, key, t);
      forall i | 0 <= i < |layers|
        ensures Live(b[i], key, t) == if layers[i] == layers[j] then None else Live(a[i], key, t)
      {
      }
    }
  }

  lemma {:induction false} SeenNone(maps: seq<map<string, Record>>, k: string, t: int)
    ensures Seen(maps, k, t) == None <==> forall i | 0 <= i < |maps| :: Live(maps[i], k, t) == None
  {
    if maps != [] {
      SeenNone(maps[1..], k, t);
      assert forall i | 1 <= i < |maps| :: maps[i] == maps[1..][i - 1];
    }
  }

  /** An expired record above a live one: the deletion takes the expired one and reports success, and the
      key still shows its value. */
  lemma DeleteUncovers(v: Value, t: int)
    ensures var top, below := map["k" := Record(v, 0, t - 1)], map["k" := Record(v, 0, t)];
      && Seen([top, below], "k", t) == Some(below["k"])
      && Seen([top - {"k"}, below], "k", t) == Some(below["k"])
  {
    var top, below := map["k" := Record(v, 0, t - 1)], map["k" := Record(v, 0, t)];
    SeenAt([top, below], "k", t, 1);
    SeenAt([top - {"k"}, below], "k", t, 1);
  }

  // ---- Keys --------------------------------------------------------------------------------

  /** What the range query sees of a storage at time `t`: its size, and the keys it lists. */
  function SourceAt(table: Table<string, Record>, t: int): Source {
    Source(table.size, PrimaryKeys(table.chains, LiveAt(t)))
  }

  function SourcesAt(tables: seq<Table<string, Record>>, t: int): (sources: seq<Source>)
    ensures |sources| == |tables| && forall i | 0 <= i < |tables| :: sources[i] == SourceAt(tables[i], t)
  {
    seq(|tables|, i requires 0 <= i < |tables| => SourceAt(tables[i], t))
  }

  ghost function Tables(layers: seq<Layer>): (tables: seq<Table<string, Record>>)
    reads layers, set s | s in layers :: s.values, set s | s in layers :: s.values.manager
    ensures |tables| == |layers| && forall i | 0 <= i < |layers| :: tables[i] == layers[i].values.Table()
  {
    seq(|layers|, i requires 0 <= i < |layers|
                    reads layers, set s | s in layers :: s.values, set s | s in layers :: s.values.manager
                  => layers[i].values.Table())
  }

  /** The tables hold the records `maps`. */
  ghost predicate TablesHold(tables: seq<Table<string, Record>>, maps: seq<map<string, Record>>) {
    && |tables| == |maps|
    && forall i | 0 <= i < |tables| ::
      Unique(All(tables[i].chains)) && maps[i] == Contents(tables[i]) && tables[i].size == |All(tables[i].chains)|
  }

  /** No record expires from `t` to `t'`. */
  ghost predicate Steady(maps: seq<map<string, Record>>, t: int, t': int) {
    forall i, k | 0 <= i < |maps| && Live(maps[i], k, t).Some? :: Live(maps[i], k, t').Some?
  }

  lemma SteadyBefore(maps: seq<map<string, Record>>, t: int, t': int, t'': int)
    requires Steady(maps, t, t'') && t <= t' <= t''
    ensures Steady(maps, t, t')
  {
    forall i, k | 0 <= i < |maps| && Live(maps[i], k, t).Some?
      ensures Live(maps[i], k, t').Some?
    {
      assert Live(maps[i], k, t'').Some?;
    }
  }

  lemma SteadySources(tables: seq<Table<string, Record>>, maps: seq<map<string, Record>>, t: int, t': int)
    requires TablesHold(tables, maps) && Steady(maps, t, t') && t <= t'
    ensures SourcesAt(tables, t') == SourcesAt(tables, t)
  {
    hide PrimaryKeys, Contents, All, Unique;
    forall i | 0 <= i < |tables|
      ensures SourceAt(tables[i], t') == SourceAt(tables[i], t)
    {
      SteadyTable(tables[i], maps[i], t, t');
    }
  }

  lemma SteadyTable(table: Table<string, Record>, m: map<string, Record>, t: int, t': int)
    requires Unique(All(table.chains)) && m == Contents(table) && t <= t'
    requires forall k | Live(m, k, t).Some? :: Live(m, k, t').Some?
    ensures PrimaryKeys(table.chains, LiveAt(t')) == PrimaryKeys(table.chains, LiveAt(t))
  {
    hide PrimaryKeys, Contents, All, Unique;
    forall i, r | 0 <= i < |table.chains| && r in FirstBucket(table.chains[i])
      ensures LiveAt(t')(r.0, r.1) == LiveAt(t)(r.0, r.1)
    {
      InAll(table, i, 0, r);
      assert Live(m, r.0, t).Some? <==> r.1.expiration >= t;
    }
    SameAccepted(table.chains, LiveAt(t'), LiveAt(t));
  }

  lemma {:induction false} SameAccepted<K, V>(chains: seq<Chain<K, V>>, f: (K, V) -> bool, g: (K, V) -> bool)
    requires forall i, r | 0 <= i < |chains| && r in FirstBucket(chains[i]) :: f(r.0, r.1) == g(r.0, r.1)
    ensures PrimaryKeys(chains, f) == PrimaryKeys(chains, g)
  {
    if chains != [] {
      assert forall i | 0 <= i < |chains| - 1 :: chains[1..][i] == chains[i + 1];
      SameAccepted(chains[1..], f, g);
      SameInBucket(FirstBucket(chains[0]), f, g);
    }
  }

  lemma {:induction false} SameInBucket<K, V>(bucket: Bucket<K, V>, f: (K, V) -> bool, g: (K, V) -> bool)
    requires forall r | r in bucket :: f(r.0, r.1) == g(r.0, r.1)
    ensures AcceptedIn(bucket, f) == AcceptedIn(bucket, g)
  {
    if bucket != [] {
      assert bucket[0] in bucket;
      SameInBucket(bucket[1..], f, g);
    }
  }

  /** The first `n` keys of the stream at time `t` are live at `t'`, each in the storage that lists it. */
  ghost predicate FirstLast(tables: seq<Table<string, Record>>, maps: seq<map<string, Record>>, t: int, t': int, n: nat)
    requires |tables| == |maps|
  {
    forall i, j | 0 <= i < |tables| && 0 <= j < |SourceAt(tables[i], t).keys| && Before(SourcesAt(tables, t), i) + j < n ::
      Live(maps[i], SourceAt(tables[i], t).keys[j], t').Some?
  }

  lemma FirstLastBefore(tables: seq<Table<string, Record>>, maps: seq<map<string, Record>>, t: int, t': int, t'': int, n: nat, m: nat)
    requires |tables| == |maps| && FirstLast(tables, maps, t, t'', n) && t <= t' <= t'' && m <= n
    ensures FirstLast(tables, maps, t, t', m)
  {
    hide SourcesAt, PrimaryKeys, Before;
    forall i, j | 0 <= i < |tables| && 0 <= j < |SourceAt(tables[i], t).keys| && Before(SourcesAt(tables, t), i) + j < m
      ensures Live(maps[i], SourceAt(tables[i], t).keys[j], t').Some?
    {
      assert Live(maps[i], SourceAt(tables[i], t).keys[j], t'').Some?;
    }
  }

  lemma FirstStart(tables: seq<Table<string, Record>>, maps: seq<map<string, Record>>, t: int, t': int, n: nat)
    requires TablesHold(tables, maps) && FirstLast(tables, maps, t, t', n) && t <= t'
    ensures StartAs(SourcesAt(tables, t), SourcesAt(tables, t'), n)
  {
    hide PrimaryKeys, Contents, All, Unique, Live, Before, StartsAs;
    forall i | 0 <= i < |tables| && n >= Before(SourcesAt(tables, t), i)
      ensures StartsAs(SourceAt(tables[i], t).keys, SourceAt(tables[i], t').keys, n - Before(SourcesAt(tables, t), i))
    {
      TableStarts(tables[i], maps[i], t, t', n - Before(SourcesAt(tables, t), i));
    }
  }

  lemma TableStarts(table: Table<string, Record>, m: map<string, Record>, t: int, t': int, n: nat)
    requires Unique(All(table.chains)) && m == Contents(table) && t <= t'
    requires forall j | 0 <= j < |SourceAt(table, t).keys| && j < n :: Live(m, SourceAt(table, t).keys[j], t').Some?
    ensures StartsAs(SourceAt(table, t).keys, SourceAt(table, t').keys, n)
  {
    hide PrimaryKeys, Contents, All, Unique, StartsAs;
    var keys := SourceAt(table, t).keys;
    forall i, r | 0 <= i < |table.chains| && r in FirstBucket(table.chains[i])
      ensures NarrowedBehind(r, LiveAt(t), LiveAt(t'), keys, n)
    {
      InAll(table, i, 0, r);
      if r.0 in Take(keys, n) {
        var j :| 0 <= j < |Take(keys, n)| && Take(keys, n)[j] == r.0;
        assert Live(m, keys[j], t').Some?;
      }
    }
    ListStarts(table.chains, LiveAt(t), LiveAt(t'), n);
  }

  /** What is listed is live, so when no record expires all of the stream lasts. */
  lemma SteadyLast(tables: seq<Table<string, Record>>, maps: seq<map<string, Record>>, t: int, t': int, n: nat)
    requires TablesHold(tables, maps) && Steady(maps, t, t')
    ensures FirstLast(tables, maps, t, t', n)
  {
    hide PrimaryKeys, Contents, All, Unique, SourcesAt, Before;
    forall i, j | 0 <= i < |tables| && 0 <= j < |SourceAt(tables[i], t).keys| && Before(SourcesAt(tables, t), i) + j < n
      ensures Live(maps[i], SourceAt(tables[i], t).keys[j], t').Some?
    {
      ListedIsLive(tables[i], maps[i], t, SourceAt(tables[i], t).keys[j]);
    }
  }

  lemma ListedIsLive(table: Table<string, Record>, m: map<string, Record>, t: int, k: string)
    requires Unique(All(table.chains)) && m == Contents(table) && k in SourceAt(table, t).keys
    ensures Live(m, k, t).Some?
  {
    hide PrimaryKeys, Contents, All, Unique;
    PrimaryKeysAre(table.chains, LiveAt(t), k);
    var i, r :| 0 <= i < |table.chains| && r in FirstBucket(table.chains[i]) && r.0 == k && LiveAt(t)(r.0, r.1);
    InAll(table, i, 0, r);
  }

  lemma SourcesBounded(tables: seq<Table<string, Record>>, maps: seq<map<string, Record>>, t: int)
    requires TablesHold(tables, maps)
    ensures Bounded(SourcesAt(tables, t))
  {
    hide PrimaryKeys, Contents, All, Unique;
    forall i | 0 <= i < |tables|
      ensures |SourcesAt(tables, t)[i].keys| <= SourcesAt(tables, t)[i].size
    {
      FewerThanRecords(tables[i].chains, LiveAt(t));
    }
  }

  lemma Holding(layers: seq<Layer>, clock: Clock)
    requires Ready(layers, clock)
    ensures TablesHold(Tables(layers), Maps(layers))
  {
    hide WellFormed, Unique, All, Contents, ReprOf, Apart;
    forall i | 0 <= i < |layers|
      ensures Unique(All(Tables(layers)[i].chains)) && Maps(layers)[i] == Contents(Tables(layers)[i])
      ensures Tables(layers)[i].size == |All(Tables(layers)[i].chains)|
    {
      assert layers[i] in layers;
      layers[i].values.HasShape();
      SizeOfTable(layers[i].values.cfg, Tables(layers)[i]);
    }
  }

  lemma SizeOfTable<K, V>(cfg: Config<K>, t: Table<K, V>)
    requires WellFormed(cfg, t)
    ensures t.size == |All(t.chains)|
  {
  }

  lemma Footprint(s: Layer)
    requires s.Valid()
    ensures s.values in s.Repr && s.values.manager in s.Repr
  {
  }

  /** `getKeysRange` of layer `i`. */
  method KeysOf(layers: seq<Layer>, i: nat, from: nat, count: nat, clock: Clock) returns (keys: seq<string>)
    requires Ready(layers, clock) && i < |layers|
    modifies ReprOf(layers), clock
    ensures Ready(layers, clock) && ReprOf(layers) == old(ReprOf(layers)) && clock.now >= old(clock.now)
    ensures Maps(layers) == old(Maps(layers)) && Tables(layers) == old(Tables(layers))
    ensures |keys| <= count && keys == StorageKeys(SourceAt(Tables(layers)[i], clock.now), from, count)
    ensures forall k | k in keys :: Live(Maps(layers)[i], k, clock.now).Some?
  {
    hide LinearHashStorage.Valid, LinearHashingTable.Table, PrimaryKeys, InOverflow, Live, Take, Drop;
    ghost var maps, tables := Maps(layers), Tables(layers);
    assert layers[i] in layers;
    forall s | s in layers
      ensures s.values in s.Repr && s.values.manager in s.Repr
    {
      Footprint(s);
    }
    keys := layers[i].GetKeysRange(from, count, clock);
    forall j | 0 <= j < |layers|
      ensures Maps(layers)[j] == maps[j] && Tables(layers)[j] == tables[j]
    {
      assert layers[j] in layers && layers[i] in layers;
    }
    SliceOf(layers[i].Listed(clock.now), from, count);
  }

  lemma SliceOf(keys: seq<string>, from: nat, count: nat)
    ensures |Take(Drop(keys, from), count)| <= count && forall k | k in Take(Drop(keys, from), count) :: k in keys
  {
  }

  /** The same, with those that are not in `exclude` apart. */
  method NewKeysOf(layers: seq<Layer>, i: nat, from: nat, count: nat, exclude: set<string>, clock: Clock)
    returns (keys: seq<string>, added: seq<string>)
    requires Ready(layers, clock) && i < |layers|
    modifies ReprOf(layers), clock
    ensures Ready(layers, clock) && ReprOf(layers) == old(ReprOf(layers)) && clock.now >= old(clock.now)
    ensures Maps(layers) == old(Maps(layers)) && Tables(layers) == old(Tables(layers))
    ensures |keys| <= count && keys == StorageKeys(SourceAt(Tables(layers)[i], clock.now), from, count)
    ensures forall k | k in keys :: Live(Maps(layers)[i], k, clock.now).Some?
    ensures added == Dedup(keys, exclude) && |added| <= |keys|
  {
    hide LinearHashStorage.Valid, LinearHashingTable.Table, Tables, Maps, ReprOf, SourceAt, StorageKeys, Dedup;
    keys := KeysOf(layers, i, from, count, clock);
    added := AddNew(keys, exclude);
  }

  method SizeOf(layers: seq<Layer>, i: nat, ghost clock: Clock) returns (n: nat)
    requires Ready(layers, clock) && i < |layers|
    ensures n == Tables(layers)[i].size && Ready(layers, clock) && ReprOf(layers) == old(ReprOf(layers))
  {
    hide LinearHashStorage.Valid, LinearHashingTable.Table;
    assert layers[i] in layers;
    n := layers[i].GetSize();
  }

  /** The virtual `getKeysRange`.  Whatever expires meanwhile, both loops end, no key is returned twice,
      none was skipped, and all were live at the start.  The keys listed before the first one that expires
      are paged as if nothing expired, and come first; if nothing expires, the result is the page of the
      stream of listed keys. */
  method GetKeysRange(layers: seq<Layer>, from: nat, count: nat, clock: Clock)
    returns (status: Status, keys: seq<string>, ghost skipped: set<string>)
    requires Ready(layers, clock)
    modifies ReprOf(layers), clock
    ensures Ready(layers, clock) && ReprOf(layers) == old(ReprOf(layers)) && clock.now >= old(clock.now)
    ensures Maps(layers) == old(Maps(layers)) && Tables(layers) == old(Tables(layers))
    ensures status == if layers == [] then NodeNotFound else Ok
    ensures |keys| <= count && forall i, j | 0 <= i < j < |keys| :: keys[i] != keys[j]
    ensures forall x | x in keys :: x !in skipped && LiveSomewhere(Maps(layers), x, old(clock.now))
    ensures Steady(Maps(layers), old(clock.now), clock.now) ==>
      var stream := Stream(SourcesAt(Tables(layers), old(clock.now)));
      keys == Page(stream, from, count) && skipped == ToSet(Take(stream, from))
    ensures forall n: nat | FirstLast(Tables(layers), Maps(layers), old(clock.now), clock.now, n) ::
      Page(Take(Stream(SourcesAt(Tables(layers), old(clock.now))), n), from, count) <= keys
  {
    hide Ready, ReprOf, Apart, Steady, FirstLast, Stream, Dedup, SourcesAt, Tables, LiveSomewhere, Remaining, Page, TablesHold, ToSet;
    if layers == [] {
      NoPages(Tables(layers), clock.now, from, count);
      return NodeNotFound, [], {};
    }
    ghost var t, maps, tables := clock.now, Maps(layers), Tables(layers);
    Holding(layers, clock);
    var excludeKeys, storageIndex, storageKeyIndex := Skip(layers, from, clock);
    skipped := excludeKeys;
    ghost var t' := clock.now;
    keys := Collect(layers, storageIndex, storageKeyIndex, excludeKeys, count, clock, t, from);
    PagedSteady(tables, maps, t, t', clock.now, storageIndex, storageKeyIndex, excludeKeys, from, count, keys);
    PagedFirst(tables, maps, t, t', clock.now, storageIndex, storageKeyIndex, excludeKeys, from, count, keys);
    return Ok, keys, skipped;
  }

  /** The two loops together, if nothing expires. */
  lemma PagedSteady(tables: seq<Table<string, Record>>, maps: seq<map<string, Record>>, t: int, t': int, t'': int,
                    i: nat, k: nat, exclude: set<string>, from: nat, count: nat, keys: seq<string>)
    requires TablesHold(tables, maps) && t <= t' <= t'' && i <= |tables|
    requires FirstLast(tables, maps, t, t', from) ==>
      var sources := SourcesAt(tables, t);
      Remaining(sources, i, k) == Drop(Stream(sources), from) && exclude == ToSet(Take(Stream(sources), from))
    requires Steady(maps, t, t'') ==> keys == Take(Dedup(Remaining(SourcesAt(tables, t), i, k), exclude), count)
    ensures Steady(maps, t, t'') ==>
      var stream := Stream(SourcesAt(tables, t)); keys == Page(stream, from, count) && exclude == ToSet(Take(stream, from))
  {
    hide Steady, FirstLast, Stream, Dedup, SourcesAt, Remaining, TablesHold, ToSet;
    if Steady(maps, t, t'') {
      SteadyBefore(maps, t, t', t'');
      SteadyLast(tables, maps, t, t', from);
    }
  }

  /** The two loops together, up to the first key that expires. */
  lemma PagedFirst(tables: seq<Table<string, Record>>, maps: seq<map<string, Record>>, t: int, t': int, t'': int,
                   i: nat, k: nat, exclude: set<string>, from: nat, count: nat, keys: seq<string>)
    requires |tables| == |maps| && t <= t' <= t'' && i <= |tables|
    requires FirstLast(tables, maps, t, t', from) ==>
      var sources := SourcesAt(tables, t);
      Remaining(sources, i, k) == Drop(Stream(sources), from) && exclude == ToSet(Take(Stream(sources), from))
    requires Collected(tables, maps, t, t'', from, i, k, exclude, count, keys)
    ensures forall n: nat | FirstLast(tables, maps, t, t'', n) :: Page(Take(Stream(SourcesAt(tables, t)), n), from, count) <= keys
  {
    hide Steady, FirstLast, Stream, Dedup, SourcesAt, Remaining, ToSet, Page;
    var stream := Stream(SourcesAt(tables, t));
    forall n: nat | FirstLast(tables, maps, t, t'', n)
      ensures Page(Take(stream, n), from, count) <= keys
    {
      if n <= from || |stream| <= from {
        PageOfPart(stream, from, n, count);
      } else {
        FirstLastBefore(tables, maps, t, t', t'', n, from);
        PageOfPart(stream, from, n - from, count);
        assert from + (n - from) == n;
      }
    }
  }

  /** The keys collected from place `k` of storage `i` on, which is behind the first `from` keys, start with
      all new ones that last. */
  ghost predicate Collected(tables: seq<Table<string, Record>>, maps: seq<map<string, Record>>, t: int, t': int, from: nat,
                            i: nat, k: nat, exclude: set<string>, count: nat, keys: seq<string>)
    requires |tables| == |maps| && i <= |tables|
  {
    var sources := SourcesAt(tables, t);
    var rest := Remaining(sources, i, k);
    from <= |Stream(sources)| && rest == Stream(sources)[from..] ==>
      forall n: nat | from <= n && FirstLast(tables, maps, t, t', n) :: Take(Dedup(Take(rest, n - from), exclude), count) <= keys
  }

  ghost predicate LiveSomewhere(maps: seq<map<string, Record>>, k: string, t: int) {
    exists i | 0 <= i < |maps| :: Live(maps[i], k, t).Some?
  }

  lemma NoPages(tables: seq<Table<string, Record>>, t: int, from: nat, count: nat)
    requires tables == []
    ensures Page(Stream(SourcesAt(tables, t)), from, count) == [] && ToSet(Take(Stream(SourcesAt(tables, t)), from)) == {}
    ensures forall n :: Page(Take(Stream(SourcesAt(tables, t)), n), from, count) <= []
  {
    assert SourcesAt([], t) == [];
  }

  /** The loop that skips the first keys. */
  method Skip(layers: seq<Layer>, from: nat, clock: Clock) returns (excludeKeys: set<string>, storageIndex: nat, storageKeyIndex: nat)
    requires Ready(layers, clock)
    modifies ReprOf(layers), clock
    ensures Ready(layers, clock) && ReprOf(layers) == old(ReprOf(layers)) && clock.now >= old(clock.now)
    ensures Maps(layers) == old(Maps(layers)) && Tables(layers) == old(Tables(layers))
    ensures storageIndex <= |layers| && (storageIndex < |layers| ==> storageKeyIndex <= Tables(layers)[storageIndex].size)
    ensures FirstLast(Tables(layers), Maps(layers), old(clock.now), clock.now, from) ==>
      var sources := SourcesAt(Tables(layers), old(clock.now));
      Remaining(sources, storageIndex, storageKeyIndex) == Drop(Stream(sources), from) && excludeKeys == ToSet(Take(Stream(sources), from))
  {
    hide Ready, ReprOf, Apart, FirstLast, StartAs, Stream, SourcesAt, Tables, SourceAt, SkippedTo, Remaining, StorageKeys, Live, TablesHold;
    ghost var t, maps, tables := clock.now, Maps(layers), Tables(layers);
    ghost var sources := SourcesAt(tables, t);
    Holding(layers, clock);
    SourcesBounded(tables, maps, t);
    SkipStart(sources, from);
    var indicesToSkip: nat := from;
    excludeKeys, storageIndex, storageKeyIndex := {}, 0, 0;
    while indicesToSkip > 0 && storageIndex < |layers|
      invariant Ready(layers, clock) && ReprOf(layers) == old(ReprOf(layers)) && clock.now >= t
      invariant Maps(layers) == maps && Tables(layers) == tables
      invariant storageIndex <= |layers| && (storageIndex < |layers| ==> storageKeyIndex <= tables[storageIndex].size)
      invariant FirstLast(tables, maps, t, clock.now, from) ==>
        SkippedTo(sources, from, indicesToSkip, storageIndex, storageKeyIndex, excludeKeys)
      decreases |layers| - storageIndex, if storageIndex < |layers| then tables[storageIndex].size - storageKeyIndex else 0
    {
      var size := SizeOf(layers, storageIndex, clock);
      var keysToRead := if indicesToSkip < size - storageKeyIndex then indicesToSkip else size - storageKeyIndex;
      ghost var before := clock.now;
      var storageKeys := KeysOf(layers, storageIndex, storageKeyIndex, keysToRead, clock);
      if FirstLast(tables, maps, t, clock.now, from) {
        FirstLastBefore(tables, maps, t, before, clock.now, from, from);
        FirstStart(tables, maps, t, clock.now, from);
        IsSource(tables, storageIndex, t, clock.now);
        SkipExpiring(sources, SourcesAt(tables, clock.now), from, from, indicesToSkip, storageIndex, storageKeyIndex, excludeKeys, keysToRead);
      }
      excludeKeys := excludeKeys + ToSet(storageKeys);
      storageKeyIndex := storageKeyIndex + keysToRead;
      indicesToSkip := indicesToSkip - |storageKeys|;
      if storageKeyIndex >= size {
        storageIndex := storageIndex + 1;
        storageKeyIndex := 0;
      }
    }
    if FirstLast(tables, maps, t, clock.now, from) {
      SkipEnd(sources, from, indicesToSkip, storageIndex, storageKeyIndex, excludeKeys);
    }
  }

  lemma IsSource(tables: seq<Table<string, Record>>, i: nat, t: int, t': int)
    requires i < |tables|
    ensures SourcesAt(tables, t')[i] == SourceAt(tables[i], t') && SourcesAt(tables, t)[i].size == tables[i].size
  {
  }

  /** The loop that collects keys from there on. */
  method Collect(layers: seq<Layer>, index: nat, keyIndex: nat, exclude: set<string>, count: nat, clock: Clock,
                 ghost t: int, ghost from: nat)
    returns (resultKeys: seq<string>)
    requires Ready(layers, clock) && t <= clock.now
    requires index <= |layers| && (index < |layers| ==> keyIndex <= Tables(layers)[index].size)
    modifies ReprOf(layers), clock
    ensures Ready(layers, clock) && ReprOf(layers) == old(ReprOf(layers)) && clock.now >= old(clock.now)
    ensures Maps(layers) == old(Maps(layers)) && Tables(layers) == old(Tables(layers))
    ensures |resultKeys| <= count && forall i, j | 0 <= i < j < |resultKeys| :: resultKeys[i] != resultKeys[j]
    ensures forall x | x in resultKeys :: x !in exclude && LiveSomewhere(Maps(layers), x, t)
    ensures Steady(Maps(layers), t, clock.now) ==>
      resultKeys == Take(Dedup(Remaining(SourcesAt(Tables(layers), t), index, keyIndex), exclude), count)
    ensures Collected(Tables(layers), Maps(layers), t, clock.now, from, index, keyIndex, exclude, count, resultKeys)
  {
    hide Ready, ReprOf, Apart, Steady, Stream, SourcesAt, Tables, SourceAt, CollectedTo, Fresh, Remaining, StorageKeys, Dedup, Live, TablesHold,
         LiveSomewhere, LastCollected, Collected;
    ghost var maps, tables := Maps(layers), Tables(layers);
    ghost var sources := SourcesAt(tables, t);
    ghost var rest := Remaining(sources, index, keyIndex);
    Holding(layers, clock);
    SourcesBounded(tables, maps, t);
    CollectStart(sources, rest, exclude, index, keyIndex);
    LastStart(tables, maps, t, clock.now, from, rest, exclude, index, keyIndex);
    var excludeKeys, storageIndex: nat, storageKeyIndex: nat, keysLeft: nat := exclude, index, keyIndex, count;
    resultKeys := [];
    while keysLeft > 0 && storageIndex < |layers|
      invariant Ready(layers, clock) && ReprOf(layers) == old(ReprOf(layers)) && clock.now >= old(clock.now)
      invariant Maps(layers) == maps && Tables(layers) == tables
      invariant storageIndex <= |layers| && (storageIndex < |layers| ==> storageKeyIndex <= tables[storageIndex].size)
      invariant keysLeft + |resultKeys| == count
      invariant Fresh(resultKeys, exclude, excludeKeys)
      invariant forall x | x in resultKeys :: LiveSomewhere(maps, x, t)
      invariant Steady(maps, t, clock.now) ==> CollectedTo(sources, rest, exclude, storageIndex, storageKeyIndex, excludeKeys, resultKeys)
      invariant LastCollected(tables, maps, t, clock.now, from, rest, exclude, storageIndex, storageKeyIndex, excludeKeys, resultKeys)
      decreases |layers| - storageIndex, if storageIndex < |layers| then tables[storageIndex].size - storageKeyIndex else 0
    {
      var size := SizeOf(layers, storageIndex, clock);
      var keysToRead := if keysLeft < size - storageKeyIndex then keysLeft else size - storageKeyIndex;
      ghost var before := clock.now;
      var storageKeys, added := NewKeysOf(layers, storageIndex, storageKeyIndex, keysToRead, excludeKeys, clock);
      if Steady(maps, t, clock.now) {
        SteadyBefore(maps, t, before, clock.now);
        SteadySources(tables, maps, t, clock.now);
        IsSource(tables, storageIndex, t, clock.now);
        CollectStep(sources, rest, exclude, storageIndex, storageKeyIndex, excludeKeys, resultKeys, keysToRead);
      }
      LastStep(tables, maps, t, before, clock.now, from, rest, exclude, storageIndex, storageKeyIndex, excludeKeys, resultKeys, keysToRead);
      LiveThen(maps, storageIndex, storageKeys, t, clock.now);
      FreshStep(resultKeys, exclude, excludeKeys, storageKeys);
      resultKeys := resultKeys + added;
      excludeKeys := excludeKeys + ToSet(storageKeys);
      storageKeyIndex := storageKeyIndex + keysToRead;
      keysLeft := keysLeft - |added|;
      if storageKeyIndex >= size {
        storageIndex := storageIndex + 1;
        storageKeyIndex := 0;
      }
    }
    FreshIs(resultKeys, exclude, excludeKeys);
    if Steady(maps, t, clock.now) {
      CollectEnd(sources, rest, exclude, storageIndex, storageKeyIndex, excludeKeys, resultKeys, count);
    }
    LastEnd(tables, maps, t, clock.now, from, index, keyIndex, exclude, storageIndex, storageKeyIndex, excludeKeys, resultKeys, count);
  }

  /** Of `rest`, the stream behind its first `from` keys, what lasts is collected, or all of it up to place
      `k` of storage `i`. */
  ghost predicate LastCollected(tables: seq<Table<string, Record>>, maps: seq<map<string, Record>>, t: int, t': int, from: nat,
                                rest: seq<string>, seen: set<string>, i: nat, k: nat, exclude: set<string>, result: seq<string>)
    requires |tables| == |maps| && i <= |tables|
  {
    var sources := SourcesAt(tables, t);
    from <= |Stream(sources)| && rest == Stream(sources)[from..] ==>
      forall n: nat | from <= n && FirstLast(tables, maps, t, t', n) :: PartCollected(sources, rest, seen, n - from, i, k, exclude, result)
  }

  lemma LastStart(tables: seq<Table<string, Record>>, maps: seq<map<string, Record>>, t: int, t': int, from: nat,
                  rest: seq<string>, seen: set<string>, i: nat, k: nat)
    requires |tables| == |maps| && i <= |tables| && rest == Remaining(SourcesAt(tables, t), i, k)
    ensures LastCollected(tables, maps, t, t', from, rest, seen, i, k, seen, [])
  {
    hide FirstLast, Stream, SourcesAt, Remaining, PartCollected;
    forall n: nat | from <= n && FirstLast(tables, maps, t, t', n)
      ensures PartCollected(SourcesAt(tables, t), rest, seen, n - from, i, k, seen, [])
    {
      PartStart(SourcesAt(tables, t), rest, seen, n - from, i, k);
    }
  }

  lemma LastStep(tables: seq<Table<string, Record>>, maps: seq<map<string, Record>>, t: int, t': int, t'': int, from: nat,
                 rest: seq<string>, seen: set<string>, i: nat, k: nat, exclude: set<string>, result: seq<string>, m: nat)
    requires TablesHold(tables, maps) && |tables| == |maps| && t <= t' <= t'' && i < |tables| && k + m <= tables[i].size
    requires LastCollected(tables, maps, t, t', from, rest, seen, i, k, exclude, result)
    ensures var keys := StorageKeys(SourceAt(tables[i], t''), k, m);
      && LastCollected(tables, maps, t, t'', from, rest, seen, i, k + m, exclude + ToSet(keys), result + Dedup(keys, exclude))
      && (k + m == tables[i].size ==>
            LastCollected(tables, maps, t, t'', from, rest, seen, i + 1, 0, exclude + ToSet(keys), result + Dedup(keys, exclude)))
  {
    hide FirstLast, Stream, SourcesAt, SourceAt, Remaining, PartCollected, StorageKeys, Dedup, ToSet, StartAs, Bounded, TablesHold;
    var sources := SourcesAt(tables, t);
    var keys := StorageKeys(SourceAt(tables[i], t''), k, m);
    SourcesBounded(tables, maps, t);
    IsSource(tables, i, t, t'');
    if from <= |Stream(sources)| && rest == Stream(sources)[from..] {
      forall n: nat | from <= n && FirstLast(tables, maps, t, t'', n)
        ensures PartCollected(sources, rest, seen, n - from, i, k + m, exclude + ToSet(keys), result + Dedup(keys, exclude))
        ensures k + m == tables[i].size ==>
          PartCollected(sources, rest, seen, n - from, i + 1, 0, exclude + ToSet(keys), result + Dedup(keys, exclude))
      {
        FirstLastBefore(tables, maps, t, t', t'', n, n);
        FirstStart(tables, maps, t, t'', n);
        assert from + (n - from) == n;
        PartStep(sources, SourcesAt(tables, t''), from, rest, seen, n - from, i, k, exclude, result, m);
      }
    }
  }

  lemma LastEnd(tables: seq<Table<string, Record>>, maps: seq<map<string, Record>>, t: int, t': int, from: nat,
                index: nat, keyIndex: nat, seen: set<string>, i: nat, k: nat, exclude: set<string>, result: seq<string>, count: nat)
    requires |tables| == |maps| && index <= |tables| && i <= |tables|
    requires LastCollected(tables, maps, t, t', from, Remaining(SourcesAt(tables, t), index, keyIndex), seen, i, k, exclude, result)
    requires |result| <= count && (|result| == count || i == |tables|)
    ensures Collected(tables, maps, t, t', from, index, keyIndex, seen, count, result)
  {
    hide FirstLast, Stream, SourcesAt, Remaining, PartCollected, Dedup, Take;
    var sources := SourcesAt(tables, t);
    var rest := Remaining(sources, index, keyIndex);
    if from <= |Stream(sources)| && rest == Stream(sources)[from..] {
      forall n: nat | from <= n && FirstLast(tables, maps, t, t', n)
        ensures Take(Dedup(Take(rest, n - from), seen), count) <= result
      {
        PartEnd(sources, rest, seen, n - from, i, k, exclude, result, count);
      }
    }
  }

  /** What is live was live before. */
  lemma LiveThen(maps: seq<map<string, Record>>, i: nat, keys: seq<string>, t: int, t': int)
    requires i < |maps| && t <= t' && forall k | k in keys :: Live(maps[i], k, t').Some?
    ensures forall k | k in keys :: LiveSomewhere(maps, k, t)
  {
    forall k | k in keys
      ensures LiveSomewhere(maps, k, t)
    {
      assert Live(maps[i], k, t').Some?;
      assert Live(maps[i], k, t).Some?;
    }
  }
}
