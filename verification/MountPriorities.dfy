/** Whether the list of a virtual node holds the priorities that the mount points gave: for every storage
    and priority as many entries as mount points placed the storage there with that priority. */
module MountPriorities {
  import opened Paths
  import opened RegistryModel
  import opened StorageRegistry
  import opened MountLists
  import opened MountModel

  function Priorities(mountPoints: map<nat, MountPoint>): map<nat, int> {
    map id | id in mountPoints :: mountPoints[id].priority
  }

  /** The items that place the storage of entry `x` at virtual node `q` with the priority of `x`. */
  function Marked(placed: set<Item>, prio: map<nat, int>, q: Path, x: Mounted): set<Item> {
    set u | u in placed && u.at == q && u.storage == x.storage && u.id in prio && prio[u.id] == x.priority
  }

  ghost predicate ListKept(list: seq<Mounted>, placed: set<Item>, prio: map<nat, int>, q: Path) {
    forall x: Mounted :: multiset(list)[x] == |Marked(placed, prio, q, x)|
  }

  ghost predicate Kept(nodes: Nodes, placed: set<Item>, prio: map<nat, int>) {
    && (forall u | u in placed :: u.at in nodes && u.id in prio)
    && (forall q | q in nodes :: ListKept(nodes[q], placed, prio, q))
  }

  // ---- How many entries there are above a priority --------------------------------------------

  /** The entries of storage `s` of a priority above `p`. */
  function CountAbove(list: seq<Mounted>, s: StorageId, p: int): nat {
    if list == [] then 0
    else (if list[0].storage == s && list[0].priority > p then 1 else 0) + CountAbove(list[1..], s, p)
  }

  lemma {:induction false} CountConcat(a: seq<Mounted>, b: seq<Mounted>, s: StorageId, p: int)
    ensures CountAbove(a + b, s, p) == CountAbove(a, s, p) + CountAbove(b, s, p)
  {
    if a == [] {
      assert a + b == b;
    } else {
      assert (a + b)[1..] == a[1..] + b;
      CountConcat(a[1..], b, s, p);
    }
  }

  lemma CountAround(list: seq<Mounted>, n: nat, x: Mounted, s: StorageId, p: int)
    requires n <= |list|
    ensures CountAbove(list[..n] + [x] + list[n..], s, p)
         == CountAbove(list, s, p) + if x.storage == s && x.priority > p then 1 else 0
  {
    hide CountAbove;
    CountConcat(list[..n] + [x], list[n..], s, p);
    CountConcat(list[..n], [x], s, p);
    CountConcat(list[..n], list[n..], s, p);
    assert list[..n] + list[n..] == list;
    CountOne(x, s, p);
  }

  lemma CountOne(x: Mounted, s: StorageId, p: int)
    ensures CountAbove([x], s, p) == if x.storage == s && x.priority > p then 1 else 0
  {
  }

  lemma {:induction false} CountNone(list: seq<Mounted>, s: StorageId, p: int)
    requires forall i | 0 <= i < |list| && list[i].storage == s :: list[i].priority <= p
    ensures CountAbove(list, s, p) == 0
  {
    if list != [] {
      CountNone(list[1..], s, p);
    }
  }

  lemma InsertAbove(list: seq<Mounted>, x: Mounted, s: StorageId, p: int)
    ensures CountAbove(Insert(list, x), s, p) == CountAbove(list, s, p) + if x.storage == s && x.priority > p then 1 else 0
  {
    CountAround(list, UpperBound(list, x.priority), x, s, p);
  }

  /** Taking the first entry of a storage off a sorted list: one entry above `p` goes, if there is one. */
  lemma RemoveAbove(list: seq<Mounted>, gone: StorageId, s: StorageId, p: int)
    requires Sorted(list)
    ensures CountAbove(RemoveListed(list, gone), s, p)
         == CountAbove(list, s, p) - if gone == s && CountAbove(list, s, p) > 0 then 1 else 0
  {
    hide CountAbove;
    var n := FindStorage(list, gone);
    if n < |list| {
      var rest := list[..n] + list[n + 1..];
      assert rest[..n] == list[..n] && rest[n..] == list[n + 1..];
      assert rest[..n] + [list[n]] + rest[n..] == list;
      CountAround(rest, n, list[n], s, p);
      if gone == s && list[n].priority <= p {
        NoneAbove(list, s, p);
      }
    } else if gone == s {
      CountNone(list, s, p);
    }
  }

  lemma NoneAbove(list: seq<Mounted>, s: StorageId, p: int)
    requires Sorted(list) && FindStorage(list, s) < |list| && list[FindStorage(list, s)].priority <= p
    ensures CountAbove(list, s, p) == 0
  {
    var n := FindStorage(list, s);
    forall i | 0 <= i < |list| && list[i].storage == s
      ensures list[i].priority <= p
    {
      assert n <= i && list[n].priority >= list[i].priority;
    }
    CountNone(list, s, p);
  }

  /** The items that place storage `s` at virtual node `q` with a priority above `p`. */
  function Higher(placed: set<Item>, prio: map<nat, int>, q: Path, s: StorageId, p: int): set<Item> {
    set u | u in placed && u.at == q && u.storage == s && u.id in prio && prio[u.id] > p
  }

  ghost predicate ListDominated(list: seq<Mounted>, placed: set<Item>, prio: map<nat, int>, q: Path) {
    forall s, p :: CountAbove(list, s, p) <= |Higher(placed, prio, q, s, p)|
  }

  /** No list has more entries of a storage above a priority than mount points placed there. */
  ghost predicate Dominated(nodes: Nodes, placed: set<Item>, prio: map<nat, int>) {
    && (forall u | u in placed :: u.at in nodes)
    && (forall q | q in nodes :: ListDominated(nodes[q], placed, prio, q))
  }

  /** Some list has fewer. */
  ghost predicate Lacking(nodes: Nodes, placed: set<Item>, prio: map<nat, int>) {
    exists q, s, p | q in nodes :: CountAbove(nodes[q], s, p) < |Higher(placed, prio, q, s, p)|
  }

  /** A list that holds the priorities has exactly as many. */
  lemma {:induction false} KeptCounts(list: seq<Mounted>, placed: set<Item>, prio: map<nat, int>, q: Path, s: StorageId, p: int)
    requires ListKept(list, placed, prio, q)
    ensures CountAbove(list, s, p) == |Higher(placed, prio, q, s, p)|
  {
    if list == [] {
      forall u: Item | u.id in prio
        ensures u !in Higher(placed, prio, q, s, p)
      {
        var x := Mounted(s, prio[u.id]);
        assert multiset(list)[x] == 0 == |Marked(placed, prio, q, x)|;
        assert u in Higher(placed, prio, q, s, p) ==> u in Marked(placed, prio, q, x);
      }
      assert Higher(placed, prio, q, s, p) == {};
    } else {
      var x := list[0];
      assert multiset(list)[x] > 0 && Marked(placed, prio, q, x) != {};
      var u :| u in Marked(placed, prio, q, x);
      OneLess(list, placed, prio, q, u);
      KeptCounts(list[1..], placed - {u}, prio, q, s, p);
      if x.storage == s && x.priority > p {
        assert Higher(placed, prio, q, s, p) == Higher(placed - {u}, prio, q, s, p) + {u};
      } else {
        assert Higher(placed, prio, q, s, p) == Higher(placed - {u}, prio, q, s, p);
      }
    }
  }

  lemma OneLess(list: seq<Mounted>, placed: set<Item>, prio: map<nat, int>, q: Path, u: Item)
    requires list != [] && ListKept(list, placed, prio, q) && u in Marked(placed, prio, q, list[0])
    ensures ListKept(list[1..], placed - {u}, prio, q)
  {
    assert list == [list[0]] + list[1..];
    forall x: Mounted
      ensures multiset(list[1..])[x] == |Marked(placed - {u}, prio, q, x)|
    {
      if x == list[0] {
        assert Marked(placed, prio, q, x) == Marked(placed - {u}, prio, q, x) + {u};
      } else {
        assert Marked(placed, prio, q, x) == Marked(placed - {u}, prio, q, x);
      }
    }
  }

  lemma KeptIsDominated(nodes: Nodes, placed: set<Item>, prio: map<nat, int>)
    requires Kept(nodes, placed, prio)
    ensures Dominated(nodes, placed, prio)
  {
    hide ListKept, CountAbove, Higher;
    forall q, s, p | q in nodes
      ensures CountAbove(nodes[q], s, p) <= |Higher(placed, prio, q, s, p)|
    {
      assert ListKept(nodes[q], placed, prio, q);
      KeptCounts(nodes[q], placed, prio, q, s, p);
    }
  }

  lemma LackingIsNotKept(nodes: Nodes, placed: set<Item>, prio: map<nat, int>)
    requires Lacking(nodes, placed, prio)
    ensures !Kept(nodes, placed, prio)
  {
    hide ListKept, CountAbove, Higher;
    var q, s, p :| q in nodes && CountAbove(nodes[q], s, p) < |Higher(placed, prio, q, s, p)|;
    if Kept(nodes, placed, prio) {
      assert ListKept(nodes[q], placed, prio, q);
      KeptCounts(nodes[q], placed, prio, q, s, p);
    }
  }

  // ---- One mount point ---------------------------------------------------------------------

  /** A mount point places one storage at each node that it covers. */
  lemma ItemAt(id: nat, m: MountPoint, q: Path)
    ensures forall u | u in Items(id, m) && u.at == q ::
      Covers(m, m.snapshot.nodes.Keys, q) && u == ItemOf(id, m.node, m.snapshot, q[|m.node|..])
    ensures Covers(m, m.snapshot.nodes.Keys, q) ==>
      var u := ItemOf(id, m.node, m.snapshot, q[|m.node|..]);
      u in Items(id, m) && u.at == q && u.storage == StorageAt(m, q)
  {
    hide Split;
    forall u | u in Items(id, m) && u.at == q
      ensures Covers(m, m.snapshot.nodes.Keys, q) && u == ItemOf(id, m.node, m.snapshot, q[|m.node|..])
    {
      var r :| r in m.snapshot.nodes && u == ItemOf(id, m.node, m.snapshot, r);
      OtherTails(m.node, r);
    }
    if Covers(m, m.snapshot.nodes.Keys, q) {
      assert m.node + q[|m.node|..] == q;
    }
  }

  predicate Places(m: MountPoint, q: Path, x: Mounted) {
    Covers(m, m.snapshot.nodes.Keys, q) && x == Mounted(StorageAt(m, q), m.priority)
  }

  lemma MarkedWith(placed: set<Item>, prio: map<nat, int>, id: nat, m: MountPoint, q: Path, x: Mounted)
    requires Items(id, m) !! placed && id in prio && prio[id] == m.priority
    ensures |Marked(placed + Items(id, m), prio, q, x)| == |Marked(placed, prio, q, x)| + if Places(m, q, x) then 1 else 0
  {
    hide Items;
    ItemAt(id, m, q);
    if Places(m, q, x) {
      var u := ItemOf(id, m.node, m.snapshot, q[|m.node|..]);
      assert Marked(placed + Items(id, m), prio, q, x) == Marked(placed, prio, q, x) + {u};
    } else {
      assert Marked(placed + Items(id, m), prio, q, x) == Marked(placed, prio, q, x);
    }
  }

  lemma MountedListAt(nodes: Nodes, m: MountPoint, q: Path, x: Mounted)
    requires q in MountedPart(nodes, m, m.snapshot.nodes.Keys)
    ensures multiset(MountedPart(nodes, m, m.snapshot.nodes.Keys)[q])[x]
         == multiset(ListAt(nodes, q))[x] + if Places(m, q, x) then 1 else 0
  {
    if Covers(m, m.snapshot.nodes.Keys, q) {
      var list, y := ListAt(nodes, q), Mounted(StorageAt(m, q), m.priority);
      var n := UpperBound(list, y.priority);
      assert list == list[..n] + list[n..];
      assert multiset(Insert(list, y)) == multiset(list) + multiset{y};
    }
  }

  lemma HigherWith(placed: set<Item>, prio: map<nat, int>, id: nat, m: MountPoint, q: Path, s: StorageId, p: int)
    requires Items(id, m) !! placed && id in prio && prio[id] == m.priority
    requires forall u | u in Items(id, m) :: u.id == id
    ensures |Higher(placed + Items(id, m), prio, q, s, p)| == |Higher(placed, prio, q, s, p)| + if PlacesAbove(m, q, s, p) then 1 else 0
  {
    hide Items;
    ItemAt(id, m, q);
    if PlacesAbove(m, q, s, p) {
      var u := ItemOf(id, m.node, m.snapshot, q[|m.node|..]);
      assert Higher(placed + Items(id, m), prio, q, s, p) == Higher(placed, prio, q, s, p) + {u};
    } else {
      assert Higher(placed + Items(id, m), prio, q, s, p) == Higher(placed, prio, q, s, p);
    }
  }

  predicate PlacesAbove(m: MountPoint, q: Path, s: StorageId, p: int) {
    Covers(m, m.snapshot.nodes.Keys, q) && StorageAt(m, q) == s && m.priority > p
  }

  lemma MountedCountAt(nodes: Nodes, m: MountPoint, q: Path, s: StorageId, p: int)
    requires q in MountedPart(nodes, m, m.snapshot.nodes.Keys)
    ensures CountAbove(MountedPart(nodes, m, m.snapshot.nodes.Keys)[q], s, p)
         == CountAbove(ListAt(nodes, q), s, p) + if PlacesAbove(m, q, s, p) then 1 else 0
  {
    hide CountAbove, Insert;
    if Covers(m, m.snapshot.nodes.Keys, q) {
      InsertAbove(ListAt(nodes, q), Mounted(StorageAt(m, q), m.priority), s, p);
    }
  }

  /** Mounting keeps the priorities, and makes up for none that are missing. */
  lemma MountKeeps(nodes: Nodes, placed: set<Item>, prio: map<nat, int>, id: nat, m: MountPoint)
    requires Items(id, m) !! placed && id in prio && prio[id] == m.priority
    requires forall u | u in Items(id, m) :: u.id == id
    ensures var nodes', placed' := MountedPart(nodes, m, m.snapshot.nodes.Keys), placed + Items(id, m);
      && (Kept(nodes, placed, prio) ==> Kept(nodes', placed', prio))
      && (Dominated(nodes, placed, prio) ==> Dominated(nodes', placed', prio))
      && (Lacking(nodes, placed, prio) ==> Lacking(nodes', placed', prio))
  {
    hide MountedPart, Items, Insert, Kept, Dominated, Lacking;
    if Kept(nodes, placed, prio) {
      MountKeepsAll(nodes, placed, prio, id, m);
    }
    MountCounts(nodes, placed, prio, id, m);
    if Dominated(nodes, placed, prio) {
      MountDominated(nodes, placed, prio, id, m);
    }
    if Lacking(nodes, placed, prio) {
      MountLacking(nodes, placed, prio, id, m);
    }
  }

  lemma MountKeepsAll(nodes: Nodes, placed: set<Item>, prio: map<nat, int>, id: nat, m: MountPoint)
    requires Items(id, m) !! placed && id in prio && prio[id] == m.priority
    requires (forall u | u in Items(id, m) :: u.id == id) && Kept(nodes, placed, prio)
    ensures Kept(MountedPart(nodes, m, m.snapshot.nodes.Keys), placed + Items(id, m), prio)
  {
    hide MountedPart, Marked, Items, Insert;
    var nodes', placed' := MountedPart(nodes, m, m.snapshot.nodes.Keys), placed + Items(id, m);
    MountedNodes(nodes, id, m);
    forall q | q in nodes'
      ensures ListKept(nodes'[q], placed', prio, q)
    {
      ListAtKept(nodes, placed, prio, q);
      forall x: Mounted
        ensures multiset(nodes'[q])[x] == |Marked(placed', prio, q, x)|
      {
        MountedListAt(nodes, m, q, x);
        MarkedWith(placed, prio, id, m, q, x);
      }
    }
  }

  lemma MountCounts(nodes: Nodes, placed: set<Item>, prio: map<nat, int>, id: nat, m: MountPoint)
    requires Items(id, m) !! placed && id in prio && prio[id] == m.priority
    requires forall u | u in Items(id, m) :: u.id == id
    ensures var nodes', placed' := MountedPart(nodes, m, m.snapshot.nodes.Keys), placed + Items(id, m);
      forall q, s, p | q in nodes' ::
        CountAbove(nodes'[q], s, p) + |Higher(placed, prio, q, s, p)| == CountAbove(ListAt(nodes, q), s, p) + |Higher(placed', prio, q, s, p)|
  {
    hide MountedPart, Higher, Items, CountAbove;
    var nodes', placed' := MountedPart(nodes, m, m.snapshot.nodes.Keys), placed + Items(id, m);
    forall q, s, p | q in nodes'
      ensures CountAbove(nodes'[q], s, p) + |Higher(placed, prio, q, s, p)| == CountAbove(ListAt(nodes, q), s, p) + |Higher(placed', prio, q, s, p)|
    {
      MountedCountAt(nodes, m, q, s, p);
      HigherWith(placed, prio, id, m, q, s, p);
    }
  }

  lemma MountDominated(nodes: Nodes, placed: set<Item>, prio: map<nat, int>, id: nat, m: MountPoint)
    requires Dominated(nodes, placed, prio)
    requires var nodes', placed' := MountedPart(nodes, m, m.snapshot.nodes.Keys), placed + Items(id, m);
      forall q, s, p | q in nodes' ::
        CountAbove(nodes'[q], s, p) + |Higher(placed, prio, q, s, p)| == CountAbove(ListAt(nodes, q), s, p) + |Higher(placed', prio, q, s, p)|
    ensures Dominated(MountedPart(nodes, m, m.snapshot.nodes.Keys), placed + Items(id, m), prio)
  {
    hide MountedPart, Higher, Items;
    var nodes', placed' := MountedPart(nodes, m, m.snapshot.nodes.Keys), placed + Items(id, m);
    MountedNodes(nodes, id, m);
    forall q, s, p | q in nodes'
      ensures CountAbove(nodes'[q], s, p) <= |Higher(placed', prio, q, s, p)|
    {
      assert q in nodes ==> ListDominated(nodes[q], placed, prio, q);
    }
  }

  lemma MountLacking(nodes: Nodes, placed: set<Item>, prio: map<nat, int>, id: nat, m: MountPoint)
    requires Lacking(nodes, placed, prio)
    requires var nodes', placed' := MountedPart(nodes, m, m.snapshot.nodes.Keys), placed + Items(id, m);
      forall q, s, p | q in nodes' ::
        CountAbove(nodes'[q], s, p) + |Higher(placed, prio, q, s, p)| == CountAbove(ListAt(nodes, q), s, p) + |Higher(placed', prio, q, s, p)|
    ensures Lacking(MountedPart(nodes, m, m.snapshot.nodes.Keys), placed + Items(id, m), prio)
  {
    hide MountedPart, Higher, Items, CountAbove;
    var nodes', placed' := MountedPart(nodes, m, m.snapshot.nodes.Keys), placed + Items(id, m);
    MountedNodes(nodes, id, m);
    var q, s, p :| q in nodes && CountAbove(nodes[q], s, p) < |Higher(placed, prio, q, s, p)|;
    assert q in nodes' && CountAbove(nodes'[q], s, p) < |Higher(placed', prio, q, s, p)|;
  }

  lemma MountedNodes(nodes: Nodes, id: nat, m: MountPoint)
    ensures nodes.Keys <= MountedPart(nodes, m, m.snapshot.nodes.Keys).Keys
    ensures forall u | u in Items(id, m) :: u.at in MountedPart(nodes, m, m.snapshot.nodes.Keys)
  {
    hide Split;
    forall u | u in Items(id, m)
      ensures u.at in MountedPart(nodes, m, m.snapshot.nodes.Keys)
    {
      var r :| r in m.snapshot.nodes && u == ItemOf(id, m.node, m.snapshot, r);
    }
  }

  lemma ListAtKept(nodes: Nodes, placed: set<Item>, prio: map<nat, int>, q: Path)
    requires Kept(nodes, placed, prio)
    ensures ListKept(ListAt(nodes, q), placed, prio, q)
  {
    if q !in nodes {
      forall x: Mounted
        ensures Marked(placed, prio, q, x) == {}
      {
      }
    }
  }

  // ---- Unmounting --------------------------------------------------------------------------

  /** No mount point of higher priority has placed a storage of mount point `id` where `id` has. */
  ghost predicate Unrivalled(placed: set<Item>, prio: map<nat, int>, items: set<Item>, priority: int) {
    forall u, w | u in items && w in placed && w.at == u.at && w.storage == u.storage && w.id in prio :: prio[w.id] <= priority
  }

  /** Unmounting keeps the priorities if no rival has a higher one.  It never leaves too many entries above
      a priority, and with a rival of higher priority too few. */
  lemma UnmountKeeps(nodes: Nodes, placed: set<Item>, prio: map<nat, int>, id: nat, m: MountPoint)
    requires Items(id, m) <= placed && id in prio && prio[id] == m.priority
    requires forall u | u in Items(id, m) :: u.id == id
    requires forall q | q in nodes :: Sorted(nodes[q])
    ensures var nodes', placed' := UnmountedPart(nodes, m, m.snapshot.nodes.Keys), placed - Items(id, m);
      && (Kept(nodes, placed, prio) && Unrivalled(placed, prio, Items(id, m), m.priority) ==> Kept(nodes', placed', prio))
      && (Dominated(nodes, placed, prio) ==> Dominated(nodes', placed', prio))
      && (Dominated(nodes, placed, prio) && !Unrivalled(placed, prio, Items(id, m), m.priority) ==> Lacking(nodes', placed', prio))
  {
    hide Kept, Dominated, Lacking, Unrivalled, Items, UnmountedPart, Sorted;
    if Kept(nodes, placed, prio) && Unrivalled(placed, prio, Items(id, m), m.priority) {
      UnmountKeepsAll(nodes, placed, prio, id, m);
    }
    if Dominated(nodes, placed, prio) {
      UnmountDominated(nodes, placed, prio, id, m);
      if !Unrivalled(placed, prio, Items(id, m), m.priority) {
        UnmountLacking(nodes, placed, prio, id, m);
      }
    }
  }

  lemma UnmountKeepsAll(nodes: Nodes, placed: set<Item>, prio: map<nat, int>, id: nat, m: MountPoint)
    requires Items(id, m) <= placed && id in prio && prio[id] == m.priority
    requires forall u | u in Items(id, m) :: u.id == id
    requires forall q | q in nodes :: Sorted(nodes[q])
    requires Kept(nodes, placed, prio) && Unrivalled(placed, prio, Items(id, m), m.priority)
    ensures Kept(UnmountedPart(nodes, m, m.snapshot.nodes.Keys), placed - Items(id, m), prio)
  {
    hide Marked, Items, UnmountedPart, Sorted, ListKept, Unrivalled;
    var nodes' := UnmountedPart(nodes, m, m.snapshot.nodes.Keys);
    UnmountedNodes(nodes, m);
    forall q | q in nodes'
      ensures ListKept(nodes'[q], placed - Items(id, m), prio, q)
    {
      UnmountedListAt(nodes, placed, prio, id, m, q);
    }
  }

  lemma UnmountedNodes(nodes: Nodes, m: MountPoint)
    ensures UnmountedPart(nodes, m, m.snapshot.nodes.Keys).Keys == nodes.Keys
  {
  }

  lemma UnmountedListAt(nodes: Nodes, placed: set<Item>, prio: map<nat, int>, id: nat, m: MountPoint, q: Path)
    requires Kept(nodes, placed, prio) && Items(id, m) <= placed && id in prio && prio[id] == m.priority && q in nodes
    requires forall u | u in Items(id, m) :: u.id == id
    requires Sorted(nodes[q]) && Unrivalled(placed, prio, Items(id, m), m.priority)
    ensures q in UnmountedPart(nodes, m, m.snapshot.nodes.Keys)
    ensures ListKept(UnmountedPart(nodes, m, m.snapshot.nodes.Keys)[q], placed - Items(id, m), prio, q)
  {
    hide Items, Insert, Sorted, Marked, FindStorage;
    var list, rest := nodes[q], placed - Items(id, m);
    assert ListKept(list, placed, prio, q);
    assert rest + Items(id, m) == placed;
    forall x: Mounted
      ensures multiset(list)[x] == |Marked(rest, prio, q, x)| + if Places(m, q, x) then 1 else 0
    {
      MarkedWith(rest, prio, id, m, q, x);
    }
    if Covers(m, m.snapshot.nodes.Keys, q) {
      var x := Mounted(StorageAt(m, q), m.priority);
      assert Places(m, q, x) && multiset(list)[x] > 0;
      assert x in list;
      ItemAt(id, m, q);
      TakenAway(list, rest, placed, prio, q, x);
    }
  }

  /** Taking the first entry of a storage off a list. */
  lemma TakenAway(list: seq<Mounted>, rest: set<Item>, placed: set<Item>, prio: map<nat, int>, q: Path, x: Mounted)
    requires Sorted(list) && x in list && ListKept(list, placed, prio, q)
    requires forall y: Mounted :: multiset(list)[y] == |Marked(rest, prio, q, y)| + if y == x then 1 else 0
    requires forall w | w in placed && w.at == q && w.storage == x.storage && w.id in prio :: prio[w.id] <= x.priority
    ensures ListKept(RemoveListed(list, x.storage), rest, prio, q)
  {
    hide Sorted, FindStorage, Marked;
    RemoveTakesOwnEntry(list, x);
    RivalListed(list, placed, prio, q, x);
    RemovedEntry(list, FindStorage(list, x.storage));
  }

  lemma RivalListed(list: seq<Mounted>, placed: set<Item>, prio: map<nat, int>, q: Path, x: Mounted)
    requires ListKept(list, placed, prio, q)
    ensures (exists i :: 0 <= i < |list| && list[i].storage == x.storage && list[i].priority > x.priority)
       <==> exists w :: w in placed && w.at == q && w.storage == x.storage && w.id in prio && prio[w.id] > x.priority
  {
    if exists i :: 0 <= i < |list| && list[i].storage == x.storage && list[i].priority > x.priority {
      var i :| 0 <= i < |list| && list[i].storage == x.storage && list[i].priority > x.priority;
      assert multiset(list)[list[i]] > 0;
      assert Marked(placed, prio, q, list[i]) != {};
      var w :| w in Marked(placed, prio, q, list[i]);
      assert w in placed && w.at == q && w.storage == x.storage && w.id in prio && prio[w.id] > x.priority;
    }
    if exists w :: w in placed && w.at == q && w.storage == x.storage && w.id in prio && prio[w.id] > x.priority {
      var w :| w in placed && w.at == q && w.storage == x.storage && w.id in prio && prio[w.id] > x.priority;
      var y := Mounted(x.storage, prio[w.id]);
      assert w in Marked(placed, prio, q, y);
      assert multiset(list)[y] > 0;
      assert y in list;
    }
  }

  lemma UnmountedCountAt(nodes: Nodes, placed: set<Item>, prio: map<nat, int>, id: nat, m: MountPoint, q: Path, s: StorageId, p: int)
    requires Items(id, m) <= placed && id in prio && prio[id] == m.priority && q in nodes && Sorted(nodes[q])
    requires forall u | u in Items(id, m) :: u.id == id
    ensures var nodes', rest := UnmountedPart(nodes, m, m.snapshot.nodes.Keys), placed - Items(id, m);
      var here := Covers(m, m.snapshot.nodes.Keys, q) && StorageAt(m, q) == s;
      && q in nodes'
      && CountAbove(nodes'[q], s, p) == CountAbove(nodes[q], s, p) - (if here && CountAbove(nodes[q], s, p) > 0 then 1 else 0)
      && |Higher(rest, prio, q, s, p)| == |Higher(placed, prio, q, s, p)| - if here && m.priority > p then 1 else 0
  {
    hide Items, CountAbove, RemoveListed, Higher, Sorted;
    var rest := placed - Items(id, m);
    assert rest + Items(id, m) == placed;
    HigherWith(rest, prio, id, m, q, s, p);
    if Covers(m, m.snapshot.nodes.Keys, q) {
      RemoveAbove(nodes[q], StorageAt(m, q), s, p);
    }
  }

  lemma UnmountDominated(nodes: Nodes, placed: set<Item>, prio: map<nat, int>, id: nat, m: MountPoint)
    requires Items(id, m) <= placed && id in prio && prio[id] == m.priority
    requires forall u | u in Items(id, m) :: u.id == id
    requires (forall q | q in nodes :: Sorted(nodes[q])) && Dominated(nodes, placed, prio)
    ensures Dominated(UnmountedPart(nodes, m, m.snapshot.nodes.Keys), placed - Items(id, m), prio)
  {
    hide Items, CountAbove, UnmountedPart, Higher, Sorted, Covers;
    var nodes', rest := UnmountedPart(nodes, m, m.snapshot.nodes.Keys), placed - Items(id, m);
    UnmountedNodes(nodes, m);
    forall q, s, p | q in nodes'
      ensures CountAbove(nodes'[q], s, p) <= |Higher(rest, prio, q, s, p)|
    {
      assert ListDominated(nodes[q], placed, prio, q);
      UnmountedCountAt(nodes, placed, prio, id, m, q, s, p);
    }
  }

  lemma UnmountLacking(nodes: Nodes, placed: set<Item>, prio: map<nat, int>, id: nat, m: MountPoint)
    requires Items(id, m) <= placed && id in prio && prio[id] == m.priority
    requires forall u | u in Items(id, m) :: u.id == id
    requires (forall q | q in nodes :: Sorted(nodes[q])) && Dominated(nodes, placed, prio)
    requires !Unrivalled(placed, prio, Items(id, m), m.priority)
    ensures Lacking(UnmountedPart(nodes, m, m.snapshot.nodes.Keys), placed - Items(id, m), prio)
  {
    hide Items, CountAbove, UnmountedPart, Sorted;
    var u, w :| u in Items(id, m) && w in placed && w.at == u.at && w.storage == u.storage && w.id in prio && prio[w.id] > m.priority;
    var q, s, p := u.at, u.storage, m.priority;
    ItemAt(id, m, q);
    assert ListDominated(nodes[q], placed, prio, q);
    assert w in Higher(placed, prio, q, s, p);
    UnmountedCountAt(nodes, placed, prio, id, m, q, s, p);
    assert CountAbove(UnmountedPart(nodes, m, m.snapshot.nodes.Keys)[q], s, p) < |Higher(placed - Items(id, m), prio, q, s, p)|;
  }

  // ---- Rivals ------------------------------------------------------------------------------

  /** The root of `b` lies below the root of `a` in the volume, and `a` places it where `b` does. */
  predicate Above(a: MountPoint, b: MountPoint) {
    var p, q := Split(a.snapshot.nodePath, '/'), Split(b.snapshot.nodePath, '/');
    a.node <= b.node && p <= q && b.node[|a.node|..] == q[|p|..]
  }

  /** The two mount points place a storage at the same node. */
  predicate Overlap(a: MountPoint, b: MountPoint) {
    a.snapshot.volume == b.snapshot.volume && (Above(a, b) || Above(b, a))
  }

  /** Another mount point, of higher priority, places one of the storages where mount point `id` does. */
  predicate Outranked(mountPoints: map<nat, MountPoint>, id: nat) {
    id in mountPoints && exists w | w in mountPoints ::
      mountPoints[w].priority > mountPoints[id].priority && Overlap(mountPoints[w], mountPoints[id])
  }

  /** The same, seen in the lists. */
  ghost predicate Rivalled(placed: set<Item>, mountPoints: map<nat, MountPoint>, id: nat) {
    id in mountPoints
    && !Unrivalled(placed, Priorities(mountPoints), Items(id, mountPoints[id]), mountPoints[id].priority)
  }

  ghost predicate NoneOutranked(mountPoints: map<nat, MountPoint>, volume: string, nodePath: string) {
    forall id | id in mountPoints && Candidate(mountPoints[id].snapshot, volume, nodePath) :: !Outranked(mountPoints, id)
  }

  /** Mount point `c` is the only one to be mounted anew. */
  ghost predicate OnlyCandidate(mountPoints: map<nat, MountPoint>, c: nat, volume: string, nodePath: string) {
    forall id :: id in mountPoints && Candidate(mountPoints[id].snapshot, volume, nodePath) <==> id == c
  }

  /** A storage is that of one volume node. */
  ghost predicate Consistent(placed: set<Item>) {
    && (forall u | u in placed :: u.storage.volume == u.volume && u.storage.path == u.path)
    && (forall u, w | u in placed && w in placed && u.volume == w.volume && u.path == w.path :: u.storage == w.storage)
  }

  lemma UsesConsistent(reg: Registry, uses: set<Item>)
    requires RegOk(reg, uses, {})
    ensures Consistent(uses)
  {
    hide Key, KeyOk, TreeOk;
    forall u | u in uses
      ensures u.storage.volume == u.volume && u.storage.path == u.path
    {
      assert UseOk(reg, u) && NodeOk(reg, uses, {}, u.volume, u.path);
    }
    forall u, w | u in uses && w in uses && u.volume == w.volume && u.path == w.path
      ensures u.storage == w.storage
    {
      assert UseOk(reg, u) && UseOk(reg, w);
    }
  }

  lemma ConsistentPart(uses: set<Item>, placed: set<Item>)
    requires Consistent(uses) && placed <= uses
    ensures Consistent(placed)
  {
  }

  lemma SharedItem(a: MountPoint, b: MountPoint, r: Path, s: Path)
    requires a.snapshot.volume == b.snapshot.volume && a.node + r == b.node + s
    requires Split(a.snapshot.nodePath, '/') + r == Split(b.snapshot.nodePath, '/') + s
    ensures Overlap(a, b)
  {
    hide Split;
    var p, q := Split(a.snapshot.nodePath, '/'), Split(b.snapshot.nodePath, '/');
    if |r| >= |s| {
      SplitOff(a.node, r, b.node, s);
      SplitOff(p, r, q, s);
    } else {
      SplitOff(b.node, s, a.node, r);
      SplitOff(q, s, p, r);
    }
  }

  lemma SplitOff(a: Path, r: Path, b: Path, s: Path)
    requires a + r == b + s && |r| >= |s|
    ensures a <= b && b[|a|..] == r[..|r| - |s|]
  {
    var n := |r| - |s|;
    assert (a + r)[..|a| + n] == a + r[..n];
    assert (b + s)[..|b|] == b;
    assert |a| + n == |b|;
  }

  /** A rival in the lists is a mount point that outranks. */
  lemma RivalOutranks(placed: set<Item>, mountPoints: map<nat, MountPoint>, id: nat)
    requires placed == AllItems(mountPoints) && Consistent(placed)
    ensures Rivalled(placed, mountPoints, id) ==> Outranked(mountPoints, id)
  {
    hide Split, Overlap;
    if Rivalled(placed, mountPoints, id) {
      var m := mountPoints[id];
      var u, w :| u in Items(id, m) && w in placed && w.at == u.at && w.storage == u.storage && mountPoints[w.id].priority > m.priority;
      ItemsOfOne(mountPoints, id);
      ItemsOfOne(mountPoints, w.id);
      var r :| r in m.snapshot.nodes && u == ItemOf(id, m.node, m.snapshot, r);
      var b := mountPoints[w.id];
      var s :| s in b.snapshot.nodes && w == ItemOf(w.id, b.node, b.snapshot, s);
      SharedItem(b, m, s, r);
    }
  }

  /** The mount points show at least each other's roots, and their own. */
  ghost predicate RootsShown(mountPoints: map<nat, MountPoint>) {
    forall a, b | a in mountPoints && b in mountPoints :: RootShown(mountPoints[a], mountPoints[b])
  }

  predicate RootShown(a: MountPoint, b: MountPoint) {
    var p, q := Split(a.snapshot.nodePath, '/'), Split(b.snapshot.nodePath, '/');
    a.snapshot.volume == b.snapshot.volume && p <= q ==> q[|p|..] in a.snapshot.nodes
  }

  /** What shows the current subtree of its volume shows the roots of all mount points. */
  lemma ExactShowsRoots(trees: map<string, Tree>, a: MountPoint, b: MountPoint)
    requires Exact(trees, a.snapshot) && NodeIn(trees, b.snapshot)
    ensures RootShown(a, b)
  {
    hide Split;
    var p, q := Split(a.snapshot.nodePath, '/'), Split(b.snapshot.nodePath, '/');
    if a.snapshot.volume == b.snapshot.volume && p <= q {
      BelowIs(trees[a.snapshot.volume], p, q[|p|..]);
      assert p + q[|p|..] == q;
    }
  }

  lemma OutrankedIsRivalled(placed: set<Item>, mountPoints: map<nat, MountPoint>, id: nat)
    requires placed == AllItems(mountPoints) && Consistent(placed) && RootsShown(mountPoints)
    ensures Outranked(mountPoints, id) ==> Rivalled(placed, mountPoints, id)
  {
    hide Split, RootShown, Above, Items;
    if Outranked(mountPoints, id) {
      var w :| w in mountPoints && mountPoints[w].priority > mountPoints[id].priority && Overlap(mountPoints[w], mountPoints[id]);
      ItemsOfOne(mountPoints, id);
      ItemsOfOne(mountPoints, w);
      assert RootShown(mountPoints[w], mountPoints[id]) && RootShown(mountPoints[id], mountPoints[w]);
      assert RootShown(mountPoints[id], mountPoints[id]) && RootShown(mountPoints[w], mountPoints[w]);
      var a, b;
      if Above(mountPoints[w], mountPoints[id]) {
        a, b := RootShared(w, mountPoints[w], id, mountPoints[id]);
      } else {
        b, a := RootShared(id, mountPoints[id], w, mountPoints[w]);
      }
      assert b in placed && a in placed && a.storage == b.storage;
      assert b in Items(id, mountPoints[id]) && a.id in Priorities(mountPoints);
    }
  }

  lemma RootShared(i: nat, a: MountPoint, j: nat, b: MountPoint) returns (u: Item, w: Item)
    requires Above(a, b) && a.snapshot.volume == b.snapshot.volume && RootShown(a, b) && RootShown(b, b)
    ensures u in Items(i, a) && w in Items(j, b) && u.id == i && w.id == j
    ensures u.at == w.at && u.volume == w.volume && u.path == w.path
  {
    hide Split;
    var p, q := Split(a.snapshot.nodePath, '/'), Split(b.snapshot.nodePath, '/');
    var r := q[|p|..];
    assert p + r == q && a.node + r == b.node && q[|q|..] == [];
    assert b.node + [] == b.node && q + [] == q;
    u, w := ItemOf(i, a.node, a.snapshot, r), ItemOf(j, b.node, b.snapshot, []);
  }

  /** Being outranked does not depend on what the mount points show. */
  lemma OutrankedSame(a: map<nat, MountPoint>, b: map<nat, MountPoint>, id: nat)
    requires SameMounts(a, b)
    ensures Outranked(a, id) <==> Outranked(b, id)
  {
    hide Split;
    forall w | w in a && id in a
      ensures Overlap(a[w], a[id]) <==> Overlap(b[w], b[id])
    {
    }
  }

  // ---- Mounting, unmounting and remounting -------------------------------------------------

  lemma ItemIds(id: nat, m: MountPoint)
    ensures forall u | u in Items(id, m) :: u.id == id
  {
    hide Split;
  }

  lemma SamePriorities(mountPoints: map<nat, MountPoint>, id: nat, m: MountPoint)
    requires id in mountPoints && m.priority == mountPoints[id].priority
    ensures Priorities(mountPoints[id := m]) == Priorities(mountPoints)
  {
  }

  /** Mounting a mount point anew keeps the priorities if it has no rival of higher priority in the lists.  It
      never leaves too many entries above a priority, and with such a rival too few. */
  lemma RemountKeeps(nodes: Nodes, placed: set<Item>, mountPoints: map<nat, MountPoint>, id: nat, m': MountPoint)
    requires id in mountPoints && m'.priority == mountPoints[id].priority && Items(id, mountPoints[id]) <= placed
    requires NoneOf(placed - Items(id, mountPoints[id]), id)
    requires forall q | q in nodes :: Sorted(nodes[q])
    ensures var m := mountPoints[id];
      var nodes' := MountedPart(UnmountedPart(nodes, m, m.snapshot.nodes.Keys), m', m'.snapshot.nodes.Keys);
      var placed', prio, prio' := placed - Items(id, m) + Items(id, m'), Priorities(mountPoints), Priorities(mountPoints[id := m']);
      && (Kept(nodes, placed, prio) && !Rivalled(placed, mountPoints, id) ==> Kept(nodes', placed', prio'))
      && (Dominated(nodes, placed, prio) ==> Dominated(nodes', placed', prio'))
      && (Dominated(nodes, placed, prio) && Rivalled(placed, mountPoints, id) ==> Lacking(nodes', placed', prio'))
  {
    hide Kept, Dominated, Lacking, Unrivalled, Items, MountedPart, UnmountedPart, Sorted;
    var m, prio := mountPoints[id], Priorities(mountPoints);
    SamePriorities(mountPoints, id, m');
    ItemIds(id, m);
    ItemIds(id, m');
    MountKeeps(UnmountedPart(nodes, m, m.snapshot.nodes.Keys), placed - Items(id, m), prio, id, m');
    UnmountKeeps(nodes, placed, prio, id, m);
  }

  lemma UnmountedKeeps(nodes: Nodes, placed: set<Item>, mountPoints: map<nat, MountPoint>, id: nat)
    requires id in mountPoints && placed == AllItems(mountPoints) && forall q | q in nodes :: Sorted(nodes[q])
    requires Kept(nodes, placed, Priorities(mountPoints))
    ensures var m := mountPoints[id];
      Kept(UnmountedPart(nodes, m, m.snapshot.nodes.Keys), placed - Items(id, m), Priorities(mountPoints - {id}))
      <==> !Rivalled(placed, mountPoints, id)
  {
    hide Kept, Dominated, Lacking, Unrivalled, Items, UnmountedPart, Sorted, AllItems;
    var m, prio := mountPoints[id], Priorities(mountPoints);
    var nodes', rest := UnmountedPart(nodes, m, m.snapshot.nodes.Keys), placed - Items(id, m);
    ItemsOfOne(mountPoints, id);
    KeptIsDominated(nodes, placed, prio);
    UnmountKeeps(nodes, placed, prio, id, m);
    FewerPriorities(nodes', rest, prio, Priorities(mountPoints - {id}));
    if Rivalled(placed, mountPoints, id) {
      LackingIsNotKept(nodes', rest, prio);
    }
  }

  /** Only the priorities of the placed items matter. */
  lemma FewerPriorities(nodes: Nodes, placed: set<Item>, prio: map<nat, int>, prio': map<nat, int>)
    requires forall u | u in placed && u.id in prio :: u.id in prio' && prio'[u.id] == prio[u.id]
    requires forall i | i in prio' :: i in prio && prio'[i] == prio[i]
    ensures Kept(nodes, placed, prio) <==> Kept(nodes, placed, prio')
  {
    forall q, x: Mounted
      ensures Marked(placed, prio, q, x) == Marked(placed, prio', q, x)
    {
    }
    hide Marked;
  }

  /** A new mount point, with its virtual nodes. */
  lemma Placed(nodes: Nodes, placed: set<Item>, mountPoints: map<nat, MountPoint>, id: nat, m: MountPoint)
    requires id !in mountPoints && Items(id, m) !! placed && forall u | u in placed :: u.id in mountPoints
    ensures var nodes' := MountedPart(WithPath(nodes, m.node), m, m.snapshot.nodes.Keys);
      var placed', prio, prio' := placed + Items(id, m), Priorities(mountPoints), Priorities(mountPoints[id := m]);
      && (Kept(nodes, placed, prio) ==> Kept(nodes', placed', prio'))
      && (Lacking(nodes, placed, prio) ==> !Kept(nodes', placed', prio'))
  {
    hide Kept, Lacking, Dominated, Items, MountedPart, WithPath;
    var prio, prio' := Priorities(mountPoints), Priorities(mountPoints[id := m]);
    var created := WithPath(nodes, m.node);
    ItemIds(id, m);
    WithPathIs(nodes, m.node);
    MorePriorities(nodes, placed, prio, prio', created);
    MoreLacking(nodes, placed, prio, prio', created);
    MountKeeps(created, placed, prio', id, m);
    if Lacking(nodes, placed, prio) {
      LackingIsNotKept(MountedPart(created, m, m.snapshot.nodes.Keys), placed + Items(id, m), prio');
    }
  }

  lemma WithPathIs(nodes: Nodes, path: Path)
    ensures nodes.Keys <= WithPath(nodes, path).Keys
    ensures forall q | q in WithPath(nodes, path) :: WithPath(nodes, path)[q] == ListAt(nodes, q)
  {
  }

  lemma MorePriorities(nodes: Nodes, placed: set<Item>, prio: map<nat, int>, prio': map<nat, int>, created: Nodes)
    requires forall i | i in prio :: i in prio' && prio'[i] == prio[i]
    requires forall u | u in placed :: u.id in prio
    requires nodes.Keys <= created.Keys && forall q | q in created :: created[q] == ListAt(nodes, q)
    ensures Kept(nodes, placed, prio) ==> Kept(created, placed, prio')
  {
    hide ListKept;
    if Kept(nodes, placed, prio) {
      forall q | q in created
        ensures ListKept(created[q], placed, prio', q)
      {
        ListAtKept(nodes, placed, prio, q);
        SameMarked(placed, prio, prio', q, created[q]);
      }
    }
  }

  lemma SameMarked(placed: set<Item>, prio: map<nat, int>, prio': map<nat, int>, q: Path, list: seq<Mounted>)
    requires forall i | i in prio :: i in prio' && prio'[i] == prio[i]
    requires forall u | u in placed :: u.id in prio
    ensures forall x: Mounted :: Marked(placed, prio, q, x) == Marked(placed, prio', q, x)
    ensures ListKept(list, placed, prio, q) <==> ListKept(list, placed, prio', q)
  {
    forall x: Mounted
      ensures Marked(placed, prio, q, x) == Marked(placed, prio', q, x)
    {
    }
    hide Marked;
  }

  lemma MoreLacking(nodes: Nodes, placed: set<Item>, prio: map<nat, int>, prio': map<nat, int>, created: Nodes)
    requires forall i | i in prio :: i in prio' && prio'[i] == prio[i]
    requires forall u | u in placed :: u.id in prio
    requires nodes.Keys <= created.Keys && forall q | q in created :: created[q] == ListAt(nodes, q)
    ensures Lacking(nodes, placed, prio) ==> Lacking(created, placed, prio')
  {
    hide CountAbove;
    if Lacking(nodes, placed, prio) {
      var q, s, p :| q in nodes && CountAbove(nodes[q], s, p) < |Higher(placed, prio, q, s, p)|;
      assert Higher(placed, prio', q, s, p) == Higher(placed, prio, q, s, p);
      assert q in created && CountAbove(created[q], s, p) < |Higher(placed, prio', q, s, p)|;
    }
  }
}
