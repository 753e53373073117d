/** The storages of one virtual node, by descending priority. */
module MountLists {
  import opened RegistryModel

  datatype Mounted = Mounted(storage: StorageId, priority: int)

  predicate Sorted(list: seq<Mounted>) {
    forall i, j | 0 <= i < j < |list| :: list[i].priority >= list[j].priority
  }

  /** `upper_bound` with the source's comparison: the first entry of lower priority. */
  function UpperBound(list: seq<Mounted>, priority: int): (n: nat)
    ensures n <= |list| && (n < |list| ==> list[n].priority < priority)
    ensures forall i | 0 <= i < n :: list[i].priority >= priority
  {
    if list == [] || priority > list[0].priority then 0 else UpperBound(list[1..], priority) + 1
  }

  function Insert(list: seq<Mounted>, m: Mounted): seq<Mounted> {
    var n := UpperBound(list, m.priority);
    list[..n] + [m] + list[n..]
  }

  /** `find_if` on the storage; the length of the list if there is none. */
  function FindStorage(list: seq<Mounted>, s: StorageId): (n: nat)
    ensures n <= |list| && (n < |list| ==> list[n].storage == s)
    ensures forall i | 0 <= i < n :: list[i].storage != s
  {
    if list == [] || list[0].storage == s then 0 else FindStorage(list[1..], s) + 1
  }

  function Remove(list: seq<Mounted>, s: StorageId): seq<Mounted>
    requires FindStorage(list, s) < |list|
  {
    var n := FindStorage(list, s);
    list[..n] + list[n + 1..]
  }

  /** How often a storage is listed. */
  function Times(list: seq<Mounted>, s: StorageId): nat {
    if list == [] then 0 else (if list[0].storage == s then 1 else 0) + Times(list[1..], s)
  }

  lemma {:induction false} TimesConcat(a: seq<Mounted>, b: seq<Mounted>, s: StorageId)
    ensures Times(a + b, s) == Times(a, s) + Times(b, s)
  {
    if a == [] {
      assert a + b == b;
    } else {
      assert (a + b)[1..] == a[1..] + b;
      TimesConcat(a[1..], b, s);
    }
  }

  lemma {:induction false} ListedIsFound(list: seq<Mounted>, s: StorageId)
    ensures Times(list, s) > 0 <==> FindStorage(list, s) < |list|
  {
    if list != [] && list[0].storage != s {
      ListedIsFound(list[1..], s);
    }
  }

  lemma InsertIsSorted(list: seq<Mounted>, m: Mounted)
    requires Sorted(list)
    ensures Sorted(Insert(list, m))
  {
  }

  /** Entry `m` has come in behind all entries of its own priority or a higher one, and before all lower ones. */
  ghost predicate Entered(list: seq<Mounted>, list': seq<Mounted>, m: Mounted) {
    exists n :: 0 <= n <= |list| && list' == list[..n] + [m] + list[n..]
      && (forall i | 0 <= i < n :: list[i].priority >= m.priority)
      && (forall i | n <= i < |list| :: list[i].priority < m.priority)
  }

  lemma InsertEnters(list: seq<Mounted>, m: Mounted)
    requires Sorted(list)
    ensures Entered(list, Insert(list, m), m)
  {
    var n := UpperBound(list, m.priority);
    assert Insert(list, m) == list[..n] + [m] + list[n..];
    forall i | n <= i < |list|
      ensures list[i].priority < m.priority
    {
    }
  }

  /** The first entry of storage `s` has gone, if there is one, and the others stand as before. */
  ghost predicate Left(list: seq<Mounted>, list': seq<Mounted>, s: StorageId) {
    if forall i | 0 <= i < |list| :: list[i].storage != s then list' == list
    else exists n :: 0 <= n < |list| && list[n].storage == s && (forall i | 0 <= i < n :: list[i].storage != s)
           && list' == list[..n] + list[n + 1..]
  }

  lemma RemoveLeaves(list: seq<Mounted>, s: StorageId)
    ensures Left(list, if FindStorage(list, s) < |list| then Remove(list, s) else list, s)
  {
  }

  lemma InsertTimes(list: seq<Mounted>, m: Mounted, s: StorageId)
    ensures Times(Insert(list, m), s) == Times(list, s) + if m.storage == s then 1 else 0
  {
    var n := UpperBound(list, m.priority);
    TimesConcat(list[..n] + [m], list[n..], s);
    TimesConcat(list[..n], [m], s);
    TimesConcat(list[..n], list[n..], s);
    assert list[..n] + list[n..] == list;
  }

  lemma RemoveIsSorted(list: seq<Mounted>, s: StorageId)
    requires Sorted(list) && FindStorage(list, s) < |list|
    ensures Sorted(Remove(list, s))
  {
  }

  lemma RemoveTimes(list: seq<Mounted>, gone: StorageId, s: StorageId)
    requires FindStorage(list, gone) < |list|
    ensures Times(Remove(list, gone), s) == Times(list, s) - if gone == s then 1 else 0
  {
    var n := FindStorage(list, gone);
    TimesConcat(list[..n], list[n + 1..], s);
    TimesConcat(list[..n] + [list[n]], list[n + 1..], s);
    TimesConcat(list[..n], [list[n]], s);
    assert list[..n] + [list[n]] + list[n + 1..] == list;
  }

  /** Unmounting takes the entry that the mount point placed, its priority included, exactly when no
      mount point of higher priority placed the same storage at the node. */
  lemma RemoveTakesOwnEntry(list: seq<Mounted>, m: Mounted)
    requires Sorted(list) && m in list
    ensures FindStorage(list, m.storage) < |list|
    ensures multiset(Remove(list, m.storage)) == multiset(list) - multiset{m}
       <==> !exists i | 0 <= i < |list| :: list[i].storage == m.storage && list[i].priority > m.priority
  {
    hide FindStorage, Remove;
    var n := FirstEntry(list, m);
    RemoveIs(list, m.storage);
    RemovedEntry(list, n);
    if list[n] != m {
      MultisetsDiffer(multiset(list), list[n], m);
    }
  }

  lemma RemoveIs(list: seq<Mounted>, s: StorageId)
    requires FindStorage(list, s) < |list|
    ensures var n := FindStorage(list, s); Remove(list, s) == list[..n] + list[n + 1..]
  {
  }

  /** The first entry of a storage has its highest priority. */
  lemma FirstEntry(list: seq<Mounted>, m: Mounted) returns (n: nat)
    requires Sorted(list) && m in list
    ensures n == FindStorage(list, m.storage) < |list| && list[n].storage == m.storage && (list[n] == m || list[n].priority > m.priority)
    ensures forall i | 0 <= i < |list| && list[i].storage == m.storage :: list[i].priority <= list[n].priority
  {
    hide FindStorage;
    var k :| 0 <= k < |list| && list[k] == m;
    n := FindStorage(list, m.storage);
    assert n <= k;
    forall i | 0 <= i < |list| && list[i].storage == m.storage
      ensures list[i].priority <= list[n].priority
    {
      assert n <= i;
    }
  }

  lemma RemovedEntry(list: seq<Mounted>, n: nat)
    requires n < |list|
    ensures multiset(list[..n] + list[n + 1..]) == multiset(list) - multiset{list[n]}
  {
    assert list == list[..n] + [list[n]] + list[n + 1..];
  }

  lemma MultisetsDiffer(ms: multiset<Mounted>, a: Mounted, b: Mounted)
    requires a in ms && a != b
    ensures ms - multiset{a} != ms - multiset{b}
  {
    assert (ms - multiset{a})[a] == ms[a] - 1 && (ms - multiset{b})[a] == ms[a];
  }

  /** Storage `s` mounted with priorities 5 and 1, and the mount point of priority 1 unmounted: the entry
      of priority 5 goes. */
  lemma UnmountTakesTheWrongEntry(s: StorageId)
    ensures var list := Insert(Insert([], Mounted(s, 1)), Mounted(s, 5));
      FindStorage(list, s) < |list| && Remove(list, s) == [Mounted(s, 1)]
  {
    hide Insert, Remove, FindStorage;
    var low, high := Mounted(s, 1), Mounted(s, 5);
    InsertInFront([], low);
    InsertInFront([low], high);
    assert [low] + [] == [low] && [high] + [low] == [high, low];
    RemoveFront([high, low]);
    assert [high, low][1..] == [low];
  }

  lemma InsertInFront(list: seq<Mounted>, m: Mounted)
    requires list == [] || m.priority > list[0].priority
    ensures Insert(list, m) == [m] + list
  {
  }

  lemma RemoveFront(list: seq<Mounted>)
    requires list != []
    ensures FindStorage(list, list[0].storage) == 0 && Remove(list, list[0].storage) == list[1..]
  {
  }
}
