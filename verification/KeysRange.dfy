/** Pages of keys: the range query over the storages of one virtual node. */
module KeysRange {

  function Take<T>(s: seq<T>, n: nat): seq<T> {
    if n <= |s| then s[..n] else s
  }

  function Drop<T>(s: seq<T>, n: nat): seq<T> {
    if n <= |s| then s[n..] else []
  }

  function ToSet<T>(s: seq<T>): set<T> {
    set x | x in s
  }

  /** A storage as the range query sees it: its size counts all records, its keys are those it lists. */
  datatype Source = Source(size: nat, keys: seq<string>)

  /** All keys of the storages, in order. */
  function Stream(sources: seq<Source>): seq<string> {
    if sources == [] then [] else sources[0].keys + Stream(sources[1..])
  }

  /** The keys of `s` that are not in `seen`, without repeats. */
  function Dedup<T(==)>(s: seq<T>, seen: set<T>): seq<T> {
    if s == [] then []
    else if s[0] in seen then Dedup(s[1..], seen)
    else [s[0]] + Dedup(s[1..], seen + {s[0]})
  }

  /** The page that the query returns for a stream of keys. */
  function Page<T(==)>(s: seq<T>, from: nat, count: nat): seq<T> {
    Take(Dedup(Drop(s, from), ToSet(Take(s, from))), count)
  }

  lemma {:induction false} DedupIs<T>(s: seq<T>, seen: set<T>)
    ensures forall x :: x in Dedup(s, seen) <==> x in s && x !in seen
    ensures forall i, j | 0 <= i < j < |Dedup(s, seen)| :: Dedup(s, seen)[i] != Dedup(s, seen)[j]
  {
    if s != [] {
      assert s == [s[0]] + s[1..];
      if s[0] in seen {
        DedupIs(s[1..], seen);
      } else {
        DedupIs(s[1..], seen + {s[0]});
      }
    }
  }

  lemma {:induction false} DedupConcat<T>(a: seq<T>, b: seq<T>, seen: set<T>)
    ensures Dedup(a + b, seen) == Dedup(a, seen) + Dedup(b, seen + ToSet(a))
  {
    if a == [] {
      assert a + b == b && seen + ToSet(a) == seen;
    } else {
      assert (a + b)[1..] == a[1..] + b;
      var seen' := if a[0] in seen then seen else seen + {a[0]};
      DedupConcat(a[1..], b, seen');
      assert seen' + ToSet(a[1..]) == seen + ToSet(a) by {
        assert a == [a[0]] + a[1..];
      }
    }
  }

  /** What a page is: no key twice, none of the keys that were skipped, only keys of the stream. */
  lemma PageHasNoRepeats<T>(s: seq<T>, from: nat, count: nat)
    ensures var page := Page(s, from, count);
      && |page| <= count
      && (forall i, j | 0 <= i < j < |page| :: page[i] != page[j])
      && (forall x | x in page :: x in Drop(s, from) && x !in Take(s, from))
  {
    var all := Dedup(Drop(s, from), ToSet(Take(s, from)));
    DedupIs(Drop(s, from), ToSet(Take(s, from)));
    forall x | x in Take(all, count)
      ensures x in all && x in Drop(s, from) && x !in Take(s, from)
    {
      assert x !in ToSet(Take(s, from));
    }
  }

  // ---- Paging ------------------------------------------------------------------------------

  /** The keys of the stream that a page of it skips, counted once each. */
  function Skipped<T(==)>(s: seq<T>, from: nat): nat {
    |Dedup(Take(s, from), {})|
  }

  /** A page is a slice of the distinct keys, but it starts after the distinct keys skipped. */
  lemma PageIs<T>(s: seq<T>, from: nat, count: nat)
    ensures Page(s, from, count) == Take(Drop(Dedup(s, {}), Skipped(s, from)), count)
  {
    var head, tail := Take(s, from), Drop(s, from);
    assert s == head + tail && {} + ToSet(head) == ToSet(head);
    DedupConcat(head, tail, {});
  }

  /** No new key comes after a repeated one. */
  ghost predicate RepeatsLast<T>(s: seq<T>) {
    forall i, j | 0 <= i < j < |s| && s[i] in s[..i] :: s[j] in s[..j]
  }

  lemma {:induction false} SkippedAll<T>(s: seq<T>)
    ensures |Dedup(s, {})| <= |s|
    ensures |Dedup(s, {})| == |s| <==> forall i | 0 <= i < |s| :: s[i] !in s[..i]
  {
    if s != [] {
      var n := |s| - 1;
      var init, last := s[..n], s[n];
      SkippedAll(init);
      assert s == init + [last] && {} + ToSet(init) == ToSet(init);
      DedupConcat(init, [last], {});
      assert Dedup([last], ToSet(init)) == if last in init then [] else [last];
      assert forall i | 0 <= i < n :: s[i] == init[i] && s[..i] == init[..i];
    }
  }

  /** Pages fit together, each one the slice of the distinct keys that its numbers ask for, exactly when no
      new key comes after a repeated one; in particular when the storages share no key. */
  lemma PagesFit<T>(s: seq<T>)
    ensures (forall from: nat, count: nat :: Page(s, from, count) == Take(Drop(Dedup(s, {}), from), count))
       <==> RepeatsLast(s)
  {
    if RepeatsLast(s) {
      forall from: nat, count: nat
        ensures Page(s, from, count) == Take(Drop(Dedup(s, {}), from), count)
      {
        PageIs(s, from, count);
        SkippedOr(s, from);
      }
    }
    if forall from: nat, count: nat :: Page(s, from, count) == Take(Drop(Dedup(s, {}), from), count) {
      forall i, j | 0 <= i < j < |s| && s[i] in s[..i]
        ensures s[j] in s[..j]
      {
        assert Page(s, i + 1, |s| + 1) == Take(Drop(Dedup(s, {}), i + 1), |s| + 1);
        RepeatShifts(s, i, j);
      }
    }
  }

  /** Nothing repeated was skipped, or nothing new is left. */
  lemma SkippedOr<T>(s: seq<T>, from: nat)
    requires RepeatsLast(s)
    ensures Drop(Dedup(s, {}), Skipped(s, from)) == Drop(Dedup(s, {}), from)
  {
    hide Dedup;
    var head, tail := Take(s, from), Drop(s, from);
    SkippedAll(head);
    DedupIs(tail, ToSet(head));
    assert s == head + tail && {} + ToSet(head) == ToSet(head);
    DedupConcat(head, tail, {});
    if from > |s| {
      SkippedAll(s);
      assert head == s;
    } else if |Dedup(head, {})| < |head| {
      var i :| 0 <= i < |head| && head[i] in head[..i];
      assert s[i] == head[i] && s[..i] == head[..i];
      NoneNew(s, from, i);
    }
  }

  lemma {:induction false} NoneNew<T>(s: seq<T>, from: nat, i: nat)
    requires RepeatsLast(s) && i < from <= |s| && s[i] in s[..i]
    ensures forall x | x in s[from..] :: x in s[..from]
    ensures Dedup(s[from..], ToSet(s[..from])) == []
  {
    NoneNewUpTo(s, from, i, |s|);
    assert s[from..|s|] == s[from..];
    AllSeen(s[from..], ToSet(s[..from]));
  }

  lemma AllSeen<T>(s: seq<T>, seen: set<T>)
    requires forall x | x in s :: x in seen
    ensures Dedup(s, seen) == []
  {
    DedupIs(s, seen);
    NoMembers(Dedup(s, seen));
  }

  lemma NoMembers<T>(d: seq<T>)
    ensures (forall x :: x !in d) ==> d == []
  {
    if d != [] {
      assert d[0] in d;
    }
  }

  lemma NoneLeft<T>(s: seq<T>, seen: set<T>)
    requires Dedup(s, seen) == []
    ensures forall x | x in s :: x in seen
  {
    DedupIs(s, seen);
    forall x | x in s
      ensures x in seen
    {
      assert x !in Dedup(s, seen);
    }
  }

  lemma {:induction false} NoneNewUpTo<T>(s: seq<T>, from: nat, i: nat, k: nat)
    requires RepeatsLast(s) && i < from <= k <= |s| && s[i] in s[..i]
    ensures forall x | x in s[from..k] :: x in s[..from]
  {
    if from < k {
      NoneNewUpTo(s, from, i, k - 1);
      assert s[k - 1] in s[..k - 1];
      assert s[..k - 1] == s[..from] + s[from..k - 1];
      assert s[from..k] == s[from..k - 1] + [s[k - 1]];
    }
  }

  /** With a repeated key skipped the page comes too early, unless no new key is left. */
  lemma RepeatShifts<T>(s: seq<T>, i: nat, j: nat)
    requires i < j < |s| && s[i] in s[..i]
    requires Page(s, i + 1, |s| + 1) == Take(Drop(Dedup(s, {}), i + 1), |s| + 1)
    ensures s[j] in s[..j]
  {
    hide Dedup, ToSet, Page, Take, Drop;
    PageIs(s, i + 1, |s| + 1);
    FewerKeys(s, i);
    LateStart(Dedup(s, {}), Skipped(s, i + 1), i + 1, |s| + 1);
    NothingNew(s, i + 1);
    SeenBefore(s, i + 1, j);
  }

  /** When the first keys already show all there are, the rest brings nothing new. */
  lemma NothingNew<T>(s: seq<T>, n: nat)
    requires n <= |s| && |Dedup(s, {})| <= Skipped(s, n)
    ensures Dedup(s[n..], ToSet(s[..n])) == []
  {
    hide Dedup, ToSet;
    assert s == s[..n] + s[n..] && {} + ToSet(s[..n]) == ToSet(s[..n]);
    DedupConcat(s[..n], s[n..], {});
  }

  lemma FewerKeys<T>(s: seq<T>, i: nat)
    requires i < |s| && s[i] in s[..i]
    ensures |Dedup(s, {})| <= |s| && Skipped(s, i + 1) < i + 1
  {
    hide Dedup;
    var head := s[..i + 1];
    SkippedAll(s);
    SkippedAll(head);
    assert head[i] == s[i] && head[..i] == s[..i];
  }

  lemma SeenBefore<T>(s: seq<T>, n: nat, j: nat)
    requires n <= j < |s| && Dedup(s[n..], ToSet(s[..n])) == []
    ensures s[j] in s[..j]
  {
    NoneLeft(s[n..], ToSet(s[..n]));
    assert s[n..][j - n] == s[j];
    assert s[j] in ToSet(s[..n]);
    assert s[..j] == s[..n] + s[n..j];
  }

  lemma LateStart<T>(all: seq<T>, m: nat, from: nat, count: nat)
    requires m < from && |all| < count && Take(Drop(all, m), count) == Take(Drop(all, from), count)
    ensures |all| <= m
  {
  }

  /** Two storages that share key `a`: the second page repeats key `c` of the first. */
  lemma PagesOverlap()
    ensures var s := ["a", "b", "a", "c"]; Page(s, 0, 3) == ["a", "b", "c"] && Page(s, 3, 3) == ["c"]
  {
    var s := ["a", "b", "a", "c"];
    assert s[1..] == ["b", "a", "c"] && s[2..] == ["a", "c"] && s[3..] == ["c"] && s[4..] == [];
    assert Dedup(["c"], {"a", "b"}) == ["c"];
    assert Dedup(["a", "c"], {"a", "b"}) == ["c"];
    assert Dedup(s[1..], {"a"}) == ["b"] + Dedup(["a", "c"], {"a"} + {"b"});
    assert Dedup(s, {}) == ["a"] + Dedup(s[1..], {} + {"a"});
    assert {} + {"a"} == {"a"} && {"a"} + {"b"} == {"a", "b"};
    assert Take(s, 3) == ["a", "b", "a"] && ToSet(Take(s, 3)) == {"a", "b"};
    assert Drop(s, 0) == s && ToSet(Take(s, 0)) == {};
  }

  // ---- The query ---------------------------------------------------------------------------

  /** `getKeysRange` of one storage. */
  function StorageKeys(source: Source, from: nat, count: nat): seq<string> {
    Take(Drop(source.keys, from), count)
  }

  predicate Bounded(sources: seq<Source>) {
    forall i | 0 <= i < |sources| :: |sources[i].keys| <= sources[i].size
  }

  /** The keys from place `k` of storage `i` on. */
  function Remaining(sources: seq<Source>, i: nat, k: nat): seq<string>
    requires i <= |sources|
  {
    if i == |sources| then [] else Drop(sources[i].keys, k) + Stream(sources[i + 1..])
  }

  lemma RemainingStep(sources: seq<Source>, i: nat, k: nat, n: nat)
    requires i < |sources| && Bounded(sources) && k + n <= sources[i].size
    ensures Remaining(sources, i, k) == StorageKeys(sources[i], k, n) + Remaining(sources, i, k + n)
    ensures k + n == sources[i].size ==> Remaining(sources, i, k + n) == Remaining(sources, i + 1, 0)
  {
    hide Stream, Drop, Take;
    TakeDrop(sources[i].keys, k, n);
    if k + n == sources[i].size {
      AllDropped(sources[i].keys, k + n);
      StreamFrom(sources, i + 1);
    }
  }

  lemma TakeDrop<T>(s: seq<T>, k: nat, n: nat)
    ensures Drop(s, k) == Take(Drop(s, k), n) + Drop(s, k + n)
  {
  }

  lemma AllDropped<T>(s: seq<T>, n: nat)
    requires |s| <= n
    ensures Drop(s, n) == []
  {
  }

  lemma StreamFrom(sources: seq<Source>, i: nat)
    requires i <= |sources|
    ensures Remaining(sources, i, 0) == Stream(sources[i..])
  {
    if i < |sources| {
      assert sources[i..][0] == sources[i] && sources[i..][1..] == sources[i + 1..];
      assert Drop(sources[i].keys, 0) == sources[i].keys;
    }
  }

  lemma DropMore<T>(s: seq<T>, a: seq<T>, rest: seq<T>, n: nat)
    requires n <= |s| && s[n..] == a + rest
    ensures n + |a| <= |s| && s[n + |a|..] == rest && s[..n + |a|] == s[..n] + a
  {
    assert s == s[..n] + (a + rest);
    assert s == (s[..n] + a) + rest;
  }

  lemma AppendMore<T>(all: seq<T>, result: seq<T>, rest: seq<T>, more: seq<T>, rest': seq<T>)
    requires all == result + rest && more <= rest
    ensures result + more <= all
    ensures rest == more + rest' ==> all == result + more + rest'
  {
    assert all[..|result + more|] == result + more;
  }

  // ---- The two loops -----------------------------------------------------------------------

  /** `from - left` keys of the stream have been skipped, and the query stands at place `k` of storage `i`. */
  ghost predicate SkippedTo(sources: seq<Source>, from: nat, left: nat, i: nat, k: nat, exclude: set<string>) {
    && left <= from && from - left <= |Stream(sources)| && i <= |sources|
    && Remaining(sources, i, k) == Stream(sources)[from - left..]
    && exclude == ToSet(Stream(sources)[..from - left])
  }

  lemma SkipStart(sources: seq<Source>, from: nat)
    ensures SkippedTo(sources, from, from, 0, 0, {})
  {
    StreamFrom(sources, 0);
    assert sources[0..] == sources;
  }

  lemma SkipStep(sources: seq<Source>, from: nat, left: nat, i: nat, k: nat, exclude: set<string>, n: nat)
    requires SkippedTo(sources, from, left, i, k, exclude) && Bounded(sources)
    requires i < |sources| && k + n <= sources[i].size && n <= left
    ensures var keys := StorageKeys(sources[i], k, n);
      && |keys| <= n
      && SkippedTo(sources, from, left - |keys|, i, k + n, exclude + ToSet(keys))
      && (k + n == sources[i].size ==> SkippedTo(sources, from, left - |keys|, i + 1, 0, exclude + ToSet(keys)))
  {
    hide Bounded, Remaining, Stream;
    var stream, keys := Stream(sources), StorageKeys(sources[i], k, n);
    RemainingStep(sources, i, k, n);
    DropMore(stream, keys, Remaining(sources, i, k + n), from - left);
    assert stream[..from - left + |keys|] == stream[..from - left] + keys;
  }

  lemma SkipEnd(sources: seq<Source>, from: nat, left: nat, i: nat, k: nat, exclude: set<string>)
    requires SkippedTo(sources, from, left, i, k, exclude) && (left == 0 || i == |sources|)
    ensures Remaining(sources, i, k) == Drop(Stream(sources), from) && exclude == ToSet(Take(Stream(sources), from))
  {
    hide Stream, ToSet, Remaining;
    var stream := Stream(sources);
    if left > 0 {
      RemainingNone(sources, k);
      assert |stream[from - left..]| == 0;
      assert stream[..|stream|] == stream;
    }
  }

  lemma RemainingNone(sources: seq<Source>, k: nat)
    ensures Remaining(sources, |sources|, k) == []
  {
  }

  /** The new keys of `rest` are those collected and the new ones from place `k` of storage `i` on. */
  ghost predicate CollectedTo(sources: seq<Source>, rest: seq<string>, seen: set<string>,
                              i: nat, k: nat, exclude: set<string>, result: seq<string>)
  {
    i <= |sources| && Dedup(rest, seen) == result + Dedup(Remaining(sources, i, k), exclude)
  }

  lemma CollectStart(sources: seq<Source>, rest: seq<string>, seen: set<string>, i: nat, k: nat)
    requires i <= |sources| && rest == Remaining(sources, i, k)
    ensures CollectedTo(sources, rest, seen, i, k, seen, []) && Fresh([], seen, seen)
  {
    assert [] + Dedup(rest, seen) == Dedup(rest, seen);
  }

  lemma CollectStep(sources: seq<Source>, rest: seq<string>, seen: set<string>, i: nat, k: nat, exclude: set<string>,
                    result: seq<string>, n: nat)
    requires CollectedTo(sources, rest, seen, i, k, exclude, result) && Bounded(sources)
    requires i < |sources| && k + n <= sources[i].size
    ensures var keys := StorageKeys(sources[i], k, n);
      && CollectedTo(sources, rest, seen, i, k + n, exclude + ToSet(keys), result + Dedup(keys, exclude))
      && (k + n == sources[i].size ==>
            CollectedTo(sources, rest, seen, i + 1, 0, exclude + ToSet(keys), result + Dedup(keys, exclude)))
  {
    hide Bounded, Remaining, Dedup, StorageKeys;
    var keys := StorageKeys(sources[i], k, n);
    RemainingStep(sources, i, k, n);
    DedupConcat(keys, Remaining(sources, i, k + n), exclude);
  }

  lemma CollectEnd(sources: seq<Source>, rest: seq<string>, seen: set<string>, i: nat, k: nat, exclude: set<string>,
                   result: seq<string>, count: nat)
    requires CollectedTo(sources, rest, seen, i, k, exclude, result)
    requires |result| <= count && (|result| == count || i == |sources|)
    ensures result == Take(Dedup(rest, seen), count)
  {
    if i == |sources| {
      assert Dedup(Remaining(sources, i, k), exclude) == [];
      assert result + [] == result;
    }
  }

  /** Keys that are all new stay without repeats, and apart from what was skipped. */
  ghost predicate Fresh(result: seq<string>, skipped: set<string>, exclude: set<string>) {
    && (forall i, j | 0 <= i < j < |result| :: result[i] != result[j])
    && (forall x | x in result :: x in exclude && x !in skipped)
    && skipped <= exclude
  }

  lemma FreshIs(result: seq<string>, skipped: set<string>, exclude: set<string>)
    requires Fresh(result, skipped, exclude)
    ensures forall i, j | 0 <= i < j < |result| :: result[i] != result[j]
    ensures forall x | x in result :: x !in skipped
  {
  }

  lemma FreshStep(result: seq<string>, skipped: set<string>, exclude: set<string>, keys: seq<string>)
    requires Fresh(result, skipped, exclude)
    ensures Fresh(result + Dedup(keys, exclude), skipped, exclude + ToSet(keys))
    ensures forall x | x in result + Dedup(keys, exclude) :: x in result || x in keys
  {
    hide Dedup;
    DedupIs(keys, exclude);
    var added := Dedup(keys, exclude);
    forall i, j | 0 <= i < |result| && 0 <= j < |added|
      ensures result[i] != added[j]
    {
      assert result[i] in exclude && added[j] in added;
    }
  }

  /** The inner loop: the keys of one batch that are new. */
  method AddNew(storageKeys: seq<string>, exclude: set<string>) returns (added: seq<string>)
    ensures added == Dedup(storageKeys, exclude) && |added| <= |storageKeys|
  {
    var excludeKeys := exclude;
    added := [];
    var i := 0;
    while i < |storageKeys|
      invariant i <= |storageKeys| && |added| <= i
      invariant Dedup(storageKeys, exclude) == added + Dedup(storageKeys[i..], excludeKeys)
    {
      var k := storageKeys[i];
      assert storageKeys[i..][1..] == storageKeys[i + 1..];
      if k !in excludeKeys {
        added := added + [k];
        excludeKeys := excludeKeys + {k};
      }
      i := i + 1;
    }
  }
}
