/** Pages of keys while records expire: the keys listed before the first one that expires keep their places. */
module ExpiringKeys {
  import opened KeysRange
  import opened TableModel
  import opened TableKeys

  /** List `b` starts with the first `n` entries of `a`; it is `a` if there are no more. */
  predicate StartsAs<T(==)>(a: seq<T>, b: seq<T>, n: nat) {
    if n >= |a| then b == a else a[..n] <= b
  }

  lemma StartsConcat<T>(a: seq<T>, b: seq<T>, a': seq<T>, b': seq<T>, n: nat)
    requires StartsAs(a, a', n) && (n >= |a| ==> StartsAs(b, b', n - |a|))
    ensures StartsAs(a + b, a' + b', n)
  {
    if |a| <= n < |a| + |b| {
      assert (a + b)[..n] == a + b[..n - |a|];
      assert b' == b[..n - |a|] + b'[n - |a|..];
      assert a' + b' == (a + b)[..n] + b'[n - |a|..];
    } else if n < |a| {
      assert (a + b)[..n] == a[..n];
    }
  }

  // ---- One storage -------------------------------------------------------------------------

  /** What `g` accepts is accepted by `f`, and the records of the first `n` keys of `keys` by both. */
  predicate NarrowedBehind<K(==), V>(r: (K, V), f: (K, V) -> bool, g: (K, V) -> bool, keys: seq<K>, n: nat) {
    && (g(r.0, r.1) ==> f(r.0, r.1))
    && (f(r.0, r.1) && r.0 in Take(keys, n) ==> g(r.0, r.1))
  }

  lemma TakeOfTail<T>(a: seq<T>, b: seq<T>, n: nat)
    ensures forall x | x in Take(b, if n >= |a| then n - |a| else 0) :: x in Take(a + b, n)
    ensures forall x | x in Take(a, n) :: x in Take(a + b, n)
  {
    if n >= |a| {
      assert Take(a + b, n) == a + Take(b, n - |a|);
    } else {
      assert Take(a + b, n) == a[..n];
    }
  }

  lemma {:induction false} BucketStarts<K, V>(bucket: Bucket<K, V>, f: (K, V) -> bool, g: (K, V) -> bool, n: nat)
    requires forall r | r in bucket :: NarrowedBehind(r, f, g, AcceptedIn(bucket, f), n)
    ensures StartsAs(AcceptedIn(bucket, f), AcceptedIn(bucket, g), n)
  {
    if bucket != [] {
      var r, rest := bucket[0], bucket[1..];
      var head, tail := if f(r.0, r.1) then [r.0] else [], AcceptedIn(rest, f);
      assert bucket == [r] + rest && AcceptedIn(bucket, f) == head + tail;
      assert NarrowedBehind(r, f, g, AcceptedIn(bucket, f), n);
      TakeOfTail(head, tail, n);
      if n >= |head| {
        forall x | x in rest
          ensures NarrowedBehind(x, f, g, tail, n - |head|)
        {
          assert NarrowedBehind(x, f, g, AcceptedIn(bucket, f), n);
        }
        BucketStarts(rest, f, g, n - |head|);
        assert n > 0 && head != [] ==> r.0 in Take(head + tail, n);
        StartsConcat(head, tail, if g(r.0, r.1) then [r.0] else [], AcceptedIn(rest, g), n);
      }
    }
  }

  lemma {:induction false} ListStarts<K, V>(chains: seq<Chain<K, V>>, f: (K, V) -> bool, g: (K, V) -> bool, n: nat)
    requires forall i, r | 0 <= i < |chains| && r in FirstBucket(chains[i]) :: NarrowedBehind(r, f, g, PrimaryKeys(chains, f), n)
    ensures StartsAs(PrimaryKeys(chains, f), PrimaryKeys(chains, g), n)
  {
    hide NarrowedBehind, AcceptedIn;
    if chains != [] {
      var bucket, rest := FirstBucket(chains[0]), chains[1..];
      var head, tail := AcceptedIn(bucket, f), PrimaryKeys(rest, f);
      assert PrimaryKeys(chains, f) == head + tail;
      forall r | r in bucket
        ensures NarrowedBehind(r, f, g, head, n)
      {
        assert NarrowedBehind(r, f, g, PrimaryKeys(chains, f), n);
        NarrowedPart(r, f, g, head, tail, n);
      }
      BucketStarts(bucket, f, g, n);
      if n >= |head| {
        forall i, r | 0 <= i < |rest| && r in FirstBucket(rest[i])
          ensures NarrowedBehind(r, f, g, tail, n - |head|)
        {
          assert rest[i] == chains[i + 1] && NarrowedBehind(r, f, g, PrimaryKeys(chains, f), n);
          NarrowedPart(r, f, g, head, tail, n);
        }
        ListStarts(rest, f, g, n - |head|);
      }
      StartsConcat(head, tail, AcceptedIn(bucket, g), PrimaryKeys(rest, g), n);
    }
  }

  lemma NarrowedPart<K, V>(r: (K, V), f: (K, V) -> bool, g: (K, V) -> bool, head: seq<K>, tail: seq<K>, n: nat)
    requires NarrowedBehind(r, f, g, head + tail, n)
    ensures NarrowedBehind(r, f, g, head, n)
    ensures n >= |head| ==> NarrowedBehind(r, f, g, tail, n - |head|)
  {
    TakeOfTail(head, tail, n);
  }

  // ---- All storages of a node --------------------------------------------------------------

  /** How many keys the storages before storage `i` list. */
  function Before(sources: seq<Source>, i: nat): nat
    requires i <= |sources|
  {
    |Stream(sources[..i])|
  }

  lemma {:induction false} StreamSplit(sources: seq<Source>, i: nat)
    requires i <= |sources|
    ensures Stream(sources) == Stream(sources[..i]) + Stream(sources[i..])
  {
    if i == 0 {
      assert sources[..0] == [] && sources[0..] == sources;
    } else {
      StreamSplit(sources[1..], i - 1);
      assert sources[1..][..i - 1] == sources[..i][1..] && sources[1..][i - 1..] == sources[i..];
      assert sources[..i][0] == sources[0];
    }
  }

  /** The storages now: as before up to the first `n` keys of the stream. */
  ghost predicate StartAs(sources: seq<Source>, now: seq<Source>, n: nat) {
    && |now| == |sources|
    && forall i | 0 <= i < |sources| ::
      now[i].size == sources[i].size && (n >= Before(sources, i) ==> StartsAs(sources[i].keys, now[i].keys, n - Before(sources, i)))
  }

  /** Place `k` of storage `i` is behind `q` keys of the stream. */
  lemma PlaceIs(sources: seq<Source>, i: nat, k: nat, q: nat)
    requires i < |sources| && q <= |Stream(sources)| && Remaining(sources, i, k) == Stream(sources)[q..]
    ensures q == Before(sources, i) + if k <= |sources[i].keys| then k else |sources[i].keys|
  {
    hide Stream;
    StreamSplit(sources, i);
    StreamFrom(sources, i);
    assert Drop(sources[i].keys, 0) == sources[i].keys;
  }

  /** What is read of storage `i` within the first `n` keys is as it was. */
  lemma SameRead(sources: seq<Source>, now: seq<Source>, n: nat, i: nat, k: nat, q: nat, m: nat)
    requires StartAs(sources, now, n) && i < |sources| && q <= |Stream(sources)| && q <= n
    requires Remaining(sources, i, k) == Stream(sources)[q..]
    ensures q + m <= n ==> StorageKeys(now[i], k, m) == StorageKeys(sources[i], k, m)
    ensures || (StorageKeys(now[i], k, m) == StorageKeys(sources[i], k, m) && q + |StorageKeys(sources[i], k, m)| <= n)
            || (n <= |Stream(sources)| && Stream(sources)[q..n] <= StorageKeys(now[i], k, m))
  {
    hide Stream;
    PlaceIs(sources, i, k, q);
    var a, b, s := sources[i].keys, now[i].keys, n - Before(sources, i);
    assert StartsAs(a, b, s);
    if s < |a| {
      assert Remaining(sources, i, k)[..s - k] == a[k..s];
      assert Stream(sources)[q..][..s - k] == Stream(sources)[q..n];
      SliceWithin(a, b, s, k, m);
    }
  }

  /** A slice of a list that starts as another one. */
  lemma SliceWithin<T>(a: seq<T>, b: seq<T>, s: nat, k: nat, m: nat)
    requires k <= s < |a| && a[..s] <= b
    ensures k + m <= s ==> Take(Drop(b, k), m) == Take(Drop(a, k), m)
    ensures k + m > s ==> a[k..s] <= Take(Drop(b, k), m)
  {
    assert b == a[..s] + b[s..];
    assert b[k..s] == a[k..s];
    if k + m <= s {
      assert b[k..k + m] == a[k..k + m];
    }
  }

  // ---- The first loop ----------------------------------------------------------------------

  lemma SkipExpiring(sources: seq<Source>, now: seq<Source>, n: nat, from: nat, left: nat, i: nat, k: nat, exclude: set<string>, m: nat)
    requires SkippedTo(sources, from, left, i, k, exclude) && Bounded(sources) && StartAs(sources, now, n) && |now| == |sources| && from <= n
    requires i < |sources| && k + m <= sources[i].size && m <= left
    ensures var keys := StorageKeys(now[i], k, m);
      && |keys| <= m
      && SkippedTo(sources, from, left - |keys|, i, k + m, exclude + ToSet(keys))
      && (k + m == sources[i].size ==> SkippedTo(sources, from, left - |keys|, i + 1, 0, exclude + ToSet(keys)))
  {
    hide StorageKeys, Bounded, StartAs, ToSet, Remaining, Stream;
    SameRead(sources, now, n, i, k, from - left, m);
    SkipStep(sources, from, left, i, k, exclude, m);
  }

  // ---- The second loop ---------------------------------------------------------------------

  /** All new keys among the first `n` of `rest` are collected, or exactly those up to place `k` of storage `i`. */
  ghost predicate PartCollected(sources: seq<Source>, rest: seq<string>, seen: set<string>, n: nat,
                                i: nat, k: nat, exclude: set<string>, result: seq<string>)
    requires i <= |sources|
  {
    || Dedup(Take(rest, n), seen) <= result
    || exists q: nat :: ReadTo(sources, rest, seen, i, k, exclude, result, q) && q <= n
  }

  ghost predicate ReadTo(sources: seq<Source>, rest: seq<string>, seen: set<string>, i: nat, k: nat, exclude: set<string>,
                         result: seq<string>, q: nat)
    requires i <= |sources|
  {
    && q <= |rest| && rest[q..] == Remaining(sources, i, k)
    && result == Dedup(rest[..q], seen) && exclude == seen + ToSet(rest[..q])
  }

  lemma PartStart(sources: seq<Source>, rest: seq<string>, seen: set<string>, n: nat, i: nat, k: nat)
    requires i <= |sources| && rest == Remaining(sources, i, k)
    ensures PartCollected(sources, rest, seen, n, i, k, seen, [])
  {
    assert rest[0..] == rest && rest[..0] == [] && seen + ToSet(rest[..0]) == seen;
    assert ReadTo(sources, rest, seen, i, k, seen, [], 0);
  }

  lemma PartStep(sources: seq<Source>, now: seq<Source>, from: nat, rest: seq<string>, seen: set<string>, n: nat,
                 i: nat, k: nat, exclude: set<string>, result: seq<string>, m: nat)
    requires i < |sources| && Bounded(sources) && StartAs(sources, now, from + n) && |now| == |sources| && k + m <= sources[i].size
    requires from <= |Stream(sources)| && rest == Stream(sources)[from..]
    requires PartCollected(sources, rest, seen, n, i, k, exclude, result)
    ensures var keys := StorageKeys(now[i], k, m);
      && PartCollected(sources, rest, seen, n, i, k + m, exclude + ToSet(keys), result + Dedup(keys, exclude))
      && (k + m == sources[i].size ==>
            PartCollected(sources, rest, seen, n, i + 1, 0, exclude + ToSet(keys), result + Dedup(keys, exclude)))
  {
    hide Bounded, StartAs, Stream, Dedup, StorageKeys, Remaining, ReadTo;
    var keys, result' := StorageKeys(now[i], k, m), result + Dedup(StorageKeys(now[i], k, m), exclude);
    if !(Dedup(Take(rest, n), seen) <= result) {
      var q: nat :| ReadTo(sources, rest, seen, i, k, exclude, result, q) && q <= n;
      ReadMore(sources, now, from, rest, seen, n, i, k, exclude, result, m, q);
      RemainingStep(sources, i, k, m);
    }
  }

  lemma ReadMore(sources: seq<Source>, now: seq<Source>, from: nat, rest: seq<string>, seen: set<string>, n: nat,
                 i: nat, k: nat, exclude: set<string>, result: seq<string>, m: nat, q: nat)
    requires i < |sources| && Bounded(sources) && StartAs(sources, now, from + n) && |now| == |sources| && k + m <= sources[i].size
    requires from <= |Stream(sources)| && rest == Stream(sources)[from..]
    requires ReadTo(sources, rest, seen, i, k, exclude, result, q) && q <= n
    ensures var keys := StorageKeys(now[i], k, m);
      || Dedup(Take(rest, n), seen) <= result + Dedup(keys, exclude)
      || (q + |keys| <= n && ReadTo(sources, rest, seen, i, k + m, exclude + ToSet(keys), result + Dedup(keys, exclude), q + |keys|)
          && (k + m == sources[i].size ==>
                ReadTo(sources, rest, seen, i + 1, 0, exclude + ToSet(keys), result + Dedup(keys, exclude), q + |keys|)))
  {
    hide Bounded, StartAs, Stream, Dedup, StorageKeys, Remaining;
    var stream, keys := Stream(sources), StorageKeys(now[i], k, m);
    assert stream[from..][q..] == stream[from + q..];
    SameRead(sources, now, from + n, i, k, from + q, m);
    if keys == StorageKeys(sources[i], k, m) && from + q + |keys| <= from + n {
      RemainingStep(sources, i, k, m);
      DropMore(rest, keys, Remaining(sources, i, k + m), q);
      DedupConcat(rest[..q], keys, seen);
      assert seen + ToSet(rest[..q] + keys) == exclude + ToSet(keys);
    } else {
      var last := stream[from + q..from + n];
      assert Take(rest, n) == rest[..q] + last;
      DedupConcat(rest[..q], last, seen);
      DedupPrefix(last, keys, exclude);
    }
  }

  lemma DedupPrefix<T>(a: seq<T>, b: seq<T>, seen: set<T>)
    requires a <= b
    ensures Dedup(a, seen) <= Dedup(b, seen)
  {
    assert b == a + b[|a|..];
    DedupConcat(a, b[|a|..], seen);
  }

  lemma PartEnd(sources: seq<Source>, rest: seq<string>, seen: set<string>, n: nat, i: nat, k: nat, exclude: set<string>,
                result: seq<string>, count: nat)
    requires i <= |sources| && PartCollected(sources, rest, seen, n, i, k, exclude, result)
    requires |result| <= count && (|result| == count || i == |sources|)
    ensures Take(Dedup(Take(rest, n), seen), count) <= result
  {
    hide Dedup, ReadTo;
    if q: nat :| ReadTo(sources, rest, seen, i, k, exclude, result, q) && q <= n {
      ReadIs(sources, rest, seen, i, k, exclude, result, q);
      DedupPrefix(rest[..q], Take(rest, n), seen);
      assert q == |rest| ==> rest[..q] == Take(rest, n);
    }
  }

  lemma ReadIs(sources: seq<Source>, rest: seq<string>, seen: set<string>, i: nat, k: nat, exclude: set<string>,
               result: seq<string>, q: nat)
    requires i <= |sources| && ReadTo(sources, rest, seen, i, k, exclude, result, q)
    ensures q <= |rest| && result == Dedup(rest[..q], seen) && (i == |sources| ==> q == |rest|)
  {
  }

  /** A page of the first `n` keys of a stream. */
  lemma PageOfPart<T>(s: seq<T>, from: nat, n: nat, count: nat)
    ensures Page(Take(s, from + n), from, count) == Take(Dedup(Take(Drop(s, from), n), ToSet(Take(s, from))), count)
    ensures n <= from || |s| <= from ==> Page(Take(s, n), from, count) == []
  {
    hide Dedup;
    assert Drop(Take(s, from + n), from) == Take(Drop(s, from), n);
    assert Take(Take(s, from + n), from) == Take(s, from);
    if n <= from || |s| <= from {
      assert Drop(Take(s, n), from) == [];
      NothingToDedup<T>(ToSet(Take(Take(s, n), from)));
    }
  }

  lemma NothingToDedup<T>(seen: set<T>)
    ensures Dedup([], seen) == []
  {
  }
}
