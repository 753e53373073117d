/** The record file reader and the geo index query on top of it. */
module GeoIndex {
  import opened HilbertCurve
  import opened GeoHash
  import opened GeoPrefix
  import opened GeoSearch
  import opened Options

  /** A reader over a file of encoded records.  The file is a sequence of records and the buffer
      holds the records between the next one to return and the file position. */
  class RecordReader<R> {
    const file: seq<R>
    const bufferSize: nat
    var index: nat
    var position: nat
    var buffer: seq<R>

    ghost predicate Valid()
      reads this
    {
      && bufferSize > 0
      && index <= position <= |file|
      && buffer == file[index..position]
    }

    constructor (file: seq<R>, bufferSize: nat)
      requires bufferSize > 0
      ensures Valid() && this.file == file && index == 0
    {
      this.file, this.bufferSize := file, bufferSize;
      index, position, buffer := 0, 0, [];
    }

    /** Binary search for the first record for which `lt` is false. */
    method JumpTo(lt: R -> bool)
      requires Valid()
      requires forall i, j | 0 <= i < j < |file| :: lt(file[j]) ==> lt(file[i])
      modifies this
      ensures Valid()
      ensures forall i | 0 <= i < index :: lt(file[i])
      ensures forall i | index <= i < |file| :: !lt(file[i])
    {
      var lo, hi := 0, |file|;
      while lo < hi
        invariant 0 <= lo <= hi <= |file|
        invariant forall i | 0 <= i < lo :: lt(file[i])
        invariant forall i | hi <= i < |file| :: !lt(file[i])
      {
        var mid := (lo + hi) / 2;
        index, position := mid, mid;
        buffer := file[mid..mid + 1];
        position := mid + 1;
        if lt(buffer[0]) {
          lo := mid + 1;
        } else {
          hi := mid;
        }
      }
      index, position, buffer := hi, hi, [];
    }

    /** The next record, refilling the buffer when it is used up. */
    method Read() returns (record: Option<R>)
      requires Valid()
      modifies this
      ensures Valid()
      ensures old(index) < |file| ==> record == Some(file[old(index)]) && index == old(index) + 1
      ensures old(index) >= |file| ==> record == None && index == old(index)
    {
      if |buffer| == 0 {
        var count := if bufferSize <= |file| - position then bufferSize else |file| - position;
        buffer := file[position..position + count];
        position := position + count;
      }
      if |buffer| == 0 {
        return None;
      }
      record := Some(buffer[0]);
      buffer := buffer[1..];
      index := index + 1;
    }
  }

  /** The naive query: keep the records whose point is in `bounds`. */
  function Filtered<R>(records: seq<R>, geopoint: R -> Point, bounds: Rect): seq<R> {
    if records == [] then [] else
      var last := records[|records| - 1];
      Filtered(records[..|records| - 1], geopoint, bounds) + (if bounds.Contains(geopoint(last)) then [last] else [])
  }

  /** Ordered by geohash, as `GeoIndex::order` leaves the records. */
  ghost predicate Sorted<R>(k: nat, domain: Rect, records: seq<R>, geopoint: R -> Point) {
    forall i, j | 0 <= i < j < |records| ::
      Hash(k, domain, geopoint(records[i])) <= Hash(k, domain, geopoint(records[j]))
  }

  lemma {:induction false} FilterSkips<R>(records: seq<R>, geopoint: R -> Point, bounds: Rect, n: nat, m: nat)
    requires n <= m <= |records|
    requires forall i | n <= i < m :: !bounds.Contains(geopoint(records[i]))
    ensures Filtered(records[..m], geopoint, bounds) == Filtered(records[..n], geopoint, bounds)
  {
    if n < m {
      FilterSkips(records, geopoint, bounds, n, m - 1);
      assert records[..m][..m - 1] == records[..m - 1];
    }
  }

  /** A position outside every prefix is not the hash of a point of the box. */
  lemma NotCovered(k: nat, domain: Rect, bounds: Rect, ps: seq<Prefix>, t: nat, p: Point)
    requires Ascending(ps) && CoversAll(k, domain, bounds, ps) && t <= |ps|
    requires t > 0 ==> ps[t - 1].End() <= Hash(k, domain, p)
    requires t < |ps| ==> Hash(k, domain, p) < ps[t].value
    ensures !bounds.Contains(p) && !Covers(ps, Hash(k, domain, p))
  {
    var h := Hash(k, domain, p);
    forall i | 0 <= i < |ps|
      ensures !ps[i].Matches(h)
    {
      assert i < t - 1 ==> ps[i].End() <= ps[t - 1].value;
      assert t < i ==> ps[t].End() <= ps[i].value;
    }
    assert !Covers(ps, h);
  }

  lemma FilterNext<R>(records: seq<R>, geopoint: R -> Point, bounds: Rect, n: nat)
    requires n < |records|
    ensures Filtered(records[..n + 1], geopoint, bounds)
         == Filtered(records[..n], geopoint, bounds)
            + (if bounds.Contains(geopoint(records[n])) then [records[n]] else [])
  {
    assert records[..n + 1][..n] == records[..n];
  }

  /** The part of a query that reads one run of the cover: it hands over the kept records from
      where the source stands to the end of the run. */
  method ScanPrefix<R>(k: nat, domain: Rect, source: RecordReader<R>, geopoint: R -> Point, bounds: Rect,
                       prefix: Prefix, given: seq<R>, readBefore: nat)
    returns (callback: seq<R>, recordsRead: nat, ghost n: nat)
    requires source.Valid() && Sorted(k, domain, source.file, geopoint) && prefix.Valid(k)
    requires given == Filtered(source.file[..source.index], geopoint, bounds)
    requires forall i | source.index <= i < |source.file| :: prefix.value <= Hash(k, domain, geopoint(source.file[i]))
    requires forall i | 0 <= i < source.index :: Hash(k, domain, geopoint(source.file[i])) < prefix.value
    modifies source
    ensures source.Valid() && n <= |source.file|
    ensures callback == Filtered(source.file[..n], geopoint, bounds)
    ensures old(source.index) <= n && recordsRead == readBefore + (n - old(source.index))
    ensures forall i | old(source.index) <= i < n :: prefix.Matches(Hash(k, domain, geopoint(source.file[i])))
    ensures forall i | n <= i < |source.file| :: prefix.End() <= Hash(k, domain, geopoint(source.file[i]))
    ensures forall i | 0 <= i < n :: Hash(k, domain, geopoint(source.file[i])) < prefix.End()
  {
    hide Rect.Contains, HashIn, Cells, Filtered, AppliesTo;
    ghost var file := source.file;
    callback, recordsRead, n := given, readBefore, source.index;
    while true
      invariant n == source.index <= |file| && source.Valid()
      invariant callback == Filtered(file[..n], geopoint, bounds)
      invariant old(source.index) <= n && recordsRead == readBefore + (n - old(source.index))
      invariant forall i | old(source.index) <= i < n :: prefix.Matches(Hash(k, domain, geopoint(file[i])))
      invariant forall i | n <= i < |file| :: prefix.value <= Hash(k, domain, geopoint(file[i]))
      invariant forall i | 0 <= i < n :: Hash(k, domain, geopoint(file[i])) < prefix.End()
      decreases |file| - n
    {
      var next := source.Read();
      if next.None? {
        break;
      }
      var record := next.value;
      var hash := GeoHasher(k, domain, geopoint(record));
      AppliesIffMatches(k, prefix, hash);
      if !AppliesTo(k, prefix, hash) {
        break;
      }
      recordsRead := recordsRead + 1;
      FilterNext(file, geopoint, bounds, n);
      if bounds.Contains(geopoint(record)) {
        callback := callback + [record];
      }
      n := n + 1;
    }
  }

  /** How many of the records lie in the runs `ps`. */
  ghost function CountIn<R>(k: nat, domain: Rect, records: seq<R>, geopoint: R -> Point, ps: seq<Prefix>): nat {
    if records == [] then 0 else
      CountIn(k, domain, records[..|records| - 1], geopoint, ps)
      + if Covers(ps, Hash(k, domain, geopoint(records[|records| - 1]))) then 1 else 0
  }

  lemma {:induction false} CountRun<R>(k: nat, domain: Rect, file: seq<R>, geopoint: R -> Point, ps: seq<Prefix>, n: nat, m: nat, all: bool)
    requires n <= m <= |file| && forall i | n <= i < m :: Covers(ps, Hash(k, domain, geopoint(file[i]))) == all
    ensures CountIn(k, domain, file[..m], geopoint, ps) == CountIn(k, domain, file[..n], geopoint, ps) + if all then m - n else 0
  {
    hide Covers, Hash;
    if n < m {
      CountRun(k, domain, file, geopoint, ps, n, m - 1, all);
      assert file[..m][..m - 1] == file[..m - 1];
    }
  }

  lemma {:induction false} KeptAreRead<R>(k: nat, domain: Rect, records: seq<R>, geopoint: R -> Point, bounds: Rect, ps: seq<Prefix>)
    requires CoversAll(k, domain, bounds, ps)
    ensures |Filtered(records, geopoint, bounds)| <= CountIn(k, domain, records, geopoint, ps) <= |records|
  {
    hide Covers, Hash, Rect.Contains;
    if records != [] {
      KeptAreRead(k, domain, records[..|records| - 1], geopoint, bounds, ps);
    }
  }

  /** `GeoIndex::query`: the records handed to the callback are those of the naive filter, each
      once and in file order, wherever the points lie; the records read are those in the runs of the
      cover that the search finds. */
  method Query<R>(k: nat, domain: Rect, source: RecordReader<R>, geopoint: R -> Point, bounds: Rect, stopSize: nat)
    returns (callback: seq<R>, recordsRead: nat, prefixCount: nat, ghost cover: seq<Prefix>)
    requires source.Valid() && Sorted(k, domain, source.file, geopoint)
    requires domain.Proper() && bounds.Proper()
    requires bounds.Intersects(domain) || Hash(k, domain, bounds.ll) == Hash(k, domain, bounds.ur)
    modifies source
    ensures callback == Filtered(source.file, geopoint, bounds)
    ensures |callback| <= recordsRead <= |source.file|
    ensures recordsRead == CountIn(k, domain, source.file, geopoint, cover) && prefixCount == |cover|
    ensures exists joint, fine, o, cut :: Searched(k, domain, bounds, stopSize, cover, joint, fine, o, cut)
    ensures prefixCount <= 2 || prefixCount <= stopSize
  {
    hide Prefix.Valid, Prefix.End, Prefix.Matches, Rect.Contains, Rect.Intersects, Hash, Filtered, Searched, Covers, Ascending, CoversAll, CountIn;
    ghost var file := source.file;
    var prefixes;
    ghost var joint, fine, o, cut;
    prefixes, joint, fine, o, cut := SearchPrefixes(k, domain, bounds, stopSize);
    prefixCount, cover := |prefixes|, prefixes;
    callback, recordsRead := [], 0;
    ghost var n: nat := 0;
    var t := 0;
    assert file[..0] == [];
    FilteredNone(geopoint, bounds);
    CountNone(k, domain, geopoint, prefixes);
    while t < |prefixes|
      invariant 0 <= t <= |prefixes| && n <= |file| && source.Valid()
      invariant callback == Filtered(file[..n], geopoint, bounds)
      invariant recordsRead == CountIn(k, domain, file[..n], geopoint, prefixes) && source.file == file
      invariant t == 0 ==> n == 0
      invariant t > 0 ==> forall i | n <= i < |file| :: prefixes[t - 1].End() <= Hash(k, domain, geopoint(file[i]))
      invariant t > 0 ==> forall i | 0 <= i < n :: Hash(k, domain, geopoint(file[i])) < prefixes[t - 1].End()
    {
      var prefix := prefixes[t];
      source.JumpTo(r => Hash(k, domain, geopoint(r)) < prefix.value);
      SkipGap(k, domain, bounds, file, geopoint, prefixes, t, n, source.index);
      ghost var m := source.index;
      callback, recordsRead, n := ScanPrefix(k, domain, source, geopoint, bounds, prefix, callback, recordsRead);
      RunCovered(k, domain, file, geopoint, prefixes, t, m, n);
      t := t + 1;
    }
    SkipGap(k, domain, bounds, file, geopoint, prefixes, t, n, |file|);
    assert file[..|file|] == file;
    KeptAreRead(k, domain, file, geopoint, bounds, prefixes);
  }

  lemma RunCovered<R>(k: nat, domain: Rect, file: seq<R>, geopoint: R -> Point, ps: seq<Prefix>, t: nat, m: nat, n: nat)
    requires t < |ps| && m <= n <= |file| && forall i | m <= i < n :: ps[t].Matches(Hash(k, domain, geopoint(file[i])))
    ensures CountIn(k, domain, file[..n], geopoint, ps) == CountIn(k, domain, file[..m], geopoint, ps) + (n - m)
  {
    hide Hash, Prefix.Matches;
    forall i | m <= i < n
      ensures Covers(ps, Hash(k, domain, geopoint(file[i])))
    {
      assert ps[t].Matches(Hash(k, domain, geopoint(file[i])));
    }
    CountRun(k, domain, file, geopoint, ps, m, n, true);
  }

  lemma CountNone<R>(k: nat, domain: Rect, geopoint: R -> Point, ps: seq<Prefix>)
    ensures CountIn(k, domain, [], geopoint, ps) == 0
  {
  }

  lemma FilteredNone<R>(geopoint: R -> Point, bounds: Rect)
    ensures Filtered([], geopoint, bounds) == []
  {
  }

  /** The records between two runs of the cover are not in the box. */
  lemma SkipGap<R>(k: nat, domain: Rect, bounds: Rect, file: seq<R>, geopoint: R -> Point,
                   ps: seq<Prefix>, t: nat, n: nat, m: nat)
    requires Ascending(ps) && CoversAll(k, domain, bounds, ps) && t <= |ps| && n <= |file| && m <= |file|
    requires t > 0 ==> forall i | n <= i < |file| :: ps[t - 1].End() <= Hash(k, domain, geopoint(file[i]))
    requires t > 0 ==> forall i | 0 <= i < n :: Hash(k, domain, geopoint(file[i])) < ps[t - 1].End()
    requires t == 0 ==> n == 0
    requires t == |ps| ==> m == |file|
    requires t < |ps| ==> forall i | 0 <= i < m :: Hash(k, domain, geopoint(file[i])) < ps[t].value
    requires t < |ps| ==> forall i | m <= i < |file| :: ps[t].value <= Hash(k, domain, geopoint(file[i]))
    ensures n <= m && Filtered(file[..m], geopoint, bounds) == Filtered(file[..n], geopoint, bounds)
    ensures CountIn(k, domain, file[..m], geopoint, ps) == CountIn(k, domain, file[..n], geopoint, ps)
  {
    hide Hash, Covers, CoversAll, Rect.Contains, CountIn, Filtered;
    assert 0 < t < |ps| ==> ps[t - 1].End() <= ps[t].value;
    assert t < |ps| && m < |file| ==> ps[t].value <= Hash(k, domain, geopoint(file[m]));
    forall i | n <= i < m
      ensures !bounds.Contains(geopoint(file[i])) && !Covers(ps, Hash(k, domain, geopoint(file[i])))
    {
      NotCovered(k, domain, bounds, ps, t, geopoint(file[i]));
    }
    FilterSkips(file, geopoint, bounds, n, m);
    CountRun(k, domain, file, geopoint, ps, n, m, false);
  }

  /** How often `x` is kept by the naive query depends only on how often it occurs, so an index
      built by any sort of the records answers with the same records. */
  lemma {:induction false} FilterCounts<R>(records: seq<R>, geopoint: R -> Point, bounds: Rect, x: R)
    ensures multiset(Filtered(records, geopoint, bounds))[x]
         == if bounds.Contains(geopoint(x)) then multiset(records)[x] else 0
  {
    hide Rect.Contains;
    if records != [] {
      var n := |records| - 1;
      FilterCounts(records[..n], geopoint, bounds, x);
      assert records == records[..n] + [records[n]];
      LastCounts(records[..n], records[n], x);
      LastCounts(Filtered(records[..n], geopoint, bounds), records[n], x);
    }
  }

  lemma LastCounts<R>(s: seq<R>, r: R, x: R)
    ensures multiset(s + [r])[x] == multiset(s)[x] + if r == x then 1 else 0
  {
  }

  lemma OrderedIndexAnswers<R(!new)>(records: seq<R>, ordered: seq<R>, geopoint: R -> Point, bounds: Rect)
    requires multiset(ordered) == multiset(records)
    ensures multiset(Filtered(ordered, geopoint, bounds)) == multiset(Filtered(records, geopoint, bounds))
  {
    var a, b := multiset(Filtered(ordered, geopoint, bounds)), multiset(Filtered(records, geopoint, bounds));
    forall x: R
      ensures a[x] == b[x]
    {
      FilterCounts(ordered, geopoint, bounds, x);
      FilterCounts(records, geopoint, bounds, x);
    }
  }
}
