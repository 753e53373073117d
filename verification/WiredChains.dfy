/** Reading a wired table: the buckets, links and records of its chains. */
module WiredChains {
  import opened Options
  import opened TableModel
  import opened CacheModel
  import opened Wiring

  lemma LinkedTo<K, V>(v: View<K, V>, chains: seq<Ids>, b: BucketId)
    requires Wired(v, chains, []) && b in v
    ensures v[b].overflow.Some? ==> Overflow(v[b].overflow.value) in v
  {
    var i :| 0 <= i < |chains| && b in chains[i];
    LinkStays(v, chains[i], b);
    MembersLive(v, chains[i]);
  }

  lemma OutsideExtra<K, V>(v: View<K, V>, chains: seq<Ids>, extra: Ids, c: nat, b: BucketId)
    requires Wired(v, chains, extra) && c < |chains| && b in chains[c]
    ensures b !in extra
  {
    NotShared(extra, chains[c], b);
  }

  lemma OutsideLast<K, V>(v: View<K, V>, chains: seq<Ids>, c: nat, b: BucketId)
    requires Wired(v, chains, []) && c < |chains| && b in chains[c]
    ensures c < |chains| - 1 ==> b !in chains[|chains| - 1]
  {
    if c < |chains| - 1 {
      assert Members(chains[c]) !! Members(chains[|chains| - 1]);
      NotShared(chains[|chains| - 1], chains[c], b);
    }
  }

  lemma ChainApart<K, V>(v: View<K, V>, chains: seq<Ids>)
    requires Wired(v, chains, [])
    ensures forall c | 0 <= c < |chains| :: NoRepeats(chains[c])
  {
  }

  lemma ExtraUntouched<K, V>(v: View<K, V>, w: View<K, V>, chains: seq<Ids>, extra: Ids, c: nat)
    requires Wired(v, chains, extra) && c < |chains|
    requires forall b | b in v && b !in chains[c] :: b in w && w[b] == v[b]
    ensures forall b | b in extra :: b in v && b in w && w[b] == v[b]
  {
    MembersLive(v, extra);
    forall b | b in extra
      ensures b in v && b in w && w[b] == v[b]
    {
      NotShared(chains[c], extra, b);
    }
  }

  /** One more empty bucket at the end of a chain, and nothing else. */
  ghost predicate Extended<K, V>(v: View<K, V>, chain: Ids, w: View<K, V>, chain': Ids) {
    && chain != [] && chain[|chain| - 1] in v
    && exists i: nat :: Overflow(i) !in v && chain' == chain + [Overflow(i)]
         && w == v[chain[|chain| - 1] := v[chain[|chain| - 1]].(overflow := Some(i))][Overflow(i) := Page(None, [])]
         && ChainOf(w, chain') == ChainOf(v, chain) + [[]]
  }

  /** The chain that `insert_internal` has come to: the one it started with, or that and a new bucket. */
  ghost predicate Grown<K, V>(v: View<K, V>, chain: Ids, w: View<K, V>, chain': Ids, j: nat) {
    && WiredChain(w, chain') && j < |chain'|
    && ((chain' == chain && w == v) || (Extended(v, chain, w, chain') && j == |chain|))
  }

  lemma GrownNot<K, V>(v: View<K, V>, chain: Ids)
    requires WiredChain(v, chain) && chain != []
    ensures Grown(v, chain, v, chain, 0)
  {
  }

  /** A full bucket is one of the chain's own, and the walk goes on behind it. */
  lemma GrownAt<K, V>(v: View<K, V>, chain: Ids, w: View<K, V>, chain': Ids, j: nat, capacity: nat)
    requires Grown(v, chain, w, chain', j) && capacity > 0 && chain'[j] in w && |w[chain'[j]].records| == capacity
    ensures chain' == chain && w == v && j < |chain| && |ChainOf(v, chain)[j]| == capacity
    ensures v[chain[j]].overflow.None? <==> j + 1 == |chain|
    ensures j + 1 < |chain| ==> v[chain[j]].overflow.Some? && chain[j + 1] == Overflow(v[chain[j]].overflow.value) && Grown(v, chain, v, chain, j + 1)
  {
    hide WiredChain, ChainOf;
    RecordsAt(w, chain', j);
    LastOf(w, chain', j);
  }

  lemma GrownBy<K, V>(v: View<K, V>, chain: Ids, i: nat)
    requires WiredChain(v, chain) && chain != [] && Overflow(i) !in v
    ensures chain[|chain| - 1] in v
    ensures Grown(v, chain, v[chain[|chain| - 1] := v[chain[|chain| - 1]].(overflow := Some(i))][Overflow(i) := Page(None, [])],
                  chain + [Overflow(i)], |chain|)
  {
    hide WiredChain, ChainOf;
    ExtendChain(v, chain, i);
  }

  /** A record goes to bucket `j`, the first one that is not full. */
  lemma InsertedAt<K, V>(v: View<K, V>, chain: Ids, w: View<K, V>, chain': Ids, j: nat, capacity: nat, r: (K, V))
    requires Grown(v, chain, w, chain', j) && WiredChain(v, chain) && chain != [] && capacity > 0
    requires forall k | 0 <= k < j :: |ChainOf(v, chain)[k]| == capacity
    requires chain'[j] in w && |w[chain'[j]].records| != capacity
    ensures var x := w[chain'[j] := w[chain'[j]].(records := w[chain'[j]].records + [r])];
      && WiredChain(x, chain') && ChainOf(x, chain') == InsertChain(capacity, ChainOf(v, chain), r)
      && chain' != [] && chain'[0] == chain[0]
      && (forall b | b in v && b !in chain :: b in x && x[b] == v[b])
      && (forall b | b in chain' :: b in chain || b !in v)
      && (forall b | b in x :: b in v || b in chain')
      && (forall b | b in chain :: b in chain')
  {
    hide WiredChain, ChainOf, InsertChain;
    RecordsAt(w, chain', j);
    RewriteChain(w, chain', j, w[chain'[j]].records + [r]);
    InsertAt(capacity, ChainOf(v, chain), j, r);
    if j == |chain| {
      assert w[chain'[j]].records == [];
      assert (ChainOf(v, chain) + [[]])[j := [r]] == ChainOf(v, chain) + [[r]];
      assert w[chain'[j]].records + [r] == [r];
    }
  }

  lemma RecordsAt<K, V>(v: View<K, V>, chain: Ids, j: nat)
    requires WiredChain(v, chain) && j < |chain|
    ensures chain[j] in v && ChainOf(v, chain)[j] == v[chain[j]].records
    ensures j + 1 < |chain| ==> v[chain[j]].overflow.Some? && chain[j + 1] == Overflow(v[chain[j]].overflow.value)
  {
    assert LinkAt(v, chain, j);
  }

  lemma ChainIsWired<K, V>(v: View<K, V>, chains: seq<Ids>, extra: Ids, c: nat)
    requires Wired(v, chains, extra) && c < |chains|
    ensures chains[c] != [] && chains[c][0] == Primary(c) && WiredChain(v, chains[c])
  {
  }

  lemma RestLive<K, V>(v: View<K, V>, chains: seq<Ids>, rest: Ids)
    requires Wired(v, chains, rest)
    ensures forall b | b in rest :: b in v
  {
    MembersLive(v, rest);
  }

  lemma LastOf<K, V>(v: View<K, V>, chain: Ids, j: nat)
    requires WiredChain(v, chain) && j < |chain|
    ensures chain[j] in v && (v[chain[j]].overflow.None? <==> j + 1 == |chain|)
  {
    assert LinkAt(v, chain, j);
  }

  lemma NothingWired<K, V>()
    ensures Wired<K, V>(map[], [], [])
  {
  }

  /** Every primary bucket of a table outside splits and merges heads one of its chains. */
  lemma NoPrimaryBeyond<K, V>(v: View<K, V>, chains: seq<Ids>)
    requires Wired(v, chains, [])
    ensures forall i: nat :: Primary(i) in v ==> i < |chains|
    ensures forall i: nat :: Detached(i) !in v
  {
    forall b | b in v
      ensures b.Primary? ==> b.index < |chains|
      ensures !b.Detached?
    {
      var i :| 0 <= i < |chains| && b in chains[i];
      var j :| 0 <= j < |chains[i]| && chains[i][j] == b;
      assert WiredChain(v, chains[i]);
    }
  }

  lemma FirstRecords<K, V>(v: View<K, V>, chains: seq<Ids>, rest: Ids)
    requires Wired(v, chains, rest) && rest != []
    ensures rest[0] in v && ChainOf(v, rest)[0] == v[rest[0]].records
  {
    RecordsAt(v, rest, 0);
  }

  lemma RecordsInChain<K, V>(v: View<K, V>, chains: seq<Ids>, c: nat, j: nat)
    requires Wired(v, chains, []) && c < |chains| && j < |chains[c]|
    ensures chains[c][j] in v && ChainsOf(v, chains)[c][j] == v[chains[c][j]].records
  {
    RecordsAt(v, chains[c], j);
  }

  lemma RecordsOfFirst<K, V>(v: View<K, V>, chains: seq<Ids>, c: nat)
    requires Wired(v, chains, []) && c < |chains|
    ensures chains[c] != [] && chains[c][0] == Primary(c) && Primary(c) in v
    ensures ChainsOf(v, chains)[c] != [] && ChainsOf(v, chains)[c][0] == v[Primary(c)].records
  {
    RecordsAt(v, chains[c], 0);
  }

  lemma SplitTarget<K, V>(v: View<K, V>, chains: seq<Ids>, p: nat)
    requires Wired(v, chains, []) && p < |chains|
    ensures chains[p] != [] && chains[p][0] == Primary(p) && Primary(p) in v
    ensures Primary(p) !in chains[p][0 := Detached(p)]
    ensures |Wider(chains, p)| == |chains| + 1
  {
    RecordsAt(v, chains[p], 0);
  }

  /** While a split chain is drained no primary bucket lies beyond the table. */
  lemma NothingBeyond<K, V>(v: View<K, V>, chains: seq<Ids>, extra: Ids)
    requires Wired(v, chains, extra) && extra != [] && extra[0].Detached?
    ensures forall i: nat :: Primary(i) in v ==> i < |chains|
  {
    forall i: nat | Primary(i) in v
      ensures i < |chains|
    {
      PrimaryWhere(v, chains, extra, i);
    }
  }

  /** While the last chain is drained its primary bucket is the only one beyond the table. */
  lemma OnlyLastBeyond<K, V>(v: View<K, V>, chains: seq<Ids>, extra: Ids, first: BucketId)
    requires Wired(v, chains, extra) && extra != [] && extra[0] == first == Primary(|chains|)
    ensures forall i: nat :: Primary(i) in v && i >= |chains| ==> first == Primary(i)
  {
    forall i: nat | Primary(i) in v && i >= |chains|
      ensures first == Primary(i)
    {
      PrimaryWhere(v, chains, extra, i);
    }
  }

  lemma PrimaryWhere<K, V>(v: View<K, V>, chains: seq<Ids>, extra: Ids, i: nat)
    requires Wired(v, chains, extra) && Primary(i) in v
    ensures i < |chains| || (extra != [] && extra[0] == Primary(i))
  {
    var b := Primary(i);
    if b in extra {
      var j :| 0 <= j < |extra| && extra[j] == b;
      assert WiredChain(v, extra);
    } else {
      var c :| 0 <= c < |chains| && b in chains[c];
      var j :| 0 <= j < |chains[c]| && chains[c][j] == b;
      assert WiredChain(v, chains[c]);
    }
  }

  lemma LinkFromFirst<K, V>(v: View<K, V>, chains: seq<Ids>, ids: Ids)
    requires Wired(v, chains, ids) && ids != []
    ensures ids[0] in v
    ensures v[ids[0]].overflow.None? <==> |ids| == 1
    ensures |ids| > 1 ==> v[ids[0]].overflow.Some? && ids[1] == Overflow(v[ids[0]].overflow.value)
  {
    assert LinkAt(v, ids, 0);
  }

  /** Nothing links to the first bucket of the chain that is being drained. */
  lemma NoLinkToFirst<K, V>(v: View<K, V>, chains: seq<Ids>, extra: Ids)
    requires Wired(v, chains, extra) && extra != []
    ensures extra[0].Overflow? ==> forall x | x in v :: v[x].overflow != Some(extra[0].index)
  {
    hide WiredChain;
    forall x | x in v && extra[0].Overflow?
      ensures v[x].overflow != Some(extra[0].index)
    {
      if x in extra {
        NoLinkBack(v, extra, x);
      } else {
        var i :| 0 <= i < |chains| && x in chains[i];
        LinkStays(v, chains[i], x);
        NotShared(chains[i], extra, extra[0]);
      }
    }
  }

  lemma HeadsNotIn<K, V>(v: View<K, V>, chains: seq<Ids>, extra: Ids)
    requires Wired(v, chains, extra) && extra != []
    ensures forall i | 0 <= i < |chains| :: Primary(i) != extra[0]
    ensures |extra| > 1 ==> extra[1] != extra[0]
  {
    forall i | 0 <= i < |chains|
      ensures Primary(i) != extra[0]
    {
      NotShared(chains[i], extra, extra[0]);
      assert chains[i][0] in chains[i];
    }
  }

  lemma NoLinkBack<K, V>(v: View<K, V>, ids: Ids, x: BucketId)
    requires WiredChain(v, ids) && x in ids && x in v && ids[0].Overflow?
    ensures v[x].overflow != Some(ids[0].index)
  {
    var j :| 0 <= j < |ids| && ids[j] == x;
    assert LinkAt(v, ids, j);
  }

  lemma LinkStays<K, V>(v: View<K, V>, ids: Ids, x: BucketId)
    requires WiredChain(v, ids) && x in ids && x in v
    ensures v[x].overflow.Some? ==> Overflow(v[x].overflow.value) in ids
  {
    var j :| 0 <= j < |ids| && ids[j] == x;
    assert LinkAt(v, ids, j);
  }

  /** A new empty bucket becomes a chain of its own. */
  lemma GrowWired<K, V>(v: View<K, V>, chains: seq<Ids>, extra: Ids)
    requires Wired(v, chains, extra) && Primary(|chains|) !in v
    ensures var w, more := v[Primary(|chains|) := Page(None, [])], chains + [[Primary(|chains|)]];
      Wired(w, more, extra) && ChainsOf(w, more) == ChainsOf(v, chains) + [[[]]] && ChainOf(w, extra) == ChainOf(v, extra)
  {
    hide WiredChain, LinkAt, ChainOf;
    var b := Primary(|chains|);
    var w, more := v[b := Page(None, [])], chains + [[b]];
    Single(w, b);
    MembersLive(v, extra);
    SameChain(v, w, extra);
    forall i | 0 <= i < |chains|
      ensures WiredChain(w, chains[i]) && ChainOf(w, chains[i]) == ChainOf(v, chains[i]) && b !in Members(chains[i])
    {
      MembersLive(v, chains[i]);
      SameChain(v, w, chains[i]);
    }
    assert Members([b]) == {b};
    forall x | x in w
      ensures x in extra || exists i | 0 <= i < |more| :: x in more[i]
    {
      if x == b {
        assert x in more[|chains|];
      } else if x !in extra {
        var i :| 0 <= i < |chains| && x in chains[i];
        assert x in more[i];
      }
    }
  }
}
