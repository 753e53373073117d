/** How the bucket objects of a table hang together: chains of overflow links, one chain per primary
    bucket, none sharing a bucket; and the table of `TableModel` that they make up. */
module Wiring {
  import opened Options
  import opened TableModel
  import opened CacheModel

  type View<K, V> = map<BucketId, Page<K, V>>

  type Ids = seq<BucketId>

  function Members(ids: Ids): set<BucketId> {
    set b | b in ids
  }

  predicate NoRepeats(ids: Ids) {
    forall i, j | 0 <= i < j < |ids| :: ids[i] != ids[j]
  }

  /** Bucket `j` of a chain is live and links to the next bucket, the last one to none. */
  ghost predicate LinkAt<K, V>(view: View<K, V>, ids: Ids, j: nat)
    requires j < |ids|
  {
    && ids[j] in view
    && (j + 1 == |ids| ==> view[ids[j]].overflow.None?)
    && (j + 1 < |ids| ==> view[ids[j]].overflow.Some? && ids[j + 1] == Overflow(view[ids[j]].overflow.value))
  }

  ghost predicate WiredChain<K, V>(view: View<K, V>, ids: Ids) {
    && NoRepeats(ids)
    && (forall j | 0 <= j < |ids| :: LinkAt(view, ids, j))
    && (forall j | 1 <= j < |ids| :: ids[j].Overflow?)
  }

  /** The records of a chain of buckets, as a chain of the model. */
  ghost function ChainOf<K, V>(view: View<K, V>, ids: Ids): (c: Chain<K, V>)
    ensures |c| == |ids|
    ensures forall j | 0 <= j < |ids| && ids[j] in view :: c[j] == view[ids[j]].records
  {
    seq(|ids|, j requires 0 <= j < |ids| => if ids[j] in view then view[ids[j]].records else [])
  }

  ghost function ChainsOf<K, V>(view: View<K, V>, chains: seq<Ids>): (c: seq<Chain<K, V>>)
    ensures |c| == |chains|
    ensures forall i | 0 <= i < |chains| :: c[i] == ChainOf(view, chains[i])
  {
    seq(|chains|, i requires 0 <= i < |chains| => ChainOf(view, chains[i]))
  }

  ghost predicate Apart(chains: seq<Ids>) {
    forall i, j | 0 <= i < j < |chains| :: Members(chains[i]) !! Members(chains[j])
  }

  /** The chains of a table, the chain `extra` that is being drained, and nothing else. */
  ghost predicate Wired<K, V>(view: View<K, V>, chains: seq<Ids>, extra: Ids) {
    && (forall i | 0 <= i < |chains| :: chains[i] != [] && chains[i][0] == Primary(i) && WiredChain(view, chains[i]))
    && WiredChain(view, extra)
    && Apart(chains)
    && (forall i | 0 <= i < |chains| :: Members(chains[i]) !! Members(extra))
    && (forall b | b in view :: b in extra || exists i | 0 <= i < |chains| :: b in chains[i])
  }

  lemma NotShared(a: Ids, b: Ids, x: BucketId)
    requires Members(a) !! Members(b) && x in b
    ensures x !in a
  {
    assert x in Members(b);
    assert x in a <==> x in Members(a);
  }

  /** The two views agree on a chain. */
  ghost predicate SameOn<K, V>(v: View<K, V>, w: View<K, V>, ids: Ids) {
    forall b | b in ids :: b in v && b in w && w[b] == v[b]
  }

  lemma SameChain<K, V>(v: View<K, V>, w: View<K, V>, ids: Ids)
    requires WiredChain(v, ids) && SameOn(v, w, ids)
    ensures WiredChain(w, ids) && ChainOf(w, ids) == ChainOf(v, ids)
  {
    forall j | 0 <= j < |ids|
      ensures LinkAt(w, ids, j)
      ensures ChainOf(w, ids)[j] == ChainOf(v, ids)[j]
    {
      assert LinkAt(v, ids, j);
      assert ids[j] in ids;
    }
  }

  // ---- Changing one chain ------------------------------------------------------------------

  /** Changing the records of bucket `j` of a chain. */
  lemma RewriteChain<K, V>(v: View<K, V>, ids: Ids, j: nat, records: Bucket<K, V>)
    requires WiredChain(v, ids) && j < |ids|
    ensures ids[j] in v
    ensures var w := v[ids[j] := v[ids[j]].(records := records)];
      WiredChain(w, ids) && ChainOf(w, ids) == ChainOf(v, ids)[j := records]
  {
    assert LinkAt(v, ids, j);
    var w := v[ids[j] := v[ids[j]].(records := records)];
    forall k | 0 <= k < |ids|
      ensures LinkAt(w, ids, k)
      ensures ChainOf(w, ids)[k] == ChainOf(v, ids)[j := records][k]
    {
      assert LinkAt(v, ids, k);
    }
  }

  /** Chaining a new, empty bucket off the last one. */
  lemma ExtendChain<K, V>(v: View<K, V>, ids: Ids, i: nat)
    requires WiredChain(v, ids) && ids != [] && Overflow(i) !in v
    ensures var last := ids[|ids| - 1];
      && last in v && v[last].overflow.None?
      && var w := v[last := v[last].(overflow := Some(i))][Overflow(i) := Page(None, [])];
         WiredChain(w, ids + [Overflow(i)]) && ChainOf(w, ids + [Overflow(i)]) == ChainOf(v, ids) + [[]]
  {
    var n := |ids| - 1;
    assert LinkAt(v, ids, n);
    var last := ids[n];
    var w := v[last := v[last].(overflow := Some(i))][Overflow(i) := Page(None, [])];
    var more := ids + [Overflow(i)];
    forall k | 0 <= k < |ids|
      ensures ids[k] in v
    {
      assert LinkAt(v, ids, k);
    }
    forall k | 0 <= k < |more|
      ensures LinkAt(w, more, k)
      ensures ChainOf(w, more)[k] == (ChainOf(v, ids) + [[]])[k]
    {
      assert k < |ids| ==> LinkAt(v, ids, k);
    }
  }

  /** Replacing the buckets of chain `c`, when nothing else changes. */
  lemma ReplaceChain<K, V>(v: View<K, V>, w: View<K, V>, chains: seq<Ids>, extra: Ids, c: nat, ids: Ids)
    requires Wired(v, chains, extra) && c < |chains|
    requires ids != [] && ids[0] == Primary(c) && WiredChain(w, ids)
    requires forall b | b in v && b !in chains[c] :: b in w && w[b] == v[b]
    requires forall b | b in ids :: b in chains[c] || b !in v
    requires forall b | b in w :: b in v || b in ids
    requires forall b | b in chains[c] :: b in ids
    ensures Wired(w, chains[c := ids], extra)
    ensures ChainsOf(w, chains[c := ids]) == ChainsOf(v, chains)[c := ChainOf(w, ids)]
    ensures ChainOf(w, extra) == ChainOf(v, extra)
  {
    hide WiredChain, LinkAt, ChainOf;
    ExtraStays(v, w, chains, extra, c, ids);
    forall i | 0 <= i < |chains| && i != c
      ensures WiredChain(w, chains[i]) && ChainOf(w, chains[i]) == ChainOf(v, chains[i])
      ensures Members(chains[i]) !! Members(ids)
    {
      OtherChain(v, w, chains, c, i, ids);
    }
    ReplacedCovers(v, w, chains, extra, c, ids);
  }

  /** The chain that is being drained is not affected. */
  lemma ExtraStays<K, V>(v: View<K, V>, w: View<K, V>, chains: seq<Ids>, extra: Ids, c: nat, ids: Ids)
    requires c < |chains| && WiredChain(v, extra) && Members(chains[c]) !! Members(extra)
    requires forall b | b in v && b !in chains[c] :: b in w && w[b] == v[b]
    requires forall b | b in ids :: b in chains[c] || b !in v
    ensures WiredChain(w, extra) && ChainOf(w, extra) == ChainOf(v, extra) && Members(ids) !! Members(extra)
  {
    hide WiredChain, LinkAt, ChainOf;
    MembersLive(v, extra);
    forall b | b in extra
      ensures b in v && b in w && w[b] == v[b] && b !in ids
    {
      NotShared(chains[c], extra, b);
    }
    SameChain(v, w, extra);
  }

  lemma ReplacedCovers<K, V>(v: View<K, V>, w: View<K, V>, chains: seq<Ids>, extra: Ids, c: nat, ids: Ids)
    requires c < |chains| && forall b | b in v :: b in extra || exists i | 0 <= i < |chains| :: b in chains[i]
    requires forall b | b in w :: b in v || b in ids
    requires forall b | b in chains[c] :: b in ids
    ensures var more := chains[c := ids]; forall b | b in w :: b in extra || exists i | 0 <= i < |more| :: b in more[i]
  {
    var new' := chains[c := ids];
    forall b | b in w
      ensures b in extra || exists i | 0 <= i < |chains| :: b in new'[i]
    {
      if b !in extra {
        if b in ids {
          assert b in new'[c];
        } else {
          var i :| 0 <= i < |chains| && b in chains[i];
          assert b in new'[i];
        }
      }
    }
  }

  lemma MembersLive<K, V>(v: View<K, V>, ids: Ids)
    requires WiredChain(v, ids)
    ensures forall b | b in ids :: b in v
  {
    forall b | b in ids
      ensures b in v
    {
      var j :| 0 <= j < |ids| && ids[j] == b;
      assert LinkAt(v, ids, j);
    }
  }

  lemma OtherChain<K, V>(v: View<K, V>, w: View<K, V>, chains: seq<Ids>, c: nat, i: nat, ids: Ids)
    requires c < |chains| && i < |chains| && i != c && Apart(chains) && WiredChain(v, chains[i])
    requires forall b | b in v && b !in chains[c] :: b in w && w[b] == v[b]
    requires forall b | b in ids :: b in chains[c] || b !in v
    ensures WiredChain(w, chains[i]) && ChainOf(w, chains[i]) == ChainOf(v, chains[i])
    ensures Members(chains[i]) !! Members(ids)
  {
    MembersLive(v, chains[i]);
    assert Members(chains[i]) !! Members(chains[c]);
    forall b | b in chains[i]
      ensures b in v && b in w && w[b] == v[b] && b !in ids
    {
      NotShared(chains[c], chains[i], b);
    }
    SameChain(v, w, chains[i]);
  }

  // ---- Opening, closing, draining ----------------------------------------------------------

  /** The last chain is taken out of the table. */
  lemma CloseLast<K, V>(v: View<K, V>, chains: seq<Ids>)
    requires Wired(v, chains, []) && chains != []
    ensures var n := |chains| - 1; Wired(v, chains[..n], chains[n]) && ChainsOf(v, chains[..n]) == ChainsOf(v, chains)[..n]
  {
    var n := |chains| - 1;
    forall b | b in v
      ensures b in chains[n] || exists i | 0 <= i < n :: b in chains[..n][i]
    {
      var i :| 0 <= i < |chains| && b in chains[i];
      assert i < n ==> b in chains[..n][i];
    }
  }

  /** Chain `p` makes way for an empty one, and another empty one is added at the end; what was in
      chain `p`, its first bucket renamed, is left to be drained. */
  lemma OpenTwo<K, V>(v: View<K, V>, chains: seq<Ids>, p: nat)
    requires Wired(v, chains, []) && p < |chains|
    requires Detached(p) !in v && Primary(|chains|) !in v
    ensures Primary(p) in v
    ensures Wired(Opened(v, |chains|, p), Wider(chains, p), chains[p][0 := Detached(p)])
  {
    hide WiredChain, LinkAt, Apart, ChainOf, Members, Opened;
    OpenedLinks(v, chains, p);
    UntouchedChains(v, chains, p);
    OpenedApart(chains, p, chains[p][0 := Detached(p)]);
    forall b | b in Opened(v, |chains|, p)
      ensures b in chains[p][0 := Detached(p)] || exists i | 0 <= i < |Wider(chains, p)| :: b in Wider(chains, p)[i]
    {
      OpenedCovers(v, chains, p, b);
    }
  }

  lemma OpenedLinks<K, V>(v: View<K, V>, chains: seq<Ids>, p: nat)
    requires Wired(v, chains, []) && p < |chains| && Detached(p) !in v && Primary(|chains|) !in v
    ensures Primary(p) in v
    ensures WiredChain(Opened(v, |chains|, p), [Primary(p)])
    ensures WiredChain(Opened(v, |chains|, p), [Primary(|chains|)])
    ensures WiredChain(Opened(v, |chains|, p), chains[p][0 := Detached(p)])
    ensures ChainOf(Opened(v, |chains|, p), chains[p][0 := Detached(p)]) == ChainOf(v, chains[p])
    ensures Primary(p) !in Members(chains[p][0 := Detached(p)]) && Primary(|chains|) !in Members(chains[p][0 := Detached(p)])
  {
    hide WiredChain, LinkAt, Apart, ChainOf, Members;
    MembersLive(v, chains[p]);
    assert chains[p][0] in chains[p];
    RenameFirst(v, Opened(v, |chains|, p), chains[p], p);
    NewChains(v, |chains|, p);
    NoPrimaries(chains[p], p, v);
  }

  /** The table after `OpenTwo` has an empty chain in place of chain `p` and one more at the end. */
  lemma OpenTwoChains<K, V>(v: View<K, V>, chains: seq<Ids>, p: nat)
    requires Wired(v, chains, []) && p < |chains| && Detached(p) !in v && Primary(|chains|) !in v
    ensures Primary(p) in v
    ensures ChainOf(Opened(v, |chains|, p), chains[p][0 := Detached(p)]) == ChainOf(v, chains[p])
    ensures ChainsOf(Opened(v, |chains|, p), Wider(chains, p)) == ChainsOf(v, chains)[p := [[]]] + [[[]]]
  {
    hide WiredChain, LinkAt, Apart, ChainOf, Members, Opened;
    OpenedLinks(v, chains, p);
    UntouchedChains(v, chains, p);
    NewChains(v, |chains|, p);
  }

  function Wider(chains: seq<Ids>, p: nat): seq<Ids>
    requires p < |chains|
  {
    chains[p := [Primary(p)]] + [[Primary(|chains|)]]
  }

  lemma NewChains<K, V>(v: View<K, V>, n: nat, p: nat)
    requires Primary(p) in v
    ensures WiredChain(Opened(v, n, p), [Primary(p)]) && ChainOf(Opened(v, n, p), [Primary(p)]) == [[]]
    ensures WiredChain(Opened(v, n, p), [Primary(n)]) && ChainOf(Opened(v, n, p), [Primary(n)]) == [[]]
  {
    Single(Opened(v, n, p), Primary(p));
    Single(Opened(v, n, p), Primary(n));
  }

  lemma UntouchedChains<K, V>(v: View<K, V>, chains: seq<Ids>, p: nat)
    requires Wired(v, chains, []) && p < |chains|
    requires Detached(p) !in v && Primary(|chains|) !in v && Primary(p) in v
    ensures forall i | 0 <= i < |chains| && i != p ::
      && WiredChain(Opened(v, |chains|, p), chains[i])
      && ChainOf(Opened(v, |chains|, p), chains[i]) == ChainOf(v, chains[i])
      && Members(chains[i]) !! Members(chains[p][0 := Detached(p)])
      && Primary(p) !in Members(chains[i]) && Primary(|chains|) !in Members(chains[i])
  {
    hide WiredChain, Opened, ChainOf, Members;
    forall i | 0 <= i < |chains| && i != p
      ensures WiredChain(Opened(v, |chains|, p), chains[i])
      ensures ChainOf(Opened(v, |chains|, p), chains[i]) == ChainOf(v, chains[i])
      ensures Members(chains[i]) !! Members(chains[p][0 := Detached(p)])
      ensures Primary(p) !in Members(chains[i]) && Primary(|chains|) !in Members(chains[i])
    {
      UntouchedChain(v, Opened(v, |chains|, p), chains, p, i);
    }
  }

  lemma OpenedApart(chains: seq<Ids>, p: nat, target: Ids)
    requires Apart(chains) && p < |chains|
    requires forall i | 0 <= i < |chains| && i != p ::
      Members(chains[i]) !! Members(target)
      && Primary(p) !in Members(chains[i]) && Primary(|chains|) !in Members(chains[i])
    requires Primary(p) !in Members(target) && Primary(|chains|) !in Members(target)
    ensures var wider := Wider(chains, p);
      Apart(wider) && forall i | 0 <= i < |wider| :: Members(wider[i]) !! Members(target)
  {
    assert Members([Primary(p)]) == {Primary(p)} && Members([Primary(|chains|)]) == {Primary(|chains|)};
  }

  lemma NoPrimaries<K, V>(ids: Ids, p: nat, v: View<K, V>)
    requires WiredChain(v, ids) && ids != []
    ensures forall i: nat :: Primary(i) !in Members(ids[0 := Detached(p)])
  {
  }

  ghost function Opened<K, V>(v: View<K, V>, n: nat, p: nat): View<K, V>
    requires Primary(p) in v
  {
    (v - {Primary(p)})[Detached(p) := v[Primary(p)]][Primary(p) := Page(None, [])][Primary(n) := Page(None, [])]
  }

  lemma UntouchedChain<K, V>(v: View<K, V>, w: View<K, V>, chains: seq<Ids>, p: nat, i: nat)
    requires Wired(v, chains, []) && p < |chains| && i < |chains| && i != p
    requires Detached(p) !in v && Primary(|chains|) !in v && Primary(p) in v && w == Opened(v, |chains|, p)
    ensures WiredChain(w, chains[i]) && ChainOf(w, chains[i]) == ChainOf(v, chains[i])
    ensures Members(chains[i]) !! Members(chains[p][0 := Detached(p)])
    ensures Primary(p) !in Members(chains[i]) && Primary(|chains|) !in Members(chains[i])
  {
    hide WiredChain;
    MembersLive(v, chains[i]);
    assert Members(chains[i]) !! Members(chains[p]);
    var target := chains[p][0 := Detached(p)];
    forall b | b in chains[i]
      ensures b in v && b in w && w[b] == v[b] && b !in target
    {
      NotShared(chains[p], chains[i], b);
      RenamedMembers(chains[p], p, b);
    }
    SameChain(v, w, chains[i]);
  }

  lemma RenamedMembers(ids: Ids, p: nat, b: BucketId)
    requires ids != []
    ensures b in ids[0 := Detached(p)] ==> b == Detached(p) || b in ids
  {
  }

  lemma OpenedCovers<K, V>(v: View<K, V>, chains: seq<Ids>, p: nat, b: BucketId)
    requires Wired(v, chains, []) && p < |chains| && Primary(p) in v && b in Opened(v, |chains|, p)
    ensures var wider := Wider(chains, p);
      b in chains[p][0 := Detached(p)] || exists i | 0 <= i < |wider| :: b in wider[i]
  {
    hide WiredChain, Apart;
    var n := |chains|;
    var wider, target := Wider(chains, p), chains[p][0 := Detached(p)];
    if b == Primary(p) {
      assert b in wider[p];
    } else if b == Primary(n) {
      assert b in wider[n];
    } else if b == Detached(p) {
      assert b == target[0];
    } else {
      var i :| 0 <= i < n && b in chains[i];
      if i == p {
        var j :| 0 <= j < |chains[p]| && chains[p][j] == b;
        assert target[j] == b;
      } else {
        assert b in wider[i];
      }
    }
  }

  lemma Single<K, V>(w: View<K, V>, b: BucketId)
    requires b in w && w[b] == Page(None, [])
    ensures WiredChain(w, [b]) && ChainOf(w, [b]) == [[]]
  {
  }

  lemma RenameFirst<K, V>(v: View<K, V>, w: View<K, V>, ids: Ids, p: nat)
    requires WiredChain(v, ids) && ids != [] && ids[0] == Primary(p) && Detached(p) !in v
    requires Primary(p) in v && Detached(p) in w && w[Detached(p)] == v[Primary(p)]
    requires forall b | b in ids && b != Primary(p) :: b in v && b in w && w[b] == v[b]
    ensures WiredChain(w, ids[0 := Detached(p)]) && ChainOf(w, ids[0 := Detached(p)]) == ChainOf(v, ids)
  {
    var new' := ids[0 := Detached(p)];
    forall j | 0 <= j < |ids|
      ensures LinkAt(w, new', j)
      ensures ChainOf(w, new')[j] == ChainOf(v, ids)[j]
    {
      assert LinkAt(v, ids, j);
      assert ids[j] in ids;
    }
  }

  /** The first bucket of the chain to be drained is discarded. */
  lemma DiscardFirst<K, V>(v: View<K, V>, chains: seq<Ids>, extra: Ids)
    requires Wired(v, chains, extra) && extra != []
    ensures extra[0] in v
    ensures Wired(v - {extra[0]}, chains, extra[1..])
    ensures ChainOf(v - {extra[0]}, extra[1..]) == ChainOf(v, extra)[1..]
    ensures ChainsOf(v - {extra[0]}, chains) == ChainsOf(v, chains)
  {
    hide WiredChain, LinkAt, ChainOf;
    var b := extra[0];
    var w := v - {b};
    MembersLive(v, extra);
    TailWired(v, extra);
    assert SameOn(v, w, extra[1..]);
    SameChain(v, w, extra[1..]);
    forall i | 0 <= i < |chains|
      ensures WiredChain(w, chains[i]) && ChainOf(w, chains[i]) == ChainOf(v, chains[i])
      ensures Members(chains[i]) !! Members(extra[1..])
    {
      MembersLive(v, chains[i]);
      NotShared(chains[i], extra, b);
      SameChain(v, w, chains[i]);
      assert Members(extra[1..]) <= Members(extra);
    }
    forall x | x in w
      ensures x in extra[1..] || exists i | 0 <= i < |chains| :: x in chains[i]
    {
      if x in extra {
        var j :| 0 <= j < |extra| && extra[j] == x;
        assert extra[1..][j - 1] == x;
      }
    }
  }

  lemma TailWired<K, V>(v: View<K, V>, ids: Ids)
    requires WiredChain(v, ids) && ids != []
    ensures WiredChain(v, ids[1..]) && ChainOf(v, ids[1..]) == ChainOf(v, ids)[1..] && ids[0] !in ids[1..]
  {
    forall j | 0 <= j < |ids| - 1
      ensures LinkAt(v, ids[1..], j)
      ensures ChainOf(v, ids[1..])[j] == ChainOf(v, ids)[1..][j]
    {
      assert LinkAt(v, ids, j + 1);
    }
  }
}
