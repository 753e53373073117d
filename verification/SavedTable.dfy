/** The table that the two files hold: what `initialize` finds when it opens them, whether or not they
    are up to date. */
module SavedTables {
  import opened Options
  import opened TableModel
  import opened TableMap
  import opened CacheModel
  import opened BucketManager
  import opened Wiring

  /** The overflow buckets that the links in the overflow file lead to.  No chain is longer than the
      file has pages. */
  function Follow<K, V>(pages: map<nat, Page<K, V>>, link: Option<nat>, fuel: nat): Ids
    decreases fuel
  {
    if link.None? || fuel == 0 || link.value !in pages then []
    else [Overflow(link.value)] + Follow(pages, pages[link.value].overflow, fuel - 1)
  }

  function SavedChain<K, V>(files: Files<K, V>, i: nat): (ids: Ids)
    ensures ids != [] && ids[0] == Primary(i)
  {
    [Primary(i)] + if i in files.primary then Follow(files.overflow, files.primary[i].overflow, |files.overflow|) else []
  }

  function SavedIds<K, V>(files: Files<K, V>): (chains: seq<Ids>)
    requires files.stored.Some?
    ensures |chains| == files.stored.value.meta.primaryCount
    ensures forall i | 0 <= i < |chains| :: chains[i] == SavedChain(files, i)
  {
    seq(files.stored.value.meta.primaryCount, i requires i >= 0 => SavedChain(files, i))
  }

  function SavedPage<K, V>(files: Files<K, V>, b: BucketId): Page<K, V> {
    match b
    case Overflow(i) => if i in files.overflow then files.overflow[i] else Page(None, [])
    case Primary(i) => if i in files.primary then files.primary[i] else Page(None, [])
    case Detached(i) => Page(None, [])
  }

  ghost function SavedView<K, V>(files: Files<K, V>): (view: View<K, V>)
    requires files.stored.Some?
    ensures forall b | b in view :: view[b] == SavedPage(files, b) && exists i | 0 <= i < |SavedIds(files)| :: b in SavedIds(files)[i]
    ensures forall i, b | 0 <= i < |SavedIds(files)| && b in SavedIds(files)[i] :: b in view
  {
    var chains := SavedIds(files);
    var members := set i, j | 0 <= i < |chains| && 0 <= j < |chains[i]| :: chains[i][j];
    map b | b in members :: SavedPage(files, b)
  }

  ghost function SavedTable<K, V>(files: Files<K, V>): Table<K, V>
    requires files.stored.Some?
  {
    var meta := files.stored.value.meta;
    Table(meta.n, meta.p, meta.size, ChainsOf(SavedView(files), SavedIds(files)))
  }

  /** Everything is written: every page is what its bucket holds. */
  ghost predicate AllOnFile<K, V>(view: View<K, V>, files: Files<K, V>) {
    forall b | b in view :: match b
      case Overflow(i) => i in files.overflow && files.overflow[i] == view[b]
      case Primary(i) => i in files.primary && files.primary[i] == view[b]
      case Detached(i) => false
  }

  /** When everything is written, the files hold every chain of the table; behind them they may hold
      more chains, which have been merged away since. */
  lemma SavedIs<K, V>(view: View<K, V>, chains: seq<Ids>, files: Files<K, V>)
    requires Wired(view, chains, []) && AllOnFile(view, files)
    requires files.stored.Some? && |chains| <= files.stored.value.meta.primaryCount
    ensures forall i | 0 <= i < |chains| :: SavedIds(files)[i] == chains[i]
    ensures SavedTable(files).chains[..|chains|] == ChainsOf(view, chains)
    ensures |chains| == files.stored.value.meta.primaryCount ==> SavedIds(files) == chains && SavedView(files) == view
  {
    hide Wired, Follow, SavedView, SavedChain, ChainOf, AllOnFile;
    forall i | 0 <= i < |chains|
      ensures SavedIds(files)[i] == chains[i] && ChainOf(SavedView(files), chains[i]) == ChainOf(view, chains[i])
    {
      SavedChainIs(view, chains, files, i);
    }
    if |chains| == files.stored.value.meta.primaryCount {
      assert SavedIds(files) == chains;
      SavedViewIs(view, chains, files);
    }
  }

  lemma SavedViewIs<K, V>(view: View<K, V>, chains: seq<Ids>, files: Files<K, V>)
    requires Wired(view, chains, []) && AllOnFile(view, files) && files.stored.Some? && SavedIds(files) == chains
    ensures SavedView(files) == view
  {
    hide WiredChain, SavedIds, SavedView, Apart, Members;
    forall b | b in view
      ensures b in SavedView(files) && SavedView(files)[b] == view[b]
    {
      var i :| 0 <= i < |chains| && b in chains[i];
    }
    forall b | b in SavedView(files)
      ensures b in view
    {
      var i :| 0 <= i < |SavedIds(files)| && b in SavedIds(files)[i];
      MembersLive(view, chains[i]);
    }
  }

  lemma SavedChainIs<K, V>(view: View<K, V>, chains: seq<Ids>, files: Files<K, V>, i: nat)
    requires Wired(view, chains, []) && AllOnFile(view, files) && i < |chains|
    requires files.stored.Some? && |chains| <= files.stored.value.meta.primaryCount
    ensures SavedChain(files, i) == chains[i] && ChainOf(SavedView(files), chains[i]) == ChainOf(view, chains[i])
  {
    hide SavedView, Apart, Members, Follow;
    var chain := chains[i];
    assert LinkAt(view, chain, 0);
    ChainFits(view, files, chain);
    FollowIs(view, files, chain, 0, |files.overflow|);
    assert chain == [chain[0]] + chain[1..];
    assert SavedIds(files)[i] == chain;
    MembersLive(view, chain);
    SameChain(view, SavedView(files), chain);
  }

  lemma {:induction false} FollowIs<K, V>(view: View<K, V>, files: Files<K, V>, chain: Ids, j: nat, fuel: nat)
    requires WiredChain(view, chain) && AllOnFile(view, files) && j < |chain| && |chain| - 1 - j <= fuel
    ensures chain[j] in view && Follow(files.overflow, view[chain[j]].overflow, fuel) == chain[j + 1..]
    decreases |chain| - j
  {
    assert LinkAt(view, chain, j);
    if j + 1 < |chain| {
      assert LinkAt(view, chain, j + 1);
      FollowIs(view, files, chain, j + 1, fuel - 1);
    }
  }

  /** A chain has no more overflow buckets than the overflow file has pages. */
  lemma ChainFits<K, V>(view: View<K, V>, files: Files<K, V>, chain: Ids)
    requires WiredChain(view, chain) && AllOnFile(view, files) && chain != []
    ensures |chain| - 1 <= |files.overflow|
  {
    MembersLive(view, chain);
    var rest := chain[1..];
    forall k | 0 <= k < |rest|
      ensures rest[k].Overflow? && rest[k].index in files.overflow
    {
      assert rest[k] in chain;
    }
    SlotsDistinct(rest, files.overflow.Keys);
  }

  lemma {:induction false} SlotsDistinct(ids: Ids, slots: set<nat>)
    requires NoRepeats(ids) && forall k | 0 <= k < |ids| :: ids[k].Overflow? && ids[k].index in slots
    ensures |ids| <= |slots|
  {
    if ids != [] {
      SlotsDistinct(ids[1..], slots - {ids[0].index});
    }
  }

  /** The files hold a table that can be opened. */
  ghost predicate Loadable<K, V>(cfg: Config<K>, files: Files<K, V>) {
    && files.stored.Some? && Tidy(files.stored.value)
    && var view := SavedView(files);
    && Wired(view, SavedIds(files), []) && WellFormed(cfg, SavedTable(files))
    && AllOnFile(view, files)
    && (forall b | b in view :: Held(files.stored.value, b))
    && (forall b, c | b in view && c in view && b != c :: view[b].overflow.Some? ==> view[b].overflow != view[c].overflow)
  }
}
