/**
 The UTXO cache stack: `CoinsViewCache` objects on top of each other, the lowest
 on the coin database.  A cache keeps entries with two flags: DIRTY, the entry may
 differ from the view below, and FRESH, the view below has no unspent coin here.
 The coins a stack denotes are those of its base overlaid with the cache entries;
 every operation is proved to act on that map as on a plain one, and to keep the
 promises of the flags on which erasing instead of writing back depends.
 */
module Coins {

  import opened Options

  datatype OutPoint = OutPoint(txid: nat, n: nat)
  datatype Coin = Coin(value: int, script: seq<nat>, coinbase: bool, height: nat)

  const OP_RETURN: nat := 0x6a
  const MAX_SCRIPT_SIZE: nat := 10000
  const NoCoin := Coin(-1, [], false, 0)

  predicate IsSpent(c: Coin) { c.value == -1 }
  predicate IsUnspendable(c: Coin) { (|c.script| > 0 && c.script[0] == OP_RETURN) || |c.script| > MAX_SCRIPT_SIZE }

  datatype Entry = Entry(coin: Coin, dirty: bool, isFresh: bool)

  type CoinMap = map<OutPoint, Coin>
  type CacheMap = map<OutPoint, Entry>

  // ----- what a cache over a base denotes

  ghost function Overlay(base: CoinMap, cache: CacheMap): CoinMap {
    map o | o in base.Keys + cache.Keys && (o in cache ==> !IsSpent(cache[o].coin))
      :: if o in cache then cache[o].coin else base[o]
  }

  /** FRESH: nothing unspent below.  Not DIRTY: the same as below. */
  ghost predicate FlagsTrue(base: CoinMap, o: OutPoint, e: Entry) {
    && (e.isFresh ==> o !in base)
    && (!e.dirty ==> if IsSpent(e.coin) then o !in base else o in base && base[o] == e.coin)
  }

  ghost predicate AllFlagsTrue(base: CoinMap, cache: CacheMap) {
    forall o :: o in cache ==> FlagsTrue(base, o, cache[o])
  }

  ghost predicate Unspent(coins: CoinMap) { forall o :: o in coins ==> !IsSpent(coins[o]) }

  lemma OverlayUnspent(base: CoinMap, cache: CacheMap)
    requires Unspent(base)
    ensures Unspent(Overlay(base, cache))
  {
  }

  /** Reading an entry up from the base is invisible. */
  lemma OverlayFetch(base: CoinMap, cache: CacheMap, o: OutPoint)
    requires o in base && o !in cache && Unspent(base) && AllFlagsTrue(base, cache)
    ensures Overlay(base, cache[o := Entry(base[o], false, false)]) == Overlay(base, cache)
    ensures AllFlagsTrue(base, cache[o := Entry(base[o], false, false)])
  {
  }

  /** So is forgetting an unmodified one. */
  lemma OverlayUncache(base: CoinMap, cache: CacheMap, o: OutPoint)
    requires o in cache && !cache[o].dirty && AllFlagsTrue(base, cache) && Unspent(base)
    ensures Overlay(base, cache - {o}) == Overlay(base, cache) && AllFlagsTrue(base, cache - {o})
  {
    assert FlagsTrue(base, o, cache[o]);
  }

  lemma OverlayPut(base: CoinMap, cache: CacheMap, o: OutPoint, e: Entry)
    requires !IsSpent(e.coin)
    ensures Overlay(base, cache[o := e]) == Overlay(base, cache)[o := e.coin]
    ensures AllFlagsTrue(base, cache) ==> (AllFlagsTrue(base, cache[o := e]) <==> FlagsTrue(base, o, e))
  {
    assert cache[o := e][o] == e;
  }

  lemma OverlaySpend(base: CoinMap, cache: CacheMap, o: OutPoint)
    requires AllFlagsTrue(base, cache) && o in cache
    ensures var e := cache[o];
            var next := if e.isFresh then cache - {o} else cache[o := Entry(NoCoin, true, false)];
            Overlay(base, next) == Overlay(base, cache) - {o} && AllFlagsTrue(base, next)
  {
    assert FlagsTrue(base, o, cache[o]);
  }

  /** Adding without announcing an overwrite, then spending, is a plain removal
      exactly when the base had no such coin; otherwise the base coin reappears. */
  lemma FreshDuty(base: CoinMap, cache: CacheMap, o: OutPoint, coin: Coin)
    requires o !in cache && !IsSpent(coin)
    ensures var added := cache[o := Entry(coin, true, true)];
            Overlay(base, added - {o}) == Overlay(base, added) - {o} <==> o !in base
  {
    var added := cache[o := Entry(coin, true, true)];
    assert o in base ==> o in Overlay(base, added - {o});
  }

  /** The entry that adding leaves, where nothing is refused. */
  ghost function AddedTo(cache: CacheMap, o: OutPoint, coin: Coin, possibleOverwrite: bool): Entry {
    var was := if o in cache then cache[o] else Entry(NoCoin, false, false);
    Entry(coin, true, was.isFresh || (!possibleOverwrite && !was.dirty))
  }

  // ----- merging a child's entry into its parent

  /** What BatchWrite makes of the parent's entry, given the child's. */
  function Merge(ours: Option<Entry>, theirs: Entry): Option<Entry> {
    if !theirs.dirty then ours
    else if ours.None? then
      if theirs.isFresh && IsSpent(theirs.coin) then None else Some(Entry(theirs.coin, true, theirs.isFresh))
    else if ours.value.isFresh && IsSpent(theirs.coin) then None
    else Some(Entry(theirs.coin, true, ours.value.isFresh))
  }

  function At(cache: CacheMap, o: OutPoint): Option<Entry> { if o in cache then Some(cache[o]) else None }

  ghost predicate Merged(before: CacheMap, child: CacheMap, after: CacheMap) {
    forall o :: At(after, o) == if o in child then Merge(At(before, o), child[o]) else At(before, o)
  }

  /** The child claims FRESH where the parent has an unspent coin. */
  predicate Misapplied(cache: CacheMap, o: OutPoint, e: Entry) {
    e.dirty && e.isFresh && o in cache && !IsSpent(cache[o].coin)
  }

  /** What an optional cache entry over an optional base coin denotes. */
  ghost function Denotes(base: CoinMap, ours: Option<Entry>, o: OutPoint): Option<Coin> {
    if ours.Some? then (if IsSpent(ours.value.coin) then None else Some(ours.value.coin))
    else if o in base then Some(base[o]) else None
  }

  ghost function CoinAt(coins: CoinMap, o: OutPoint): Option<Coin> { if o in coins then Some(coins[o]) else None }

  lemma OverlayAt(base: CoinMap, cache: CacheMap, o: OutPoint)
    ensures CoinAt(Overlay(base, cache), o) == Denotes(base, At(cache, o), o)
  {
  }

  lemma MergeKey(base: CoinMap, parent: CacheMap, child: CacheMap, o: OutPoint)
    requires o in child && AllFlagsTrue(base, parent) && AllFlagsTrue(Overlay(base, parent), child)
    ensures var m := Merge(At(parent, o), child[o]);
            && Denotes(base, m, o) == Denotes(Overlay(base, parent), Some(child[o]), o)
            && (m.Some? ==> FlagsTrue(base, o, m.value))
            && !Misapplied(parent, o, child[o])
  {
    assert FlagsTrue(Overlay(base, parent), o, child[o]);
    assert o in parent ==> FlagsTrue(base, o, parent[o]);
    OverlayAt(base, parent, o);
  }

  /** With true flags in both, the merged parent denotes what the child denoted,
      and its own flags stay true. */
  lemma MergedOverlay(base: CoinMap, parent: CacheMap, child: CacheMap, merged: CacheMap)
    requires AllFlagsTrue(base, parent) && AllFlagsTrue(Overlay(base, parent), child)
    requires Merged(parent, child, merged)
    ensures Overlay(base, merged) == Overlay(Overlay(base, parent), child)
    ensures AllFlagsTrue(base, merged)
  {
    var a, b := Overlay(base, merged), Overlay(Overlay(base, parent), child);
    hide Overlay, Merge;
    forall o ensures CoinAt(a, o) == CoinAt(b, o)
                     && (o in merged ==> FlagsTrue(base, o, merged[o]))
    {
      OverlayAt(base, merged, o);
      OverlayAt(Overlay(base, parent), child, o);
      OverlayAt(base, parent, o);
      assert At(merged, o) == if o in child then Merge(At(parent, o), child[o]) else At(parent, o);
      if o in child { MergeKey(base, parent, child, o); }
    }
    SameCoins(a, b);
  }

  /** Entries of the child outside `todo` have been merged. */
  ghost predicate PartMerged(before: CacheMap, child: CacheMap, todo: CacheMap, now: CacheMap) {
    && (forall o :: o in todo ==> o in child && todo[o] == child[o])
    && (forall o :: At(now, o) == if o in child && o !in todo then Merge(At(before, o), child[o]) else At(before, o))
  }

  ghost predicate NoneWrong(before: CacheMap, child: CacheMap, todo: CacheMap) {
    forall o :: o in child && o !in todo ==> !Misapplied(before, o, child[o])
  }

  lemma PartMergedNone(before: CacheMap, child: CacheMap)
    ensures PartMerged(before, child, child, before) && NoneWrong(before, child, child)
  {
  }

  lemma PartMergedAt(before: CacheMap, child: CacheMap, todo: CacheMap, now: CacheMap, o: OutPoint)
    requires PartMerged(before, child, todo, now) && o in todo
    ensures o in child && todo[o] == child[o] && At(now, o) == At(before, o)
  {
  }

  lemma PartMergedNext(before: CacheMap, child: CacheMap, todo: CacheMap, now: CacheMap, o: OutPoint, next: CacheMap)
    requires PartMerged(before, child, todo, now) && NoneWrong(before, child, todo) && o in todo
    requires !Misapplied(now, o, todo[o])
    requires forall p :: At(next, p) == if p == o then Merge(At(now, o), todo[o]) else At(now, p)
    ensures PartMerged(before, child, todo - {o}, next) && NoneWrong(before, child, todo - {o})
  {
    hide Merge;
    assert At(now, o) == At(before, o);
  }

  lemma PartMergedAll(before: CacheMap, child: CacheMap, now: CacheMap)
    requires PartMerged(before, child, map[], now) && NoneWrong(before, child, map[])
    ensures Merged(before, child, now) && forall o :: o in child ==> !Misapplied(before, o, child[o])
  {
    hide Merge;
  }

  lemma NoneMisapplied(base: CoinMap, parent: CacheMap, child: CacheMap)
    requires AllFlagsTrue(base, parent)
    ensures AllFlagsTrue(Overlay(base, parent), child) ==> forall o :: o in child ==> !Misapplied(parent, o, child[o])
  {
    if AllFlagsTrue(Overlay(base, parent), child) {
      forall o | o in child ensures !Misapplied(parent, o, child[o]) { MergeKey(base, parent, child, o); }
    }
  }

  lemma SameCoins(a: CoinMap, b: CoinMap)
    requires forall o :: CoinAt(a, o) == CoinAt(b, o)
    ensures a == b
  {
    forall o ensures (o in a <==> o in b) && (o in a ==> a[o] == b[o]) { assert CoinAt(a, o) == CoinAt(b, o); }
  }

  // ----- memory accounting

  ghost function TotalUsage(usage: seq<nat> -> nat, m: CacheMap): nat
    decreases |m|
  {
    if m == map[] then 0 else
    var o :| o in m;
    usage(m[o].coin.script) + TotalUsage(usage, m - {o})
  }

  lemma {:induction false} UsageWithout(usage: seq<nat> -> nat, m: CacheMap, o: OutPoint)
    requires o in m
    ensures TotalUsage(usage, m) == usage(m[o].coin.script) + TotalUsage(usage, m - {o})
    decreases |m|
  {
    var p :| p in m && TotalUsage(usage, m) == usage(m[p].coin.script) + TotalUsage(usage, m - {p});
    if p != o {
      UsageWithout(usage, m - {p}, o);
      UsageWithout(usage, m - {o}, p);
      assert m - {p} - {o} == m - {o} - {p};
    }
  }

  lemma UsageWith(usage: seq<nat> -> nat, m: CacheMap, o: OutPoint, e: Entry)
    ensures TotalUsage(usage, m[o := e]) ==
            usage(e.coin.script) + TotalUsage(usage, m) - (if o in m then usage(m[o].coin.script) else 0)
  {
    UsageWithout(usage, m[o := e], o);
    if o in m {
      UsageWithout(usage, m, o);
      assert m[o := e] - {o} == m - {o};
    } else {
      assert m[o := e] - {o} == m;
    }
  }

  // ----- the objects

  /** The coin database under a stack. */
  class CoinsDatabase {
    var coins: CoinMap
    var bestBlock: nat

    /** Write the modified entries of a cache: spent coins are erased. */
    method BatchWrite(child: CacheMap, hash: nat)
      requires hash != 0
      modifies this
      ensures bestBlock == hash
      ensures forall o :: CoinAt(coins, o) ==
                if o in child && child[o].dirty
                then (if IsSpent(child[o].coin) then None else Some(child[o].coin)) else CoinAt(old(coins), o)
    {
      var todo := child;
      while todo != map[]
        invariant forall o :: o in todo ==> o in child && todo[o] == child[o]
        invariant forall o :: CoinAt(coins, o) ==
                    if o in child && o !in todo && child[o].dirty
                    then (if IsSpent(child[o].coin) then None else Some(child[o].coin)) else CoinAt(old(coins), o)
        decreases |todo|
      {
        var o :| o in todo;
        var e := todo[o];
        todo := todo - {o};
        if e.dirty {
          if IsSpent(e.coin) {
            coins := coins - {o};
          } else {
            coins := coins[o := e.coin];
          }
        }
      }
      bestBlock := hash;
    }
  }

  datatype View = Disk(db: CoinsDatabase) | Layer(cache: CoinsViewCache)

  class CoinsViewCache {
    const base: View
    const usage: seq<nat> -> nat
    var hashBlock: nat
    var cacheCoins: CacheMap
    var cachedCoinsUsage: int
    ghost const Repr: set<object>

    /** The stack below: finite, and not shared with this cache. */
    ghost predicate Linked()
      decreases Repr
    {
      && this in Repr && usage([]) == 0
      && match base
         case Disk(db) => db in Repr && this as object != db
         case Layer(c) => c in Repr && c.Repr < Repr && this !in c.Repr && c.Linked()
    }

    ghost function BaseCoins(): CoinMap
      requires Linked()
      reads Repr
      decreases Repr, 0
    {
      match base
      case Disk(db) => db.coins
      case Layer(c) => c.Coins()
    }

    /** The coins this stack denotes. */
    ghost function Coins(): CoinMap
      requires Linked()
      reads Repr
      decreases Repr, 1
    {
      Overlay(BaseCoins(), cacheCoins)
    }

    ghost predicate BaseValid()
      requires Linked()
      reads Repr
      decreases Repr, 0
    {
      match base
      case Disk(db) => Unspent(db.coins)
      case Layer(c) => c.Valid()
    }

    ghost predicate Valid()
      reads Repr
      decreases Repr, 1
    {
      && Linked()
      && BaseValid()
      && AllFlagsTrue(BaseCoins(), cacheCoins)
      && cachedCoinsUsage == TotalUsage(usage, cacheCoins)
    }

    /** Valid, but for what the flags of this cache promise. */
    ghost predicate Tallied()
      reads Repr
    {
      && Linked()
      && BaseValid()
      && cachedCoinsUsage == TotalUsage(usage, cacheCoins)
    }

    ghost function BaseBest(): nat
      requires Linked()
      reads Repr
      decreases Repr, 0
    {
      match base
      case Disk(db) => db.bestBlock
      case Layer(c) => c.BestBlock()
    }

    ghost function BestBlock(): nat
      requires Linked()
      reads Repr
      decreases Repr, 1
    {
      if hashBlock != 0 then hashBlock else BaseBest()
    }

    constructor (base: View, usage: seq<nat> -> nat)
      requires usage([]) == 0
      requires base.Layer? ==> base.cache.Valid()
      requires base.Disk? ==> Unspent(base.db.coins)
      ensures Valid() && Coins() == BaseCoins() && cacheCoins == map[] && this.base == base
      ensures fresh(Repr - (if base.Layer? then base.cache.Repr else {base.db}))
    {
      this.base, this.usage := base, usage;
      hashBlock, cacheCoins, cachedCoinsUsage := 0, map[], 0;
      Repr := {this} + (if base.Layer? then base.cache.Repr else {base.db});
    }

    lemma CoinsUnspent()
      requires Valid()
      ensures Unspent(BaseCoins()) && Unspent(Coins())
      decreases Repr
    {
      if base.Layer? { base.cache.CoinsUnspent(); }
      OverlayUnspent(BaseCoins(), cacheCoins);
    }

    /** Find the entry for an outpoint, reading it up from the base if need be. */
    method FetchCoin(o: OutPoint) returns (found: bool)
      requires Valid()
      modifies Repr
      ensures Valid() && Coins() == old(Coins()) && BaseCoins() == old(BaseCoins()) && BestBlock() == old(BestBlock())
      ensures (found <==> o in cacheCoins) && (found <==> o in old(cacheCoins) || o in Coins())
      ensures CoinAt(Coins(), o) == if found && !IsSpent(cacheCoins[o].coin) then Some(cacheCoins[o].coin) else None
      ensures hashBlock == old(hashBlock)
      ensures forall p :: p in old(cacheCoins) ==> p in cacheCoins && cacheCoins[p] == old(cacheCoins)[p]
      decreases Repr, 0
    {
      hide TotalUsage, AllFlagsTrue;
      if o in cacheCoins { return true; }
      CoinsUnspent();
      var ok, coin;
      match base {
        case Disk(db) =>
          ok := o in db.coins;
          coin := if ok then db.coins[o] else NoCoin;
        case Layer(c) =>
          ok, coin := c.GetCoin(o);
      }
      if !ok { return false; }
      OverlayFetch(BaseCoins(), cacheCoins, o);
      UsageWith(usage, cacheCoins, o, Entry(coin, false, IsSpent(coin)));
      cacheCoins := cacheCoins[o := Entry(coin, false, IsSpent(coin))];
      cachedCoinsUsage := cachedCoinsUsage + usage(coin.script);
      found := true;
    }

    method GetCoin(o: OutPoint) returns (ok: bool, coin: Coin)
      requires Valid()
      modifies Repr
      ensures Valid() && Coins() == old(Coins()) && BestBlock() == old(BestBlock())
      ensures ok <==> o in Coins()
      ensures ok ==> coin == Coins()[o] && !IsSpent(coin)
      decreases Repr, 1
    {
      var found := FetchCoin(o);
      if found {
        coin := cacheCoins[o].coin;
        ok := !IsSpent(coin);
      } else {
        ok, coin := false, NoCoin;
      }
    }

    method AccessCoin(o: OutPoint) returns (coin: Coin)
      requires Valid()
      modifies Repr
      ensures Valid() && Coins() == old(Coins()) && BestBlock() == old(BestBlock())
      ensures if o in Coins() then coin == Coins()[o] else IsSpent(coin)
    {
      var found := FetchCoin(o);
      coin := if found then cacheCoins[o].coin else NoCoin;
    }

    method HaveCoin(o: OutPoint) returns (have: bool)
      requires Valid()
      modifies Repr
      ensures Valid() && Coins() == old(Coins()) && BestBlock() == old(BestBlock()) && (have <==> o in Coins())
      ensures BaseCoins() == old(BaseCoins())
      ensures have ==> o in cacheCoins && !IsSpent(cacheCoins[o].coin)
    {
      var found := FetchCoin(o);
      have := found && !IsSpent(cacheCoins[o].coin);
    }

    method Uncache(o: OutPoint)
      requires Valid()
      modifies this
      ensures Valid() && Coins() == old(Coins()) && BestBlock() == old(BestBlock())
      ensures cacheCoins == if o in old(cacheCoins) && !old(cacheCoins)[o].dirty && !old(cacheCoins)[o].isFresh
                            then old(cacheCoins) - {o} else old(cacheCoins)
    {
      if o in cacheCoins && !cacheCoins[o].dirty && !cacheCoins[o].isFresh {
        CoinsUnspent();
        OverlayUncache(BaseCoins(), cacheCoins, o);
        UsageWithout(usage, cacheCoins, o);
        cachedCoinsUsage := cachedCoinsUsage - usage(cacheCoins[o].coin.script);
        cacheCoins := cacheCoins - {o};
      }
    }

    /** A coin is added as to a plain map; replacing an unspent one of the cache unannounced
        is refused, and then the memory count is off by that coin.  Replacing one that
        only the base has goes unnoticed, and then the FRESH flag is wrong. */
    method AddCoin(o: OutPoint, coin: Coin, possibleOverwrite: bool) returns (thrown: bool)
      requires Tallied() && !IsSpent(coin)
      modifies this
      ensures Linked() && BaseValid() && BaseCoins() == old(BaseCoins()) && hashBlock == old(hashBlock)
      ensures thrown <==> !IsUnspendable(coin) && !possibleOverwrite
                          && o in old(cacheCoins) && !IsSpent(old(cacheCoins)[o].coin)
      ensures Coins() == if thrown || IsUnspendable(coin) then old(Coins()) else old(Coins())[o := coin]
      ensures !thrown ==> Tallied()
      ensures cacheCoins == if thrown || IsUnspendable(coin) then old(cacheCoins)
                            else old(cacheCoins)[o := AddedTo(old(cacheCoins), o, coin, possibleOverwrite)]
      ensures old(Valid()) && !thrown ==>
                (Valid() <==> IsUnspendable(coin) || possibleOverwrite || o in old(cacheCoins) || o !in BaseCoins())
      ensures thrown ==> cachedCoinsUsage == old(cachedCoinsUsage) - usage(old(cacheCoins)[o].coin.script)
      ensures old(Valid()) && thrown ==> (Valid() <==> usage(old(cacheCoins)[o].coin.script) == 0)
    {
      hide Overlay, TotalUsage;
      thrown := false;
      if IsUnspendable(coin) { return; }
      var inserted := o !in cacheCoins;
      var e := if inserted then Entry(NoCoin, false, false) else cacheCoins[o];
      if !inserted {
        cachedCoinsUsage := cachedCoinsUsage - usage(e.coin.script);
      }
      var isFresh := false;
      if !possibleOverwrite {
        if !IsSpent(e.coin) { return true; }
        isFresh := !e.dirty;
      }
      var next := Entry(coin, true, e.isFresh || isFresh);
      OverlayPut(BaseCoins(), cacheCoins, o, next);
      UsageWith(usage, cacheCoins, o, next);
      assert old(Valid()) && !inserted ==> FlagsTrue(BaseCoins(), o, e);
      cacheCoins := cacheCoins[o := next];
      cachedCoinsUsage := cachedCoinsUsage + usage(coin.script);
    }

    /** A coin is removed as from a plain map; `moved` is what was there. */
    method SpendCoin(o: OutPoint) returns (found: bool, moved: Coin)
      requires Valid()
      modifies Repr
      ensures Valid() && Coins() == old(Coins()) - {o} && BaseCoins() == old(BaseCoins())
      ensures found <==> o in old(Coins()) || o in old(cacheCoins)
      ensures o in old(Coins()) ==> moved == old(Coins())[o]
      ensures found && o !in old(Coins()) ==> IsSpent(moved)
    {
      hide Overlay, TotalUsage, AllFlagsTrue, Unspent;
      found := FetchCoin(o);
      if !found { assert Coins() - {o} == Coins(); return false, NoCoin; }
      OverlaySpend(BaseCoins(), cacheCoins, o);
      UsageWithout(usage, cacheCoins, o);
      UsageWith(usage, cacheCoins, o, Entry(NoCoin, true, false));
      moved := cacheCoins[o].coin;
      cachedCoinsUsage := cachedCoinsUsage - usage(moved.script);
      if cacheCoins[o].isFresh {
        cacheCoins := cacheCoins - {o};
      } else {
        cacheCoins := cacheCoins[o := Entry(NoCoin, true, cacheCoins[o].isFresh)];
      }
    }

    method GetBestBlock() returns (hash: nat)
      requires Valid()
      modifies Repr
      ensures Valid() && Coins() == old(Coins()) && hash == BestBlock() == old(BestBlock())
      decreases Repr
    {
      if hashBlock == 0 {
        match base {
          case Disk(db) => hashBlock := db.bestBlock;
          case Layer(c) => var h := c.GetBestBlock(); hashBlock := h;
        }
      }
      hash := hashBlock;
    }

    method SetBestBlock(hash: nat)
      requires Valid()
      modifies this
      ensures Valid() && Coins() == old(Coins()) && BestBlock() == if hash != 0 then hash else BaseBest()
    {
      hashBlock := hash;
    }

    /** Merge the entries of the cache above, in any order. */
    method BatchWrite(child: CacheMap, hash: nat) returns (thrown: bool)
      requires Valid()
      modifies this
      ensures BaseCoins() == old(BaseCoins()) && BaseBest() == old(BaseBest())
      ensures thrown <==> exists o :: o in child && Misapplied(old(cacheCoins), o, child[o])
      ensures !thrown ==> Merged(old(cacheCoins), child, cacheCoins) && hashBlock == hash
      ensures AllFlagsTrue(old(Coins()), child) ==> !thrown && Valid() && Coins() == Overlay(old(Coins()), child)
    {
      hide TotalUsage, Overlay, AllFlagsTrue, PartMerged, Merged, NoneWrong;
      NoneMisapplied(BaseCoins(), cacheCoins, child);
      thrown := false;
      var todo := child;
      ghost var first := cacheCoins;
      PartMergedNone(first, child);
      while todo != map[]
        invariant PartMerged(first, child, todo, cacheCoins) && NoneWrong(first, child, todo)
        invariant cachedCoinsUsage == TotalUsage(usage, cacheCoins)
        invariant BaseCoins() == old(BaseCoins()) && BaseBest() == old(BaseBest()) && BaseValid()
        decreases |todo|
      {
        var o :| o in todo;
        PartMergedAt(first, child, todo, cacheCoins, o);
        if Misapplied(cacheCoins, o, todo[o]) { return true; }
        ghost var now := cacheCoins;
        BatchWriteOne(o, todo[o]);
        PartMergedNext(first, child, todo, now, o, cacheCoins);
        todo := todo - {o};
      }
      hashBlock := hash;
      PartMergedAll(first, child, cacheCoins);
      if AllFlagsTrue(old(Coins()), child) { MergedOverlay(BaseCoins(), first, child, cacheCoins); }
    }

    /** One round of BatchWrite. */
    method BatchWriteOne(o: OutPoint, e: Entry)
      requires cachedCoinsUsage == TotalUsage(usage, cacheCoins) && !Misapplied(cacheCoins, o, e)
      modifies `cacheCoins, `cachedCoinsUsage
      ensures cachedCoinsUsage == TotalUsage(usage, cacheCoins)
      ensures forall p :: At(cacheCoins, p) ==
                          if p == o then Merge(At(old(cacheCoins), o), e) else At(old(cacheCoins), p)
    {
      hide TotalUsage;
      if !e.dirty { return; }
      if o !in cacheCoins {
        if !(e.isFresh && IsSpent(e.coin)) {
          UsageWith(usage, cacheCoins, o, Entry(e.coin, true, e.isFresh));
          cacheCoins := cacheCoins[o := Entry(e.coin, true, e.isFresh)];
          cachedCoinsUsage := cachedCoinsUsage + usage(e.coin.script);
        }
      } else {
        var us := cacheCoins[o];
        UsageWithout(usage, cacheCoins, o);
        UsageWith(usage, cacheCoins, o, Entry(e.coin, true, us.isFresh));
        cachedCoinsUsage := cachedCoinsUsage - usage(us.coin.script);
        if us.isFresh && IsSpent(e.coin) {
          cacheCoins := cacheCoins - {o};
        } else {
          cacheCoins := cacheCoins[o := Entry(e.coin, true, us.isFresh)];
          cachedCoinsUsage := cachedCoinsUsage + usage(e.coin.script);
        }
      }
    }

    /** Push the changes down: the base then denotes what this cache denoted, and no
        FRESH flag is found misapplied.  The block hash is passed on as it is. */
    method Flush()
      requires Valid() && (base.Disk? ==> hashBlock != 0)
      modifies Repr
      ensures Valid() && cacheCoins == map[]
      ensures BaseCoins() == old(Coins()) && Coins() == old(Coins())
      ensures hashBlock == old(hashBlock)
      ensures base.Disk? ==> BaseBest() == old(hashBlock)
      ensures base.Layer? ==> BaseBest() == if old(hashBlock) != 0 then old(hashBlock) else old(base.cache.BaseBest())
    {
      hide Overlay, TotalUsage, AllFlagsTrue;
      CoinsUnspent();
      match base {
        case Disk(db) =>
          db.BatchWrite(cacheCoins, hashBlock);
          DiskOverlay(old(db.coins), cacheCoins, db.coins);
        case Layer(c) =>
          var thrown := c.BatchWrite(cacheCoins, hashBlock);
          assert !thrown;
      }
      cacheCoins := map[];
      cachedCoinsUsage := 0;
      EmptyCache(usage, BaseCoins());
    }
  }

  // ----- adding a transaction's outputs

  datatype Output = Output(value: int, script: seq<nat>)
  datatype Transaction = Transaction(txid: nat, coinbase: bool, outputs: seq<Output>)

  function OutputCoin(tx: Transaction, i: nat, height: nat): Coin
    requires i < |tx.outputs|
  {
    Coin(tx.outputs[i].value, tx.outputs[i].script, tx.coinbase, height)
  }

  /** A script that can never be satisfied: it starts with OP_RETURN or is longer than 10000 bytes. */
  ghost predicate Dead(script: seq<nat>) { (|script| > 0 && script[0] == 0x6a) || |script| > 10000 }

  /** The outputs of the transaction that can be spent are there, each with its value and script, and
      the height and kind of the transaction; no other coin has changed. */
  ghost predicate HasOutputs(before: CoinMap, tx: Transaction, n: nat, height: nat, after: CoinMap)
    requires n <= |tx.outputs|
  {
    forall o: OutPoint ::
      if o.txid == tx.txid && o.n < n && !Dead(tx.outputs[o.n].script)
      then
        && o in after && after[o].value == tx.outputs[o.n].value && after[o].script == tx.outputs[o.n].script
        && after[o].coinbase == tx.coinbase && after[o].height == height
      else CoinAt(after, o) == CoinAt(before, o)
  }

  /** None of the first n outputs that can be spent is there yet. */
  ghost predicate NoneYet(coins: CoinMap, tx: Transaction, n: nat)
    requires n <= |tx.outputs|
  {
    forall i :: 0 <= i < n && !Dead(tx.outputs[i].script) ==> OutPoint(tx.txid, i) !in coins
  }

  /** The cache holds this output, unspent. */
  ghost predicate Clashes(cache: CacheMap, tx: Transaction, i: nat)
    requires i < |tx.outputs|
  {
    var o := OutPoint(tx.txid, i);
    !Dead(tx.outputs[i].script) && o in cache && !IsSpent(cache[o].coin)
  }

  /** An output among the first n that was there before it was added. */
  ghost predicate Replaced(before: CoinMap, tx: Transaction, n: nat, p: OutPoint)
    requires n <= |tx.outputs|
  {
    p.txid == tx.txid && p.n < n && !Dead(tx.outputs[p.n].script) && p in before
  }

  /** After n outputs were added unannounced, exactly those replaced have wrong flags. */
  ghost predicate Flagged(base: CoinMap, before: CoinMap, cache: CacheMap, tx: Transaction, n: nat)
    requires n <= |tx.outputs|
  {
    && (forall p :: p in cache ==> (FlagsTrue(base, p, cache[p]) <==> !Replaced(before, tx, n, p)))
    && (forall k :: 0 <= k < n && !Dead(tx.outputs[k].script) ==> OutPoint(tx.txid, k) in cache)
  }

  lemma FlaggedNext(base: CoinMap, before: CoinMap, cache: CacheMap, tx: Transaction, i: nat, height: nat,
                    next: CacheMap)
    requires i < |tx.outputs| && Flagged(base, before, cache, tx, i) && !Clashes(cache, tx, i)
    requires var o := OutPoint(tx.txid, i); o in before <==> if o in cache then !IsSpent(cache[o].coin) else o in base
    requires var o, coin := OutPoint(tx.txid, i), OutputCoin(tx, i, height);
             next == if IsUnspendable(coin) then cache else cache[o := AddedTo(cache, o, coin, false)]
    ensures Flagged(base, before, next, tx, i + 1)
  {
    var o := OutPoint(tx.txid, i);
    forall p | p in next ensures FlagsTrue(base, p, next[p]) <==> !Replaced(before, tx, i + 1, p) {
      assert p in cache ==> (FlagsTrue(base, p, cache[p]) <==> !Replaced(before, tx, i, p));
      assert p != o ==> (Replaced(before, tx, i, p) <==> Replaced(before, tx, i + 1, p));
    }
  }

  lemma FlaggedAll(base: CoinMap, before: CoinMap, cache: CacheMap, tx: Transaction)
    requires Flagged(base, before, cache, tx, |tx.outputs|)
    ensures AllFlagsTrue(base, cache) <==> NoneYet(before, tx, |tx.outputs|)
  {
    var n := |tx.outputs|;
    if AllFlagsTrue(base, cache) {
      forall i | 0 <= i < n && !Dead(tx.outputs[i].script) ensures OutPoint(tx.txid, i) !in before {
        assert !Replaced(before, tx, n, OutPoint(tx.txid, i));
      }
    } else {
      var p :| p in cache && !FlagsTrue(base, p, cache[p]);
      assert Replaced(before, tx, n, p) && p == OutPoint(tx.txid, p.n);
    }
  }

  lemma FlaggedNone(base: CoinMap, before: CoinMap, cache: CacheMap, tx: Transaction)
    requires AllFlagsTrue(base, cache)
    ensures Flagged(base, before, cache, tx, 0)
  {
  }

  lemma ClashIsThere(base: CoinMap, cache: CacheMap, tx: Transaction, i: nat)
    requires i < |tx.outputs| && Clashes(cache, tx, i)
    ensures !NoneYet(Overlay(base, cache), tx, |tx.outputs|)
  {
    OverlayAt(base, cache, OutPoint(tx.txid, i));
  }

  lemma NotYetAdded(before: CoinMap, tx: Transaction, i: nat, height: nat, now: CoinMap)
    requires i < |tx.outputs| && HasOutputs(before, tx, i, height, now)
    ensures CoinAt(now, OutPoint(tx.txid, i)) == CoinAt(before, OutPoint(tx.txid, i))
  {
  }

  lemma HasNone(before: CoinMap, tx: Transaction, height: nat)
    ensures HasOutputs(before, tx, 0, height, before)
  {
  }

  lemma HasMore(before: CoinMap, tx: Transaction, i: nat, height: nat, now: CoinMap, after: CoinMap)
    requires i < |tx.outputs| && HasOutputs(before, tx, i, height, now)
    requires var coin := OutputCoin(tx, i, height);
             after == if IsUnspendable(coin) then now else now[OutPoint(tx.txid, i) := coin]
    ensures HasOutputs(before, tx, i + 1, height, after)
  {
  }

  /** One round of AddCoins. */
  method AddOutput(cache: CoinsViewCache, tx: Transaction, i: nat, height: nat, check: bool) returns (thrown: bool)
    requires cache.Tallied() && (check ==> cache.Valid()) && i < |tx.outputs| && tx.outputs[i].value != -1
    modifies cache.Repr
    ensures cache.Linked()
    ensures thrown <==> !check && !tx.coinbase && Clashes(old(cache.cacheCoins), tx, i)
    ensures var coin := OutputCoin(tx, i, height);
            !thrown ==> cache.Tallied()
                        && cache.Coins() == if IsUnspendable(coin) then old(cache.Coins())
                                            else old(cache.Coins())[OutPoint(tx.txid, i) := coin]
    ensures check || tx.coinbase ==> (old(cache.Valid()) ==> cache.Valid())
    ensures !check ==> cache.BaseCoins() == old(cache.BaseCoins())
    ensures var o, coin := OutPoint(tx.txid, i), OutputCoin(tx, i, height);
            !check && !tx.coinbase && !thrown ==>
              cache.cacheCoins == if IsUnspendable(coin) then old(cache.cacheCoins)
                                  else old(cache.cacheCoins)[o := AddedTo(old(cache.cacheCoins), o, coin, false)]
  {
    hide Overlay, TotalUsage, AllFlagsTrue;
    var o := OutPoint(tx.txid, i);
    var overwrite := tx.coinbase;
    if check {
      overwrite := cache.HaveCoin(o);
      OverlayAt(cache.BaseCoins(), cache.cacheCoins, o);
    }
    thrown := cache.AddCoin(o, OutputCoin(tx, i, height), overwrite);
  }

  /** With `check` the view is asked which outputs exist, and those of a coinbase may exist:
      then nothing is refused.  Otherwise the caller answers for the outputs being new: one
      that the cache has is refused, and one that only the base has leaves a wrong flag. */
  method AddCoins(cache: CoinsViewCache, tx: Transaction, height: nat, check: bool) returns (thrown: bool)
    requires cache.Valid()
    requires forall i :: 0 <= i < |tx.outputs| ==> tx.outputs[i].value != -1
    modifies cache.Repr
    ensures cache.Linked()
    ensures !thrown ==> HasOutputs(old(cache.Coins()), tx, |tx.outputs|, height, cache.Coins())
    ensures thrown <==> !check && !tx.coinbase
                        && exists i :: 0 <= i < |tx.outputs| && Clashes(old(cache.cacheCoins), tx, i)
    ensures !thrown && cache.Valid() <==>
              check || tx.coinbase || NoneYet(old(cache.Coins()), tx, |tx.outputs|)
  {
    hide Overlay, TotalUsage, AllFlagsTrue, Flagged, NoneYet, AddedTo, HasOutputs;
    thrown := false;
    ghost var before, first := cache.Coins(), cache.cacheCoins;
    ghost var asked := check || tx.coinbase;
    FlaggedNone(cache.BaseCoins(), before, first, tx);
    HasNone(before, tx, height);
    for i := 0 to |tx.outputs|
      invariant !thrown && cache.Tallied() && HasOutputs(before, tx, i, height, cache.Coins())
      invariant asked ==> cache.Valid()
      invariant !asked ==> Flagged(cache.BaseCoins(), before, cache.cacheCoins, tx, i)
      invariant !asked ==> forall p: OutPoint :: p.txid != tx.txid || i <= p.n ==>
                  At(cache.cacheCoins, p) == At(first, p)
      invariant !asked ==> forall k :: 0 <= k < i ==> !Clashes(first, tx, k)
    {
      ghost var o, base, now, coins := OutPoint(tx.txid, i), cache.BaseCoins(), cache.cacheCoins, cache.Coins();
      NotYetAdded(before, tx, i, height, coins);
      OverlayAt(base, now, o);
      thrown := AddOutput(cache, tx, i, height, check);
      assert !asked ==> At(now, o) == At(first, o);
      if thrown {
        assert Clashes(first, tx, i);
        ClashIsThere(old(cache.BaseCoins()), first, tx, i);
        return;
      }
      HasMore(before, tx, i, height, coins, cache.Coins());
      if !asked { FlaggedNext(base, before, now, tx, i, height, cache.cacheCoins); }
    }
    if !asked { FlaggedAll(cache.BaseCoins(), before, cache.cacheCoins, tx); }
  }

  lemma EmptyCache(usage: seq<nat> -> nat, base: CoinMap)
    ensures Overlay(base, map[]) == base && AllFlagsTrue(base, map[]) && TotalUsage(usage, map[]) == 0
  {
  }

  lemma DiskOverlay(before: CoinMap, child: CacheMap, after: CoinMap)
    requires AllFlagsTrue(before, child) && Unspent(before)
    requires forall o :: CoinAt(after, o) ==
               if o in child && child[o].dirty
               then (if IsSpent(child[o].coin) then None else Some(child[o].coin)) else CoinAt(before, o)
    ensures after == Overlay(before, child)
  {
    forall o ensures CoinAt(after, o) == CoinAt(Overlay(before, child), o) {
      assert o in child ==> FlagsTrue(before, o, child[o]);
      OverlayAt(before, child, o);
    }
    SameCoins(after, Overlay(before, child));
  }
}
