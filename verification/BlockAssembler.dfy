/**
 Choosing transactions for a new block.  The mempool is a DAG; a transaction enters
 the block together with all its ancestors that are not in it yet.  The cached
 totals of a package are corrected lazily in a side index, for all its ancestors in the
 block unless the package could not be added before; so they are never too small, and
 keep the block within limits.
 */
module BlockAssembly {

  import opened Arithmetic
  import opened Sets

  const WITNESS_SCALE_FACTOR: nat := 4
  const MAX_BLOCK_WEIGHT: nat := 4_000_000
  const MAX_BLOCK_SIGOPS_COST: nat := 80_000
  const COINBASE_WEIGHT: nat := 4000
  const COINBASE_SIGOPS: nat := 400
  const MAX_CONSECUTIVE_FAILURES: nat := 1000

  /** A mempool entry; the last four fields are the totals the mempool caches. */
  datatype Entry = Entry(
    size: nat, weight: nat, sigOps: nat, fee: int, modFee: int,
    isFinal: bool, hasWitness: bool, isDCT: bool,
    ancestors: set<nat>,
    countWithAncestors: nat, sizeWithAncestors: int, sigOpsWithAncestors: int, modFeesWithAncestors: int)

  type Pool = map<nat, Entry>

  datatype Measure = Size | Weight | SigOps | Fee | ModFee

  predicate Natural(m: Measure) { m != Fee && m != ModFee }

  function Of(e: Entry, m: Measure): int {
    match m case Size => e.size case Weight => e.weight case SigOps => e.sigOps case Fee => e.fee
    case ModFee => e.modFee
  }

  ghost function Sum(pool: Pool, m: Measure, s: set<nat>): int
    requires s <= pool.Keys
  {
    if s == {} then 0 else
    var t :| t in s;
    Of(pool[t], m) + Sum(pool, m, s - {t})
  }

  lemma {:induction false} SumWithout(pool: Pool, m: Measure, s: set<nat>, t: nat)
    requires s <= pool.Keys && t in s
    ensures Sum(pool, m, s) == Of(pool[t], m) + Sum(pool, m, s - {t})
  {
    var u :| u in s && Sum(pool, m, s) == Of(pool[u], m) + Sum(pool, m, s - {u});
    if u != t {
      SumWithout(pool, m, s - {u}, t);
      SumWithout(pool, m, s - {t}, u);
      assert s - {u} - {t} == s - {t} - {u};
    }
  }

  lemma {:induction false} SumUnion(pool: Pool, m: Measure, a: set<nat>, b: set<nat>)
    requires a <= pool.Keys && b <= pool.Keys && a !! b
    ensures Sum(pool, m, a + b) == Sum(pool, m, a) + Sum(pool, m, b)
    decreases |a|
  {
    if a == {} {
      assert a + b == b;
    } else {
      var t :| t in a;
      SumUnion(pool, m, a - {t}, b);
      SumWithout(pool, m, a, t);
      SumWithout(pool, m, a + b, t);
      assert a + b - {t} == (a - {t}) + b;
    }
  }

  lemma {:induction false} SumNatural(pool: Pool, m: Measure, s: set<nat>)
    requires s <= pool.Keys && Natural(m)
    ensures Sum(pool, m, s) >= 0
  {
    if s != {} {
      var t :| t in s;
      SumNatural(pool, m, s - {t});
      SumWithout(pool, m, s, t);
    }
  }

  lemma SumSubset(pool: Pool, m: Measure, a: set<nat>, b: set<nat>)
    requires a <= b <= pool.Keys && Natural(m)
    ensures Sum(pool, m, a) <= Sum(pool, m, b)
  {
    SumUnion(pool, m, a, b - a);
    SumNatural(pool, m, b - a);
    assert a + (b - a) == b;
  }

  /** The weight of a set of transactions is within four times its size. */
  lemma {:induction false} SumScaled(pool: Pool, s: set<nat>)
    requires PoolOk(pool) && s <= pool.Keys
    ensures Sum(pool, Weight, s) <= WITNESS_SCALE_FACTOR * Sum(pool, Size, s)
  {
    if s != {} {
      var t :| t in s;
      SumScaled(pool, s - {t});
      SumWithout(pool, Weight, s, t);
      SumWithout(pool, Size, s, t);
      assert EntryOk(pool, t);
    }
  }

  // ----- the mempool

  function WithSelf(pool: Pool, t: nat): set<nat>
    requires t in pool
  {
    pool[t].ancestors + {t}
  }

  /** Ancestors are in the pool, with theirs, and never the transaction itself;
      the cached totals are those of the whole package; size is weight over four, rounded up at least. */
  ghost predicate EntryOk(pool: Pool, t: nat)
    requires t in pool
  {
    var e := pool[t];
    && e.ancestors <= pool.Keys && t !in e.ancestors && e.size > 0
    && (forall a :: a in e.ancestors ==> pool[a].ancestors <= e.ancestors)
    && e.weight <= WITNESS_SCALE_FACTOR * e.size
    && e.countWithAncestors == |e.ancestors| + 1
    && e.sizeWithAncestors == Sum(pool, Size, WithSelf(pool, t))
    && e.sigOpsWithAncestors == Sum(pool, SigOps, WithSelf(pool, t))
    && e.modFeesWithAncestors == Sum(pool, ModFee, WithSelf(pool, t))
  }

  ghost predicate PoolOk(pool: Pool) { forall t :: t in pool ==> EntryOk(pool, t) }

  function Descendants(pool: Pool, t: nat): set<nat> {
    set d | d in pool && (d == t || t in pool[d].ancestors)
  }

  // ----- the side index

  datatype Modified = Modified(size: int, fees: int, sigOps: int)
  type ModMap = map<nat, Modified>

  /** The part of a package that is not in the block yet. */
  function Rest(pool: Pool, inBlock: set<nat>, t: nat): set<nat>
    requires t in pool
  {
    (pool[t].ancestors - inBlock) + {t}
  }

  /** The totals of d less those of its ancestors in `gone`, which are in the block: all of them, unless d
      has failed before.  The fee of the first is taken off as modified, those of the others as paid. */
  ghost predicate Corrected(pool: Pool, inBlock: set<nat>, failed: set<nat>, d: nat, e: Modified, first: set<nat>,
                            gone: set<nat>)
    requires d in pool && pool[d].ancestors <= pool.Keys
  {
    && first <= gone <= pool[d].ancestors * inBlock && |first| <= 1 && (first == {} ==> gone == {})
    && (d !in failed ==> gone == pool[d].ancestors * inBlock)
    && e.size == pool[d].sizeWithAncestors - Sum(pool, Size, gone)
    && e.sigOps == pool[d].sigOpsWithAncestors - Sum(pool, SigOps, gone)
    && e.fees == pool[d].modFeesWithAncestors - Sum(pool, ModFee, first) - Sum(pool, Fee, gone - first)
  }

  /** Not in the block, with corrected totals. */
  ghost predicate Candidate(pool: Pool, inBlock: set<nat>, failed: set<nat>, d: nat, e: Modified) {
    && d in pool && pool[d].ancestors <= pool.Keys && d !in inBlock
    && exists first, gone :: Corrected(pool, inBlock, failed, d, e, first, gone)
  }

  /** An entry of the side index has an ancestor in the block. */
  ghost predicate ModOk(pool: Pool, inBlock: set<nat>, failed: set<nat>, d: nat, e: Modified) {
    && d in pool && pool[d].ancestors <= pool.Keys && d !in inBlock
    && exists first, gone :: Corrected(pool, inBlock, failed, d, e, first, gone) && first != {}
  }

  /** No ancestor of d is in the block. */
  ghost predicate Untouched(pool: Pool, inBlock: set<nat>, d: nat)
    requires d in pool
  {
    pool[d].ancestors !! inBlock
  }

  /** The side index is right, and whatever is in neither it nor the block needs no correction or has failed. */
  ghost predicate AllModOk(pool: Pool, inBlock: set<nat>, failed: set<nat>, mod: ModMap) {
    && (forall d :: d in mod ==> ModOk(pool, inBlock, failed, d, mod[d]))
    && (forall d :: d in pool && d !in mod && d !in inBlock && d !in failed ==> Untouched(pool, inBlock, d))
  }

  /** The ancestors of a chosen transaction are chosen. */
  ghost predicate Closed(pool: Pool, inBlock: set<nat>) {
    inBlock <= pool.Keys && forall t :: t in inBlock ==> pool[t].ancestors <= inBlock
  }

  // ----- correcting the side index after transactions were added

  function Cached(pool: Pool, d: nat): Modified
    requires d in pool
  {
    Modified(pool[d].sizeWithAncestors, pool[d].modFeesWithAncestors, pool[d].sigOpsWithAncestors)
  }

  /** What the entry of d is reduced from: its modified totals, or the mempool's. */
  function Basis(pool: Pool, mod: ModMap, d: nat): Modified
    requires d in pool
  {
    if d in mod then mod[d] else Cached(pool, d)
  }

  /** Totals e are totals b less those of the transactions in s, the fees of `first` as modified. */
  ghost predicate Reduced(pool: Pool, b: Modified, e: Modified, first: set<nat>, s: set<nat>)
    requires first <= s <= pool.Keys
  {
    && e.size == b.size - Sum(pool, Size, s) && e.sigOps == b.sigOps - Sum(pool, SigOps, s)
    && e.fees == b.fees - Sum(pool, ModFee, first) - Sum(pool, Fee, s - first)
  }

  /** The entry of d, once those of its ancestors in `done` are accounted for: a new entry
      loses the modified fee of one of them. */
  ghost predicate UpdatedAt(pool: Pool, added: set<nat>, mod: ModMap, done: set<nat>, next: ModMap, d: nat)
    requires d in pool && done <= pool.Keys
  {
    var s := done * pool[d].ancestors;
    if d in added || s == {} then
      (d in next <==> d in mod) && (d in mod ==> next[d] == mod[d])
    else
      d in next && exists first ::
        first <= s && |first| == (if d in mod then 0 else 1) && Reduced(pool, Basis(pool, mod, d), next[d], first, s)
  }

  ghost predicate Updated(pool: Pool, added: set<nat>, mod: ModMap, done: set<nat>, next: ModMap)
    requires done <= pool.Keys
  {
    next.Keys <= pool.Keys && forall d :: d in pool ==> UpdatedAt(pool, added, mod, done, next, d)
  }

  /** One more ancestor of d is accounted for. */
  lemma UpdatedMore(pool: Pool, added: set<nat>, mod: ModMap, done: set<nat>, it: nat, next: ModMap, d: nat,
                    e: Modified)
    requires done <= pool.Keys && it in pool && it !in done && d in pool && d !in added && it in pool[d].ancestors
    requires UpdatedAt(pool, added, mod, done, next, d)
    requires var b := Basis(pool, next, d);
             Reduced(pool, b, e, if d in next then {} else {it}, {it})
    ensures UpdatedAt(pool, added, mod, done + {it}, next[d := e], d)
  {
    hide Sum, Reduced, Basis, UpdatedAt;
    var s := done * pool[d].ancestors;
    if s == {} {
      NotUpdated(pool, added, mod, done, next, d);
      BasisSame(pool, mod, next, d);
      assert (done + {it}) * pool[d].ancestors == {it};
      if d in mod {
        UpdatedIs(pool, added, mod, done + {it}, next[d := e], d, {});
      } else {
        UpdatedIs(pool, added, mod, done + {it}, next[d := e], d, {it});
      }
    } else {
      var first := FirstOf(pool, added, mod, done, next, d);
      BasisOf(pool, next, d);
      ReducedTwice(pool, Basis(pool, mod, d), next[d], e, first, s, {it});
      assert (done + {it}) * pool[d].ancestors == s + {it};
      UpdatedIs(pool, added, mod, done + {it}, next[d := e], d, first);
    }
  }

  lemma NotUpdated(pool: Pool, added: set<nat>, mod: ModMap, done: set<nat>, next: ModMap, d: nat)
    requires d in pool && done <= pool.Keys && UpdatedAt(pool, added, mod, done, next, d)
    requires d in added || done * pool[d].ancestors == {}
    ensures (d in next <==> d in mod) && (d in mod ==> next[d] == mod[d])
  {
  }

  lemma FirstOf(pool: Pool, added: set<nat>, mod: ModMap, done: set<nat>, next: ModMap, d: nat)
    returns (first: set<nat>)
    requires d in pool && done <= pool.Keys && UpdatedAt(pool, added, mod, done, next, d)
    requires d !in added && done * pool[d].ancestors != {}
    ensures d in next && first <= done * pool[d].ancestors && |first| == if d in mod then 0 else 1
    ensures Reduced(pool, Basis(pool, mod, d), next[d], first, done * pool[d].ancestors)
  {
    hide Reduced, Basis;
    var s := done * pool[d].ancestors;
    first :| first <= s && |first| == (if d in mod then 0 else 1)
      && Reduced(pool, Basis(pool, mod, d), next[d], first, s);
  }

  lemma UpdatedIs(pool: Pool, added: set<nat>, mod: ModMap, done: set<nat>, next: ModMap, d: nat, first: set<nat>)
    requires d in pool && done <= pool.Keys && d !in added && done * pool[d].ancestors != {} && d in next
    requires first <= done * pool[d].ancestors && |first| == if d in mod then 0 else 1
    requires Reduced(pool, Basis(pool, mod, d), next[d], first, done * pool[d].ancestors)
    ensures UpdatedAt(pool, added, mod, done, next, d)
  {
    hide Reduced, Basis;
  }

  lemma BasisOf(pool: Pool, mod: ModMap, d: nat)
    requires d in pool && d in mod
    ensures Basis(pool, mod, d) == mod[d]
  {
  }

  lemma BasisSame(pool: Pool, mod: ModMap, next: ModMap, d: nat)
    requires d in pool && (d in next <==> d in mod) && (d in mod ==> next[d] == mod[d])
    ensures Basis(pool, mod, d) == Basis(pool, next, d)
  {
  }

  lemma ReducedTwice(pool: Pool, b: Modified, c: Modified, e: Modified, first: set<nat>, s: set<nat>, more: set<nat>)
    requires first <= s <= pool.Keys && more <= pool.Keys && s !! more
    requires Reduced(pool, b, c, first, s) && Reduced(pool, c, e, {}, more)
    ensures Reduced(pool, b, e, first, s + more)
  {
    hide Sum;
    SumUnion(pool, Size, s, more);
    SumUnion(pool, SigOps, s, more);
    SumUnion(pool, Fee, s - first, more);
    SumNone(pool, ModFee);
    assert s + more - first == (s - first) + more;
    assert more - {} == more;
  }

  /** What one transaction takes off. */
  lemma ReducedByOne(pool: Pool, b: Modified, it: nat, modified: bool)
    requires it in pool
    ensures var fee := if modified then pool[it].modFee else pool[it].fee;
            Reduced(pool, b, Modified(b.size - pool[it].size, b.fees - fee, b.sigOps - pool[it].sigOps),
                    if modified then {it} else {}, {it})
  {
    hide Sum;
    SumOne(pool, Size, it);
    SumOne(pool, SigOps, it);
    SumOne(pool, Fee, it);
    SumOne(pool, ModFee, it);
    assert {it} - {it} == {} && {it} - {} == {it};
  }

  lemma SumOne(pool: Pool, m: Measure, t: nat)
    requires t in pool
    ensures Sum(pool, m, {t}) == Of(pool[t], m) && Sum(pool, m, {}) == 0
  {
    SumWithout(pool, m, {t}, t);
    assert {t} - {t} == {};
  }

  lemma SumNone(pool: Pool, m: Measure)
    ensures Sum(pool, m, {}) == 0
  {
  }

  /** Nothing to account for. */
  lemma UpdatedSkip(pool: Pool, added: set<nat>, mod: ModMap, done: set<nat>, it: nat, next: ModMap, d: nat)
    requires done <= pool.Keys && it in pool && d in pool && (d in added || it !in pool[d].ancestors)
    requires UpdatedAt(pool, added, mod, done, next, d)
    ensures UpdatedAt(pool, added, mod, done + {it}, next, d)
  {
    if d !in added { assert (done + {it}) * pool[d].ancestors == done * pool[d].ancestors; }
  }

  lemma UpdatedFrame(pool: Pool, added: set<nat>, mod: ModMap, done: set<nat>, next: ModMap, d: nat, x: nat,
                     e: Modified)
    requires done <= pool.Keys && d in pool && d != x && UpdatedAt(pool, added, mod, done, next, d)
    ensures UpdatedAt(pool, added, mod, done, next[x := e], d)
  {
  }

  lemma NothingUpdated(pool: Pool, added: set<nat>, mod: ModMap)
    requires mod.Keys <= pool.Keys
    ensures Updated(pool, added, mod, added - added, mod)
  {
    assert added - added == {};
  }

  method UpdatePackagesForAdded(pool: Pool, added: set<nat>, mod: ModMap) returns (next: ModMap)
    requires PoolOk(pool) && added <= pool.Keys && mod.Keys <= pool.Keys
    ensures Updated(pool, added, mod, added, next)
  {
    hide PoolOk, UpdatedAt, Sum;
    next := mod;
    var todo := added;
    NothingUpdated(pool, added, mod);
    while todo != {}
      invariant todo <= added && Updated(pool, added, mod, added - todo, next)
      decreases |todo|
    {
      var it :| it in todo;
      ghost var done := added - todo;
      assert added - (todo - {it}) == done + {it};
      next := UpdateDescendants(pool, added, mod, done, it, next);
      todo := todo - {it};
    }
    assert added - {} == added;
  }

  method UpdateDescendants(pool: Pool, added: set<nat>, ghost mod: ModMap, ghost done: set<nat>, it: nat,
                           before: ModMap)
    returns (next: ModMap)
    requires PoolOk(pool) && done <= pool.Keys && it in pool && it !in done && it in added
    requires Updated(pool, added, mod, done, before)
    ensures Updated(pool, added, mod, done + {it}, next)
  {
    hide PoolOk, EntryOk, UpdatedAt, Reduced, Sum;
    next := before;
    var rest := Descendants(pool, it);
    while rest != {}
      invariant rest <= Descendants(pool, it) && next.Keys <= pool.Keys
      invariant forall d :: d in rest ==> (d in next <==> d in before) && (d in next ==> next[d] == before[d])
      invariant forall d :: d in pool && (d in rest || d !in Descendants(pool, it)) ==>
                  UpdatedAt(pool, added, mod, done, next, d)
      invariant forall d :: d in Descendants(pool, it) && d !in rest ==>
                  UpdatedAt(pool, added, mod, done + {it}, next, d)
      decreases |rest|
    {
      var desc :| desc in rest;
      rest := rest - {desc};
      if desc in added {
        UpdatedSkip(pool, added, mod, done, it, next, desc);
      } else {
        var b := Basis(pool, next, desc);
        var e := Modified(b.size - pool[it].size, b.fees - (if desc !in next then pool[it].modFee else pool[it].fee),
                          b.sigOps - pool[it].sigOps);
        ReducedByOne(pool, b, it, desc !in next);
        UpdatedMore(pool, added, mod, done, it, next, desc, e);
        forall d | d in pool && d != desc
          ensures UpdatedAt(pool, added, mod, done, next, d) ==> UpdatedAt(pool, added, mod, done, next[desc := e], d)
          ensures UpdatedAt(pool, added, mod, done + {it}, next, d) ==>
                    UpdatedAt(pool, added, mod, done + {it}, next[desc := e], d)
        {
          if UpdatedAt(pool, added, mod, done, next, d) { UpdatedFrame(pool, added, mod, done, next, d, desc, e); }
          if UpdatedAt(pool, added, mod, done + {it}, next, d) {
            UpdatedFrame(pool, added, mod, done + {it}, next, d, desc, e);
          }
        }
        next := next[desc := e];
      }
    }
    forall d | d in pool ensures UpdatedAt(pool, added, mod, done + {it}, next, d) {
      if d !in Descendants(pool, it) { UpdatedSkip(pool, added, mod, done, it, next, d); }
    }
  }

  /** The corrected totals stay right when transactions are added and the side index follows. */
  lemma UpdatedModOk(pool: Pool, inBlock: set<nat>, failed: set<nat>, added: set<nat>, mod: ModMap, next: ModMap)
    requires PoolOk(pool) && Closed(pool, inBlock) && added <= pool.Keys && added !! inBlock && mod.Keys !! added
    requires AllModOk(pool, inBlock, failed + added, mod) && Updated(pool, added, mod, added, next)
    ensures AllModOk(pool, inBlock + added, failed, next)
  {
    hide PoolOk, ModOk, UpdatedAt, AllModOk;
    forall d | d in next ensures ModOk(pool, inBlock + added, failed, d, next[d]) {
      assert UpdatedAt(pool, added, mod, added, next, d);
      UpdatedModOkAt(pool, inBlock, failed, added, mod, next, d);
    }
    forall d | d in pool && d !in next && d !in inBlock + added && d !in failed
      ensures Untouched(pool, inBlock + added, d)
    {
      assert UpdatedAt(pool, added, mod, added, next, d);
      UpdatedUntouched(pool, inBlock, failed, added, mod, next, d);
    }
    AllModOkIs(pool, inBlock + added, failed, next);
  }

  lemma AllModOkIs(pool: Pool, inBlock: set<nat>, failed: set<nat>, mod: ModMap)
    requires forall d :: d in mod ==> ModOk(pool, inBlock, failed, d, mod[d])
    requires forall d :: d in pool && d !in mod && d !in inBlock && d !in failed ==> Untouched(pool, inBlock, d)
    ensures AllModOk(pool, inBlock, failed, mod)
  {
  }

  lemma UpdatedUntouched(pool: Pool, inBlock: set<nat>, failed: set<nat>, added: set<nat>, mod: ModMap, next: ModMap,
                         d: nat)
    requires added <= pool.Keys && AllModOk(pool, inBlock, failed + added, mod)
    requires d in pool && d !in next && d !in inBlock && d !in added && d !in failed
    requires UpdatedAt(pool, added, mod, added, next, d)
    ensures Untouched(pool, inBlock + added, d)
  {
    hide ModOk, Reduced;
    var s := added * pool[d].ancestors;
    assert s == {};
    assert Untouched(pool, inBlock, d);
    forall a | a in pool[d].ancestors ensures a !in inBlock + added { assert a !in s; }
  }

  /** A transaction in the side index after an update is outside the block. */
  lemma UpdatedOutside(pool: Pool, inBlock: set<nat>, added: set<nat>, mod: ModMap, next: ModMap, d: nat)
    requires Closed(pool, inBlock) && added <= pool.Keys && added !! inBlock && mod.Keys !! added
    requires d in mod ==> d !in inBlock
    requires d in next && d in pool && UpdatedAt(pool, added, mod, added, next, d)
    ensures d !in inBlock && d !in added
  {
    hide Sum, Basis, Reduced;
    var family := pool[d].ancestors;
    assert d in inBlock ==> added * family == {};
  }

  lemma UpdatedModOkAt(pool: Pool, inBlock: set<nat>, failed: set<nat>, added: set<nat>, mod: ModMap, next: ModMap,
                       d: nat)
    requires PoolOk(pool) && Closed(pool, inBlock) && added <= pool.Keys && added !! inBlock && mod.Keys !! added
    requires AllModOk(pool, inBlock, failed + added, mod)
    requires d in next && d in pool && UpdatedAt(pool, added, mod, added, next, d)
    ensures ModOk(pool, inBlock + added, failed, d, next[d])
  {
    hide Sum, PoolOk, AllModOk, Closed, Reduced, Corrected;
    PackageInPool(pool, d);
    var s := added * pool[d].ancestors;
    if d in mod { ModOkOf(pool, inBlock, failed + added, mod, d); }
    UpdatedOutside(pool, inBlock, added, mod, next, d);
    if d in mod {
      var first, gone :| Corrected(pool, inBlock, failed + added, d, mod[d], first, gone) && first != {};
      if s == {} {
        CorrectedStill(pool, inBlock, failed, added, d, mod[d], first, gone);
      } else {
        var none :| none <= s && |none| == 0 && Reduced(pool, mod[d], next[d], none, s);
        assert none == {};
        CorrectedMore(pool, inBlock, failed, added, d, mod[d], next[d], first, gone);
      }
    } else {
      var first :| first <= s && |first| == 1 && Reduced(pool, Basis(pool, mod, d), next[d], first, s);
      if d !in failed { NotInIndex(pool, inBlock, failed + added, mod, d); }
      CorrectedFirst(pool, inBlock, failed, added, d, next[d], first);
    }
  }

  lemma NotInIndex(pool: Pool, inBlock: set<nat>, failed: set<nat>, mod: ModMap, d: nat)
    requires AllModOk(pool, inBlock, failed, mod) && d in pool && d !in mod && d !in inBlock && d !in failed
    ensures Untouched(pool, inBlock, d)
  {
  }

  lemma CorrectedStill(pool: Pool, inBlock: set<nat>, failed: set<nat>, added: set<nat>, d: nat, e: Modified,
                       first: set<nat>, gone: set<nat>)
    requires d in pool && pool[d].ancestors <= pool.Keys && d !in added && added !! pool[d].ancestors
    requires Corrected(pool, inBlock, failed + added, d, e, first, gone)
    ensures Corrected(pool, inBlock + added, failed, d, e, first, gone)
  {
    hide Sum;
    assert pool[d].ancestors * (inBlock + added) == pool[d].ancestors * inBlock;
  }

  lemma CorrectedMore(pool: Pool, inBlock: set<nat>, failed: set<nat>, added: set<nat>, d: nat, e: Modified,
                      f: Modified, first: set<nat>, gone: set<nat>)
    requires d in pool && pool[d].ancestors <= pool.Keys && d !in added && added !! inBlock && first != {}
    requires Corrected(pool, inBlock, failed + added, d, e, first, gone)
    requires Reduced(pool, e, f, {}, added * pool[d].ancestors)
    ensures Corrected(pool, inBlock + added, failed, d, f, first, gone + added * pool[d].ancestors)
  {
    hide Sum;
    var family := pool[d].ancestors;
    ReducedTwice(pool, Modified(pool[d].sizeWithAncestors, pool[d].modFeesWithAncestors, pool[d].sigOpsWithAncestors),
                 e, f, first, gone, added * family);
    assert family * (inBlock + added) == family * inBlock + added * family;
  }

  lemma CorrectedFirst(pool: Pool, inBlock: set<nat>, failed: set<nat>, added: set<nat>, d: nat, f: Modified,
                       first: set<nat>)
    requires d in pool && pool[d].ancestors <= pool.Keys && d !in added
    requires first <= added * pool[d].ancestors && |first| == 1 && (d !in failed ==> Untouched(pool, inBlock, d))
    requires Reduced(pool, Basis(pool, map[], d), f, first, added * pool[d].ancestors)
    ensures Corrected(pool, inBlock + added, failed, d, f, first, added * pool[d].ancestors)
  {
    hide Sum;
    var family := pool[d].ancestors;
    assert d !in failed ==> family * (inBlock + added) == added * family;
  }

  // ----- what the corrected totals mean

  /** They are no less than what adding the package would add, and no more than the mempool caches. */
  lemma CandidateBounds(pool: Pool, inBlock: set<nat>, failed: set<nat>, d: nat, e: Modified)
    requires PoolOk(pool) && Candidate(pool, inBlock, failed, d, e)
    ensures Sum(pool, Size, Rest(pool, inBlock, d)) <= e.size <= pool[d].sizeWithAncestors
    ensures Sum(pool, SigOps, Rest(pool, inBlock, d)) <= e.sigOps <= pool[d].sigOpsWithAncestors
  {
    hide Sum, PoolOk;
    var first, gone :| Corrected(pool, inBlock, failed, d, e, first, gone);
    PackageInPool(pool, d);
    LeftBounded(pool, Size, inBlock, d, gone);
    LeftBounded(pool, SigOps, inBlock, d, gone);
  }

  lemma LeftBounded(pool: Pool, m: Measure, inBlock: set<nat>, d: nat, gone: set<nat>)
    requires d in pool && WithSelf(pool, d) <= pool.Keys && gone <= pool[d].ancestors * inBlock && d !in inBlock
    requires Natural(m)
    ensures Sum(pool, m, Rest(pool, inBlock, d)) <= Sum(pool, m, WithSelf(pool, d)) - Sum(pool, m, gone)
         <= Sum(pool, m, WithSelf(pool, d))
  {
    hide Sum;
    var all := WithSelf(pool, d);
    assert gone + (all - gone) == all;
    SumUnion(pool, m, gone, all - gone);
    SumSubset(pool, m, Rest(pool, inBlock, d), all - gone);
    SumNatural(pool, m, gone);
  }

  /** Without an ancestor in the block they are what the mempool caches. */
  lemma UntouchedTotals(pool: Pool, inBlock: set<nat>, failed: set<nat>, d: nat, e: Modified)
    requires Candidate(pool, inBlock, failed, d, e) && pool[d].ancestors !! inBlock
    ensures e.size == pool[d].sizeWithAncestors && e.sigOps == pool[d].sigOpsWithAncestors
    ensures e.fees == pool[d].modFeesWithAncestors
  {
    hide Sum;
    var first, gone :| Corrected(pool, inBlock, failed, d, e, first, gone);
    assert pool[d].ancestors * inBlock == {};
    assert gone - first == {};
    SumNone(pool, Size);
    SumNone(pool, SigOps);
    SumNone(pool, Fee);
    SumNone(pool, ModFee);
  }

  /** Unless it has failed before, they are exactly what adding the package would add; the fees too,
      if no fee in the block was modified, and in general up to what was modified of all but one. */
  lemma CandidateExact(pool: Pool, inBlock: set<nat>, failed: set<nat>, d: nat, e: Modified)
    requires PoolOk(pool) && Candidate(pool, inBlock, failed, d, e) && d !in failed
    ensures Rest(pool, inBlock, d) <= pool.Keys
    ensures e.size == Sum(pool, Size, Rest(pool, inBlock, d)) && e.sigOps == Sum(pool, SigOps, Rest(pool, inBlock, d))
    ensures exists plain ::
              && plain <= pool[d].ancestors * inBlock && |pool[d].ancestors * inBlock - plain| <= 1
              && e.fees == Sum(pool, ModFee, Rest(pool, inBlock, d)) + Sum(pool, ModFee, plain) - Sum(pool, Fee, plain)
    ensures (forall a :: a in pool[d].ancestors * inBlock ==> pool[a].fee == pool[a].modFee) ==>
              e.fees == Sum(pool, ModFee, Rest(pool, inBlock, d))
  {
    hide Sum, PoolOk;
    var first, gone :| Corrected(pool, inBlock, failed, d, e, first, gone);
    PackageInPool(pool, d);
    SumRest(pool, Size, inBlock, d);
    SumRest(pool, SigOps, inBlock, d);
    SumRest(pool, ModFee, inBlock, d);
    var plain := gone - first;
    assert first + plain == gone && gone - plain == first;
    SumUnion(pool, ModFee, first, plain);
    if forall a :: a in gone ==> pool[a].fee == pool[a].modFee { SumUnmodified(pool, plain); }
  }

  lemma SumRest(pool: Pool, m: Measure, inBlock: set<nat>, d: nat)
    requires d in pool && WithSelf(pool, d) <= pool.Keys && d !in inBlock
    ensures Rest(pool, inBlock, d) <= pool.Keys
    ensures Sum(pool, m, WithSelf(pool, d)) ==
            Sum(pool, m, Rest(pool, inBlock, d)) + Sum(pool, m, pool[d].ancestors * inBlock)
  {
    assert Rest(pool, inBlock, d) + pool[d].ancestors * inBlock == WithSelf(pool, d);
    SumUnion(pool, m, Rest(pool, inBlock, d), pool[d].ancestors * inBlock);
  }

  lemma {:induction false} SumUnmodified(pool: Pool, s: set<nat>)
    requires s <= pool.Keys && forall a :: a in s ==> pool[a].fee == pool[a].modFee
    ensures Sum(pool, Fee, s) == Sum(pool, ModFee, s)
  {
    if s != {} {
      var t :| t in s;
      SumUnmodified(pool, s - {t});
      SumWithout(pool, Fee, s, t);
      SumWithout(pool, ModFee, s, t);
    }
  }

  lemma {:induction false} SumAtLeast(pool: Pool, m: Measure, s: set<nat>, t: nat)
    requires s <= pool.Keys && t in s && Natural(m)
    ensures Sum(pool, m, s) >= Of(pool[t], m)
  {
    SumWithout(pool, m, s, t);
    SumNatural(pool, m, s - {t});
  }

  lemma CandidatePositive(pool: Pool, inBlock: set<nat>, failed: set<nat>, d: nat, e: Modified)
    requires PoolOk(pool) && Candidate(pool, inBlock, failed, d, e)
    ensures Sized(pool, d, e)
  {
    hide Sum, PoolOk, Candidate;
    CandidateParts(pool, inBlock, failed, d, e);
    CandidateBounds(pool, inBlock, failed, d, e);
    PackageInPool(pool, d);
    SumAtLeast(pool, Size, Rest(pool, inBlock, d), d);
  }

  // ----- scores

  /** A fee for a size. */
  datatype Rate = Rate(fee: int, size: int)

  /** The rate an entry is sorted by: that of its package or its own. */
  function RateOf(pool: Pool, d: nat, e: Modified): Rate
    requires d in pool
  {
    if pool[d].modFee * e.size > e.fees * pool[d].size then Rate(e.fees, e.size)
    else Rate(pool[d].modFee, pool[d].size)
  }

  predicate Above(a: Rate, b: Rate) { a.fee * b.size > a.size * b.fee }

  /** The lower one of the two. */
  lemma RateIsLower(pool: Pool, d: nat, e: Modified)
    requires d in pool && e.size > 0 && pool[d].size > 0
    ensures var (own, all) := (Rate(pool[d].modFee, pool[d].size), Rate(e.fees, e.size));
            RateOf(pool, d, e) in {own, all} && !Above(RateOf(pool, d, e), own) && !Above(RateOf(pool, d, e), all)
  {
    var (f, s, g, t) := (pool[d].modFee, pool[d].size, e.fees, e.size);
    assert f * t == t * f && s * g == g * s && f * s == s * f && g * t == t * g;
  }

  /** Candidate a with totals x comes before b with totals y: at a higher rate, or at the same rate by identity. */
  predicate Better(pool: Pool, a: nat, x: Modified, b: nat, y: Modified)
    requires a in pool && b in pool
  {
    var (p, q) := (RateOf(pool, a, x), RateOf(pool, b, y));
    if p.fee * q.size == p.size * q.fee then a < b else Above(p, q)
  }

  lemma MulOrder(a: int, b: int, c: int)
    requires c > 0
    ensures a <= b <==> a * c <= b * c
  {
    if a <= b {
      MulAdd(a, b - a, c);
      MulNat(b - a, c);
    } else {
      MulAdd(b, a - b, c);
      MulLe(1, a - b, c);
    }
  }

  lemma MulSwap(a: int, b: int, c: int)
    ensures (a * b) * c == (a * c) * b
  {
    MulAssoc(a, b, c);
    MulAssoc(a, c, b);
    assert b * c == c * b;
  }

  /** Fractions with positive denominators are ordered: a/x is at least b/y, and that at least c/z. */
  lemma Fractions(a: int, x: int, b: int, y: int, c: int, z: int)
    requires x > 0 && y > 0 && z > 0 && b * x <= a * y && c * y <= b * z
    ensures c * x <= a * z && (c * x == a * z ==> b * x == a * y && c * y == b * z)
  {
    MulOrder(b * x, a * y, z);
    MulOrder(c * y, b * z, x);
    MulSwap(b, x, z);
    MulSwap(a, y, z);
    MulSwap(c, y, x);
    MulOrder(c * x, a * z, y);
    MulOrder(a * y, b * x, z);
    MulOrder(b * z, c * y, x);
  }

  lemma BetterIs(pool: Pool, a: nat, x: Modified, b: nat, y: Modified)
    requires a in pool && b in pool
    ensures var (p, q) := (RateOf(pool, a, x), RateOf(pool, b, y));
            Better(pool, a, x, b, y) <==> q.fee * p.size < p.fee * q.size || (q.fee * p.size == p.fee * q.size && a < b)
  {
    var (p, q) := (RateOf(pool, a, x), RateOf(pool, b, y));
    assert p.size * q.fee == q.fee * p.size;
  }

  /** Candidate b does not come before a. */
  ghost predicate NotAfter(pool: Pool, a: nat, x: Modified, b: nat, y: Modified)
    requires a in pool && b in pool
  {
    !Better(pool, b, y, a, x)
  }

  ghost predicate Sized(pool: Pool, d: nat, e: Modified) { d in pool && pool[d].size > 0 && e.size > 0 }

  lemma NotAfterTransitive(pool: Pool, a: nat, x: Modified, b: nat, y: Modified, c: nat, z: Modified)
    requires Sized(pool, a, x) && Sized(pool, b, y) && Sized(pool, c, z)
    requires NotAfter(pool, a, x, b, y) && NotAfter(pool, b, y, c, z)
    ensures NotAfter(pool, a, x, c, z)
  {
    hide Better;
    BetterIs(pool, b, y, a, x);
    BetterIs(pool, c, z, b, y);
    BetterIs(pool, c, z, a, x);
    var (p, q, r) := (RateOf(pool, a, x), RateOf(pool, b, y), RateOf(pool, c, z));
    Fractions(p.fee, p.size, q.fee, q.size, r.fee, r.size);
  }

  lemma NotAfterItself(pool: Pool, a: nat, x: Modified)
    requires a in pool
    ensures NotAfter(pool, a, x, a, x)
  {
    hide Better;
    BetterIs(pool, a, x, a, x);
  }

  lemma BetterTotal(pool: Pool, a: nat, x: Modified, b: nat, y: Modified)
    requires a in pool && b in pool && a != b
    ensures Better(pool, a, x, b, y) <==> !Better(pool, b, y, a, x)
  {
    hide Better;
    BetterIs(pool, a, x, b, y);
    BetterIs(pool, b, y, a, x);
  }

  /** No entry of these comes before t. */
  ghost predicate BestIn(pool: Pool, mod: ModMap, s: set<nat>, t: nat)
    requires s <= mod.Keys && mod.Keys <= pool.Keys && t in mod
  {
    forall d :: d in s ==> NotAfter(pool, t, mod[t], d, mod[d])
  }

  lemma {:induction false} BestExists(pool: Pool, mod: ModMap, s: set<nat>) returns (t: nat)
    requires s <= mod.Keys <= pool.Keys && s != {} && forall d :: d in mod ==> Sized(pool, d, mod[d])
    ensures t in s && BestIn(pool, mod, s, t)
  {
    hide Better, Sized;
    var x :| x in s;
    t := x;
    NotAfterItself(pool, x, mod[x]);
    if s - {x} != {} {
      var u := BestExists(pool, mod, s - {x});
      BetterTotal(pool, u, mod[u], x, mod[x]);
      if Better(pool, u, mod[u], x, mod[x]) {
        t := u;
      } else {
        forall d | d in s && d != x ensures NotAfter(pool, x, mod[x], d, mod[d]) {
          assert d in s - {x};
          NotAfterTransitive(pool, x, mod[x], u, mod[u], d, mod[d]);
        }
      }
    }
    forall d | d in s ensures NotAfter(pool, t, mod[t], d, mod[d]) { assert d != x ==> d in s - {x}; }
  }

  // ----- the order of a package

  /** Sorting by ancestor count, ties by identity. */
  predicate Before(pool: Pool, a: nat, b: nat)
    requires a in pool && b in pool
  {
    pool[a].countWithAncestors < pool[b].countWithAncestors
    || (pool[a].countWithAncestors == pool[b].countWithAncestors && a < b)
  }

  ghost predicate Distinct(s: seq<nat>) { forall i, j :: 0 <= i < j < |s| ==> s[i] != s[j] }

  ghost predicate Lists(s: seq<nat>, elements: set<nat>) {
    Distinct(s) && forall t :: t in s <==> t in elements
  }

  ghost predicate Sorted(pool: Pool, s: seq<nat>)
    requires forall t :: t in s ==> t in pool
  {
    forall i, j :: 0 <= i < j < |s| ==> Before(pool, s[i], s[j])
  }

  lemma {:induction false} FirstExists(pool: Pool, s: set<nat>) returns (t: nat)
    requires s <= pool.Keys && s != {}
    ensures t in s && forall u :: u in s ==> u == t || Before(pool, t, u)
  {
    var x :| x in s;
    t := x;
    if s - {x} != {} {
      var u := FirstExists(pool, s - {x});
      if Before(pool, u, x) { t := u; }
    }
    forall y | y in s ensures y == t || Before(pool, t, y) {
      assert y != x ==> y in s - {x};
    }
  }

  method SortForBlock(pool: Pool, package: set<nat>) returns (sorted: seq<nat>)
    requires package <= pool.Keys
    ensures Lists(sorted, package) && Sorted(pool, sorted)
  {
    sorted := [];
    var rest := package;
    while rest != {}
      invariant rest <= package && Lists(sorted, package - rest) && Sorted(pool, sorted)
      invariant forall a, b :: a in sorted && b in rest ==> Before(pool, a, b)
      decreases |rest|
    {
      ghost var first := FirstExists(pool, rest);
      var t :| t in rest && forall u :: u in rest ==> u == t || Before(pool, t, u);
      assert t !in sorted;
      sorted := sorted + [t];
      rest := rest - {t};
    }
  }

  /** Every ancestor of a listed transaction stands before it. */
  ghost predicate AncestorsFirst(pool: Pool, vtx: seq<nat>)
    requires forall t :: t in vtx ==> t in pool
  {
    forall i, a :: 0 <= i < |vtx| && a in pool[vtx[i]].ancestors ==> a in vtx[..i]
  }

  /** An ancestor has strictly fewer ancestors. */
  lemma AncestorBefore(pool: Pool, a: nat, t: nat)
    requires PoolOk(pool) && t in pool && a in pool[t].ancestors
    ensures a in pool && Before(pool, a, t)
  {
    hide Sum;
    assert EntryOk(pool, t) && EntryOk(pool, a);
    Smaller(pool[a].ancestors, pool[t].ancestors, a);
  }

  lemma {:induction false} Smaller(s: set<nat>, t: set<nat>, x: nat)
    requires s <= t && x in t && x !in s
    ensures |s| < |t|
  {
    SubsetSize(s, t - {x});
  }

  lemma ListsAppend(s: seq<nat>, a: set<nat>, t: seq<nat>, b: set<nat>)
    requires Lists(s, a) && Lists(t, b) && a !! b
    ensures Lists(s + t, a + b)
  {
    forall i, j | 0 <= i < j < |s + t| ensures (s + t)[i] != (s + t)[j] {
      assert i < |s| ==> s[i] in a;
      assert j >= |s| ==> t[j - |s|] in b;
    }
  }

  /** Appending a sorted package to a block that has the rest of its ancestors. */
  lemma AppendOrdered(pool: Pool, inBlock: set<nat>, vtx: seq<nat>, t: nat, sorted: seq<nat>)
    requires PoolOk(pool) && inBlock <= pool.Keys && Lists(vtx, inBlock) && AncestorsFirst(pool, vtx)
    requires t in pool && t !in inBlock && Lists(sorted, Rest(pool, inBlock, t)) && Rest(pool, inBlock, t) <= pool.Keys
    requires Sorted(pool, sorted)
    ensures Lists(vtx + sorted, inBlock + Rest(pool, inBlock, t))
    ensures AncestorsFirst(pool, vtx + sorted)
  {
    hide Sum, Before, PoolOk;
    var all := vtx + sorted;
    ListsAppend(vtx, inBlock, sorted, Rest(pool, inBlock, t));
    forall i, a | 0 <= i < |all| && a in pool[all[i]].ancestors ensures a in all[..i] {
      if i < |vtx| {
        assert all[..i] == vtx[..i];
      } else {
        var k := i - |vtx|;
        assert all[..i] == vtx + sorted[..k];
        AncestorOfMember(pool, inBlock, t, sorted[k], a);
        if a !in inBlock {
          var j :| 0 <= j < |sorted| && sorted[j] == a;
          AncestorBefore(pool, a, sorted[k]);
          NotBoth(pool, sorted, j, k);
          assert sorted[..k][j] == a;
        }
      }
    }
  }

  lemma NotBoth(pool: Pool, sorted: seq<nat>, j: nat, k: nat)
    requires forall t :: t in sorted ==> t in pool
    requires Sorted(pool, sorted) && j < |sorted| && k < |sorted| && Before(pool, sorted[j], sorted[k])
    ensures j < k
  {
  }

  lemma AncestorOfMember(pool: Pool, inBlock: set<nat>, t: nat, x: nat, a: nat)
    requires PoolOk(pool) && t in pool && x in Rest(pool, inBlock, t) && x in pool && a in pool[x].ancestors
    ensures a in inBlock || a in Rest(pool, inBlock, t)
  {
    hide Sum;
    assert EntryOk(pool, t);
  }

  /** The first n entries of the index are among those seen. */
  ghost predicate Passed(order: seq<nat>, n: nat, seen: set<nat>)
    requires n <= |order|
  {
    forall i :: 0 <= i < n ==> order[i] in seen
  }

  lemma PassedMore(order: seq<nat>, n: nat, seen: set<nat>, t: nat)
    requires n <= |order| && Passed(order, n, seen)
    ensures Passed(order, n, seen + {t})
    ensures n < |order| && order[n] == t ==> Passed(order, n + 1, seen + {t})
  {
  }

  // ----- the assembler

  datatype Stop =
    | Exhausted                                        // nothing left to consider
    | FeeTooLow(candidate: nat, size: int, fees: int)  // the best candidate pays less than the minimum rate
    | NearlyFull                                       // too many failures in a row, close to the weight limit

  /** A package that was added: the transaction it was added for, its totals, and what was in the block before. */
  datatype Selected = Selected(t: nat, totals: Modified, block: set<nat>)

  class BlockAssembler {
    const pool: Pool
    const maxWeight: nat
    const minFee: int -> int
    const includeWitness: bool
    const includeDCTs: bool

    var vtx: seq<nat>
    var inBlock: set<nat>
    var nBlockWeight: int
    var nBlockSigOpsCost: int
    var nBlockTx: nat
    var nFees: int

    constructor (pool: Pool, optionMaxWeight: nat, minFee: int -> int, includeWitness: bool, includeDCTs: bool)
      requires PoolOk(pool)
      ensures Valid() && this.pool == pool && inBlock == {} && vtx == []
      ensures this.minFee == minFee && this.includeWitness == includeWitness && this.includeDCTs == includeDCTs
      ensures 4000 <= optionMaxWeight <= 3996000 ==> maxWeight == optionMaxWeight
      ensures optionMaxWeight < 4000 ==> maxWeight == 4000
      ensures optionMaxWeight > 3996000 ==> maxWeight == 3996000
      ensures nBlockWeight == 4000 && nBlockSigOpsCost == 400 && nBlockTx == 0 && nFees == 0
    {
      this.pool := pool;
      var capped := if optionMaxWeight < MAX_BLOCK_WEIGHT - 4000 then optionMaxWeight else MAX_BLOCK_WEIGHT - 4000;
      maxWeight := if capped < 4000 then 4000 else capped;
      this.minFee, this.includeWitness, this.includeDCTs := minFee, includeWitness, includeDCTs;
      vtx, inBlock, nBlockTx, nFees := [], {}, 0, 0;
      nBlockWeight, nBlockSigOpsCost := COINBASE_WEIGHT, COINBASE_SIGOPS;
    }

    predicate Admissible(t: nat)
      requires t in pool
    {
      pool[t].isFinal && (includeWitness || !pool[t].hasWitness) && (includeDCTs || !pool[t].isDCT)
    }

    /** What the counters say of a set of transactions. */
    ghost predicate Counted()
      reads this
    {
      && inBlock <= pool.Keys
      && nBlockWeight == COINBASE_WEIGHT + Sum(pool, Weight, inBlock)
      && nBlockSigOpsCost == COINBASE_SIGOPS + Sum(pool, SigOps, inBlock)
      && nFees == Sum(pool, Fee, inBlock)
      && nBlockTx == |vtx|
    }

    ghost predicate Valid()
      reads this
    {
      && PoolOk(pool) && COINBASE_WEIGHT <= maxWeight <= MAX_BLOCK_WEIGHT - 4000
      && Closed(pool, inBlock) && Lists(vtx, inBlock) && AncestorsFirst(pool, vtx)
      && Counted()
      && nBlockWeight <= maxWeight && nBlockSigOpsCost < 80000
      && (forall t :: t in inBlock ==>
            pool[t].isFinal && (pool[t].hasWitness ==> includeWitness) && (pool[t].isDCT ==> includeDCTs))
    }

    method TestPackage(packageSize: int, packageSigOpsCost: int) returns (fits: bool)
      ensures fits <==> nBlockWeight + 4 * packageSize < maxWeight && nBlockSigOpsCost + packageSigOpsCost < 80000
    {
      if nBlockWeight + WITNESS_SCALE_FACTOR * packageSize >= maxWeight { return false; }
      if nBlockSigOpsCost + packageSigOpsCost >= MAX_BLOCK_SIGOPS_COST { return false; }
      return true;
    }

    method TestPackageTransactions(package: set<nat>) returns (ok: bool)
      requires package <= pool.Keys
      ensures ok <==> forall t :: t in package ==>
                pool[t].isFinal && (pool[t].hasWitness ==> includeWitness) && (pool[t].isDCT ==> includeDCTs)
    {
      var rest := package;
      while rest != {}
        invariant rest <= package && forall t :: t in package ==> t in rest || Admissible(t)
        decreases |rest|
      {
        var t :| t in rest;
        if !pool[t].isFinal { return false; }
        if !includeWitness && pool[t].hasWitness { return false; }
        if !includeDCTs && pool[t].isDCT { return false; }
        rest := rest - {t};
      }
      return true;
    }

    method OnlyUnconfirmed(testSet: set<nat>) returns (left: set<nat>)
      ensures left == testSet - inBlock
    {
      left := testSet;
      var rest := testSet;
      while rest != {}
        invariant rest <= testSet && left == testSet - (inBlock - rest)
        decreases |rest|
      {
        var t :| t in rest;
        if t in inBlock { left := left - {t}; }
        rest := rest - {t};
      }
    }

    method AddToBlock(t: nat)
      requires t in pool
      modifies this
      ensures vtx == old(vtx) + [t] && inBlock == old(inBlock) + {t} && nBlockTx == old(nBlockTx) + 1
      ensures nBlockWeight == old(nBlockWeight) + pool[t].weight
      ensures nBlockSigOpsCost == old(nBlockSigOpsCost) + pool[t].sigOps && nFees == old(nFees) + pool[t].fee
    {
      vtx := vtx + [t];
      nBlockWeight := nBlockWeight + pool[t].weight;
      nBlockTx := nBlockTx + 1;
      nBlockSigOpsCost := nBlockSigOpsCost + pool[t].sigOps;
      nFees := nFees + pool[t].fee;
      inBlock := inBlock + {t};
    }

    /** Adds the transactions of a sorted package, and erases them from the side index. */
    method AddSorted(sorted: seq<nat>, mod: ModMap) returns (left: ModMap)
      requires Counted() && Distinct(sorted) && forall t :: t in sorted ==> t in pool && t !in inBlock
      modifies this
      ensures Counted() && vtx == old(vtx) + sorted
      ensures forall t :: t in inBlock <==> t in old(inBlock) || t in sorted
      ensures left == mod - (set t | t in sorted)
    {
      hide Sum;
      left := mod;
      var i := 0;
      assert sorted[..0] == [] && old(vtx) + [] == old(vtx);
      while i < |sorted|
        invariant 0 <= i <= |sorted|
        invariant Counted() && vtx == old(vtx) + sorted[..i]
        invariant forall t :: t in inBlock <==> t in old(inBlock) || t in sorted[..i]
        invariant left == mod - (set t | t in sorted[..i])
      {
        ghost var was := inBlock;
        var t := sorted[i];
        assert sorted[..i + 1] == sorted[..i] + [t];
        assert t !in sorted[..i];
        AddToBlock(t);
        assert inBlock - {t} == was;
        SumWithout(pool, Weight, inBlock, t);
        SumWithout(pool, SigOps, inBlock, t);
        SumWithout(pool, Fee, inBlock, t);
        left := left - {t};
        i := i + 1;
      }
      assert sorted[..|sorted|] == sorted;
    }

    /** The package of t, less what is in the block, is sorted and added; the side index follows. */
    method AddPackage(t: nat, package: set<nat>, mod: ModMap) returns (next: ModMap)
      requires Valid() && AllModOk(pool, inBlock, Hopeless(), mod)
      requires t in pool && t !in inBlock && package == Rest(pool, inBlock, t)
      requires package <= pool.Keys && forall u :: u in package ==> Admissible(u)
      requires nBlockWeight + Sum(pool, Weight, package) <= maxWeight
      requires nBlockSigOpsCost + Sum(pool, SigOps, package) < MAX_BLOCK_SIGOPS_COST
      modifies this
      ensures Valid() && AllModOk(pool, inBlock, Hopeless(), next)
      ensures inBlock == old(inBlock) + package
      ensures nBlockWeight >= old(nBlockWeight) && nBlockSigOpsCost >= old(nBlockSigOpsCost)
      ensures forall d :: d in mod ==> d in next || d in inBlock
    {
      hide Sum, PoolOk, AllModOk, ModOk, AncestorsFirst, Before, Updated, Hopeless;
      ghost var failed := Hopeless();
      var sorted := SortForBlock(pool, package);
      AppendOrdered(pool, inBlock, vtx, t, sorted);
      ghost var was := inBlock;
      var left := AddSorted(sorted, mod);
      assert inBlock == was + package;
      ClosedMore(pool, was, t);
      SumUnion(pool, Weight, was, package);
      SumUnion(pool, SigOps, was, package);
      SumNatural(pool, Weight, package);
      SumNatural(pool, SigOps, package);
      ModLess(pool, was, failed, mod, left, package);
      next := UpdatePackagesForAdded(pool, package, left);
      UpdatedModOk(pool, was, failed, package, left, next);
      StillHopeless();
      MoreFailed(pool, inBlock, failed, Hopeless(), next);
      UpdatedKeeps(pool, package, left, next);
    }

    /** The totals of the package of t, as the mempool caches them, do not fit into what is left. */
    ghost predicate TooBig(t: nat)
      requires t in pool
      reads this
    {
      || nBlockWeight + 4 * pool[t].sizeWithAncestors >= maxWeight
      || nBlockSigOpsCost + pool[t].sigOpsWithAncestors >= 80000
    }

    /** The package of t cannot be added: one of its transactions is not admissible,
        or it is too big. */
    ghost predicate Excluded(t: nat)
      requires t in pool && WithSelf(pool, t) <= pool.Keys
      reads this
    {
      TooBig(t) || exists u :: u in WithSelf(pool, t) && !Admissible(u)
    }

    /** Those whose packages cannot be added, now or later. */
    ghost function Hopeless(): set<nat>
      reads this
    {
      set t | t in pool && WithSelf(pool, t) <= pool.Keys && Excluded(t)
    }

    /** The same, said of a block. */
    ghost function HopelessAt(block: set<nat>): set<nat>
      requires block <= pool.Keys
    {
      set t | t in pool && WithSelf(pool, t) <= pool.Keys
              && (|| 4000 + Sum(pool, Weight, block) + 4 * pool[t].sizeWithAncestors >= maxWeight
                  || 400 + Sum(pool, SigOps, block) + pool[t].sigOpsWithAncestors >= 80000
                  || exists u :: u in WithSelf(pool, t) && !Admissible(u))
    }

    lemma HopelessNow()
      requires Valid()
      ensures Hopeless() == HopelessAt(inBlock)
    {
      hide Sum, PoolOk, Admissible, AncestorsFirst;
    }

    /** Starting from block `first`, the packages of the log were added one after the other: each with its
        corrected totals, and paying the minimum fee for its size. */
    ghost predicate Built(log: seq<Selected>, first: set<nat>, last: set<nat>)
      decreases |log|
    {
      if log == [] then first == last
      else
        var l := log[|log| - 1];
        && Built(log[..|log| - 1], first, l.block)
        && l.block <= pool.Keys && Candidate(pool, l.block, HopelessAt(l.block), l.t, l.totals)
        && l.totals.fees >= minFee(l.totals.size) && last == l.block + Rest(pool, l.block, l.t)
    }

    lemma NothingBuilt()
      ensures Built([], inBlock, inBlock)
    {
    }

    lemma BuiltMore(log: seq<Selected>, first: set<nat>, block: set<nat>, t: nat, totals: Modified, last: set<nat>)
      requires Built(log, first, block) && block <= pool.Keys && totals.fees >= minFee(totals.size)
      requires Candidate(pool, block, HopelessAt(block), t, totals) && t in pool && last == block + Rest(pool, block, t)
      ensures Built(log + [Selected(t, totals, block)], first, last)
    {
      hide Candidate, HopelessAt;
      var next := log + [Selected(t, totals, block)];
      assert next[..|next| - 1] == log;
    }

    twostate lemma StillHopeless()
      requires old(nBlockWeight) <= nBlockWeight && old(nBlockSigOpsCost) <= nBlockSigOpsCost
      ensures old(Hopeless()) <= Hopeless()
    {
    }

    lemma IsHopeless(t: nat)
      requires t in pool && Settled(t) && t !in inBlock
      ensures t in Hopeless()
    {
    }

    method TryPackage(t: nat, package: Modified, mod: ModMap, ghost seen: set<nat>)
      returns (fits: bool, admitted: bool, next: ModMap)
      requires Valid() && AllModOk(pool, inBlock, Hopeless(), mod) && Candidate(pool, inBlock, Hopeless(), t, package)
      requires AllOpen(seen, mod)
      modifies this
      ensures Valid() && AllModOk(pool, inBlock, Hopeless(), next) && WithSelf(pool, t) <= pool.Keys
      ensures admitted ==> fits && inBlock == old(inBlock) + Rest(pool, old(inBlock), t)
      ensures nBlockWeight >= old(nBlockWeight) && nBlockSigOpsCost >= old(nBlockSigOpsCost)
      ensures Settled(t) && AllOpen(seen + {t}, next)
      ensures !admitted ==> unchanged(this) && next == mod
      ensures !fits ==> !admitted && TooBig(t)
    {
      hide Sum, PoolOk, AllModOk, AncestorsFirst, Candidate, Hopeless;
      CandidateBounds(pool, inBlock, Hopeless(), t, package);
      CandidateParts(pool, inBlock, Hopeless(), t, package);
      fits := TestPackage(package.size, package.sigOps);
      CachedBounds(pool, inBlock, t);
      admitted, next := false, mod;
      if !fits { return; }
      var ancestors := OnlyUnconfirmed(pool[t].ancestors);
      ancestors := ancestors + {t};
      admitted := TestPackageTransactions(ancestors);
      if admitted {
        SumScaled(pool, ancestors);
        next := AddPackage(t, ancestors, mod);
        forall x | x in seen ensures Open(x, next) { if x in inBlock { InBlockSettled(x); } }
        InBlockSettled(t);
      } else {
        var u :| u in ancestors && !Admissible(u);
        assert u in WithSelf(pool, t);
      }
    }

    /** The transaction is in the block, or its package cannot be added. */
    ghost predicate Settled(t: nat)
      requires t in pool
      reads this
    {
      WithSelf(pool, t) <= pool.Keys && (t in inBlock || Excluded(t))
    }

    /** The transaction is settled, or will come up again from the side index. */
    ghost predicate Open(t: nat, mod: ModMap)
      requires t in pool
      reads this
    {
      t in mod || Settled(t)
    }

    ghost predicate AllOpen(seen: set<nat>, mod: ModMap)
      reads this
    {
      seen <= pool.Keys && forall t :: t in seen ==> Open(t, mod)
    }

    lemma NothingSeen(order: seq<nat>, mod: ModMap)
      ensures AllOpen({}, mod) && Passed(order, 0, {})
    {
    }

    lemma OpenErased(t: nat, mod: ModMap, seen: set<nat>)
      requires t in pool && Settled(t) && AllOpen(seen, mod)
      ensures AllOpen(seen, mod - {t})
    {
      forall x | x in seen ensures Open(x, mod - {t}) { assert Open(x, mod); }
    }

    lemma OpenMore(t: nat, mod: ModMap, seen: set<nat>)
      requires Valid() && t in pool && AllOpen(seen, mod) && (t in mod || t in inBlock || t in seen)
      ensures AllOpen(seen + {t}, mod)
    {
      if t in inBlock { InBlockSettled(t); }
    }

    lemma OpenSettled(order: seq<nat>, seen: set<nat>, mod: ModMap)
      requires AllOpen(seen, mod) && mod == map[] && Passed(order, |order|, seen)
      ensures AllSettled(order)
    {
      forall t | t in order ensures t in pool && Settled(t) { assert Open(t, mod); }
    }

    ghost predicate AllSettled(order: seq<nat>)
      reads this
    {
      forall t :: t in order ==> t in pool && Settled(t)
    }

    /** A candidate with these totals, not in the block, whose fees are below the minimum. */
    ghost predicate PaysTooLittle(t: nat, size: int, fees: int)
      reads this
    {
      fees < minFee(size) && exists sigOps :: Candidate(pool, inBlock, Hopeless(), t, Modified(size, fees, sigOps))
    }

    lemma TooLittle(t: nat, package: Modified)
      requires Candidate(pool, inBlock, Hopeless(), t, package) && package.fees < minFee(package.size)
      ensures PaysTooLittle(t, package.size, package.fees)
    {
      hide Candidate, Hopeless;
      assert package == Modified(package.size, package.fees, package.sigOps);
    }

    /** The side index at the start: descendants of what is in the block already. */
    method StartIndex() returns (mod: ModMap)
      requires Valid()
      ensures AllModOk(pool, inBlock, Hopeless(), mod)
    {
      hide Sum, PoolOk, AllModOk, Updated, Valid, Hopeless;
      ValidPool();
      NoModifications(pool, {} + inBlock);
      mod := UpdatePackagesForAdded(pool, inBlock, map[]);
      UpdatedModOk(pool, {}, {}, inBlock, map[], mod);
      assert {} + inBlock == inBlock;
      MoreFailed(pool, inBlock, {}, Hopeless(), mod);
    }

    lemma ValidPool()
      requires Valid()
      ensures PoolOk(pool) && inBlock <= pool.Keys && Closed(pool, inBlock)
    {
    }

    /** Whichever comes first: the next entry of the mempool's index, or the best one of the side index. */
    method Pick(order: seq<nat>, mi: nat, mod: ModMap) returns (t: nat, package: Modified, usingModified: bool)
      requires Valid() && AllModOk(pool, inBlock, Hopeless(), mod) && mi <= |order| && (mi == |order| ==> mod != map[])
      requires mi < |order| ==> order[mi] in pool && order[mi] !in inBlock && order[mi] !in mod
      ensures Candidate(pool, inBlock, Hopeless(), t, package)
      ensures if usingModified then t in mod && package == mod[t] else mi < |order| && t == order[mi]
      ensures PickedBest(order, mi, mod, t, package)
    {
      hide Sum, PoolOk, AllModOk, ModOk, Valid, Hopeless, Candidate, Better, Sized, PickedBest;
      ValidPool();
      ModSized(pool, inBlock, Hopeless(), mod);
      usingModified := false;
      var best := 0;
      if mod != map[] {
        assert mod.Keys != {};
        ghost var first := BestExists(pool, mod, mod.Keys);
        best :| best in mod.Keys && forall d :: d in mod.Keys ==> !Better(pool, d, mod[d], best, mod[best]);
        usingModified := mi == |order| || Better(pool, best, mod[best], order[mi], Cached(pool, order[mi]));
      }
      if usingModified {
        t, package := best, mod[best];
        ModOkOf(pool, inBlock, Hopeless(), mod, t);
        ModCandidate(pool, inBlock, Hopeless(), t, package);
      } else {
        t := order[mi];
        package := Cached(pool, t);
        CachedOk(pool, inBlock, Hopeless(), mod, t);
        CandidatePositive(pool, inBlock, Hopeless(), t, package);
      }
      IsPickedBest(order, mi, mod, t, package, best, usingModified);
    }

    /** Neither the next entry of the mempool's index nor one of the side index comes before the candidate. */
    ghost predicate PickedBest(order: seq<nat>, mi: nat, mod: ModMap, t: nat, package: Modified)
      requires mi <= |order|
    {
      && t in pool && mod.Keys <= pool.Keys
      && (mi < |order| ==> order[mi] in pool && NotAfter(pool, t, package, order[mi], Cached(pool, order[mi])))
      && (forall d :: d in mod ==> NotAfter(pool, t, package, d, mod[d]))
    }

    lemma IsPickedBest(order: seq<nat>, mi: nat, mod: ModMap, t: nat, package: Modified, best: nat, usingModified: bool)
      requires mi <= |order| && mod.Keys <= pool.Keys && (mi < |order| ==> order[mi] in pool && order[mi] !in mod)
      requires forall d :: d in mod ==> Sized(pool, d, mod[d])
      requires mod != map[] ==> best in mod && BestIn(pool, mod, mod.Keys, best)
      requires usingModified ==> mod != map[] && t == best && package == mod[best]
      requires usingModified && mi < |order| ==> Better(pool, t, package, order[mi], Cached(pool, order[mi]))
      requires !usingModified ==>
                 mi < |order| && t == order[mi] && package == Cached(pool, t) && Sized(pool, t, package)
      requires !usingModified && mod != map[] ==> !Better(pool, best, mod[best], t, package)
      ensures PickedBest(order, mi, mod, t, package)
    {
      hide Better, Sized;
      forall d | d in mod ensures NotAfter(pool, t, package, d, mod[d]) {
        if !usingModified { NotAfterTransitive(pool, t, package, best, mod[best], d, mod[d]); }
      }
      if mi < |order| {
        if usingModified {
          BetterTotal(pool, t, package, order[mi], Cached(pool, order[mi]));
        } else {
          NotAfterItself(pool, t, package);
        }
      }
    }

    /** The index is sorted by score. */
    ghost predicate ByScore(order: seq<nat>) {
      && (forall t :: t in order ==> t in pool)
      && forall i, j :: 0 <= i < j < |order| ==>
           NotAfter(pool, order[i], Cached(pool, order[i]), order[j], Cached(pool, order[j]))
    }

    /** Of what could still be added, nothing comes before the candidate. */
    ghost predicate NoneBetter(order: seq<nat>, t: nat, package: Modified)
      requires t in pool
      reads this
    {
      forall d :: d in order && d in pool && !Settled(d) ==> Follows(d, t, package)
    }

    ghost predicate Follows(d: nat, t: nat, package: Modified)
      requires t in pool && d in pool
      reads this
    {
      exists e :: Candidate(pool, inBlock, Hopeless(), d, e) && NotAfter(pool, t, package, d, e)
    }

    lemma NothingBetter(order: seq<nat>, mi: nat, mod: ModMap, seen: set<nat>, t: nat, package: Modified)
      requires Valid() && AllModOk(pool, inBlock, Hopeless(), mod) && AllOpen(seen, mod)
      requires mi <= |order| && Passed(order, mi, seen) && PickedBest(order, mi, mod, t, package)
      requires Candidate(pool, inBlock, Hopeless(), t, package)
      ensures ByScore(order) ==> NoneBetter(order, t, package)
    {
      hide Sum, PoolOk, AllModOk, ModOk, Valid, Hopeless, Candidate, Settled, NotAfter, Sized, Follows;
      ValidPool();
      CandidatePositive(pool, inBlock, Hopeless(), t, package);
      if ByScore(order) {
        forall d | d in order && d in pool && !Settled(d) ensures Follows(d, t, package) {
          if d in mod {
            ModOkOf(pool, inBlock, Hopeless(), mod, d);
            ModCandidate(pool, inBlock, Hopeless(), d, mod[d]);
            FollowsIs(d, t, package, mod[d]);
          } else {
            Unseen(d, mod, seen);
            var k :| 0 <= k < |order| && order[k] == d;
            NotSettled(d);
            CachedOk(pool, inBlock, Hopeless(), mod, d);
            CandidatePositive(pool, inBlock, Hopeless(), d, Cached(pool, d));
            LaterNotBefore(order, mi, k, t, package);
            FollowsIs(d, t, package, Cached(pool, d));
          }
        }
      }
    }

    /** Scores do not depend on sigops. */
    lemma SigOpsAside(order: seq<nat>, t: nat, package: Modified)
      requires t in pool && NoneBetter(order, t, package)
      ensures NoneBetter(order, t, Modified(package.size, package.fees, 0))
    {
      hide Candidate, Hopeless, Settled;
      var other := Modified(package.size, package.fees, 0);
      forall d | d in order && d in pool && !Settled(d) ensures Follows(d, t, other) {
        assert Follows(d, t, package);
        var e :| Candidate(pool, inBlock, Hopeless(), d, e) && NotAfter(pool, t, package, d, e);
        assert RateOf(pool, t, package) == RateOf(pool, t, other);
        FollowsIs(d, t, other, e);
      }
    }

    lemma Unseen(d: nat, mod: ModMap, seen: set<nat>)
      requires AllOpen(seen, mod) && d in pool && d !in mod && !Settled(d)
      ensures d !in seen
    {
      hide Settled;
    }

    lemma FollowsIs(d: nat, t: nat, package: Modified, e: Modified)
      requires t in pool && d in pool && Candidate(pool, inBlock, Hopeless(), d, e) && NotAfter(pool, t, package, d, e)
      ensures Follows(d, t, package)
    {
      hide Candidate, NotAfter, Hopeless;
    }

    lemma NotSettled(d: nat)
      requires Valid() && d in pool && !Settled(d)
      ensures d !in inBlock
    {
      hide Valid;
      if d in inBlock { InBlockSettled(d); }
    }

    lemma LaterNotBefore(order: seq<nat>, mi: nat, k: nat, t: nat, package: Modified)
      requires PoolOk(pool) && mi <= k < |order| && ByScore(order) && Sized(pool, t, package)
      requires t in pool && order[mi] in pool && NotAfter(pool, t, package, order[mi], Cached(pool, order[mi]))
      ensures order[k] in pool && NotAfter(pool, t, package, order[k], Cached(pool, order[k]))
    {
      hide Better, PoolOk, Sum;
      assert order[k] in pool;
      CachedPositive(pool, order[mi]);
      CachedPositive(pool, order[k]);
      if mi < k {
        NotAfterTransitive(pool, t, package, order[mi], Cached(pool, order[mi]), order[k], Cached(pool, order[k]));
      }
    }

    /** How many transactions are not in the block. */
    ghost function Outside(): nat
      reads this
    {
      |pool.Keys - inBlock|
    }

    static ghost function Entries(mod: ModMap): nat { |mod.Keys| }

    /** One candidate: it is added with its package, or it is settled and leaves the side index. */
    method Consider(t: nat, package: Modified, usingModified: bool, mod: ModMap, ghost seen: set<nat>)
      returns (fits: bool, admitted: bool, next: ModMap)
      requires Valid() && AllModOk(pool, inBlock, Hopeless(), mod) && Candidate(pool, inBlock, Hopeless(), t, package)
      requires AllOpen(seen, mod)
      requires usingModified ==> t in mod
      modifies this
      ensures Valid() && AllModOk(pool, inBlock, Hopeless(), next) && AllOpen(seen + {t}, next)
      ensures old(inBlock) <= inBlock <= pool.Keys
      ensures t in pool && (admitted ==> fits && inBlock == old(inBlock) + Rest(pool, old(inBlock), t))
      ensures admitted ==> Outside() < old(Outside())
      ensures !admitted ==> unchanged(this) && next == (if usingModified then mod - {t} else mod)
      ensures t !in old(inBlock) && (!fits ==> !admitted && TooBig(t))
      ensures !admitted ==> Outside() == old(Outside()) && (usingModified ==> Entries(next) < Entries(mod))
    {
      hide Sum, PoolOk, AllModOk, ModOk, Valid, Settled, AllOpen, Candidate, Hopeless;
      CandidateParts(pool, inBlock, Hopeless(), t, package);
      fits, admitted, next := TryPackage(t, package, mod, seen);
      ValidPool();
      if admitted {
        Smaller(pool.Keys - inBlock, pool.Keys - old(inBlock), t);
      } else if usingModified {
        OpenErased(t, next, seen + {t});
        next := next - {t};
        IsHopeless(t);
        Erased(pool, inBlock, Hopeless(), mod, t);
      }
    }

    /** The n candidates that failed last, one after the other, for being too big. */
    ghost predicate Missed(misses: set<nat>, n: nat, order: seq<nat>, mi: nat, failed: set<nat>, mod: ModMap)
      requires mi <= |order|
      reads this
    {
      Distinct(order) ==>
        && |misses| == n && misses !! mod.Keys && misses !! inBlock
        && forall t :: t in misses ==> t in pool && TooBig(t) && (t in failed || t in order[..mi])
    }

    lemma NoMisses(order: seq<nat>, mi: nat, failed: set<nat>, mod: ModMap)
      requires mi <= |order|
      ensures Missed({}, 0, order, mi, failed, mod)
    {
    }

    lemma MissedStill(misses: set<nat>, n: nat, order: seq<nat>, mi: nat, more: nat, failed: set<nat>, fails: set<nat>,
                      mod: ModMap, next: ModMap)
      requires mi <= more <= |order| && failed <= fails && next.Keys <= mod.Keys
      requires Missed(misses, n, order, mi, failed, mod)
      ensures Missed(misses, n, order, more, fails, next)
    {
      forall t | t in order[..mi] ensures t in order[..more] { }
    }

    lemma MissesFound(misses: set<nat>, n: nat, order: seq<nat>, mi: nat, failed: set<nat>, mod: ModMap)
      requires mi <= |order| && Missed(misses, n, order, mi, failed, mod)
      ensures Distinct(order) ==>
                |misses| == n && misses !! inBlock && forall t :: t in misses ==> t in pool && TooBig(t)
    {
    }

    lemma MissedMore(misses: set<nat>, n: nat, order: seq<nat>, mi: nat, failed: set<nat>, mod: ModMap, t: nat,
                     usingModified: bool)
      requires mi <= |order| && Missed(misses, n, order, mi, failed, mod) && t in pool && TooBig(t) && t !in inBlock
      requires if usingModified then t in mod else mi < |order| && t == order[mi] && t !in mod && t !in failed
      ensures if usingModified then Missed(misses + {t}, n + 1, order, mi, failed + {t}, mod - {t})
              else Missed(misses + {t}, n + 1, order, mi + 1, failed, mod)
    {
      if Distinct(order) {
        assert t !in misses;
        if !usingModified { assert order[..mi + 1] == order[..mi] + [t]; }
      }
    }

    /** The side index is right, what has been passed or looked at is settled or will come up again, and the
        failures are counted. */
    ghost predicate Going(order: seq<nat>, mi: nat, mod: ModMap, failed: set<nat>, seen: set<nat>, misses: set<nat>,
                          nFailed: nat)
      requires mi <= |order|
      reads this
    {
      && AllModOk(pool, inBlock, Hopeless(), mod) && failed <= seen && Passed(order, mi, seen) && AllOpen(seen, mod)
      && Missed(misses, nFailed, order, mi, failed, mod)
    }

    lemma GoingStart(order: seq<nat>, mod: ModMap)
      requires AllModOk(pool, inBlock, Hopeless(), mod)
      ensures Going(order, 0, mod, {}, {}, {}, 0)
    {
      hide AllModOk, Hopeless, AllOpen, Missed;
      NothingSeen(order, mod);
      NoMisses(order, 0, {}, mod);
    }

    /** An entry that is in the side index, in the block or has failed is skipped. */
    lemma GoingSkip(order: seq<nat>, mi: nat, mod: ModMap, failed: set<nat>, seen: set<nat>, misses: set<nat>,
                    nFailed: nat)
      requires Valid() && mi < |order| && Going(order, mi, mod, failed, seen, misses, nFailed) && order[mi] in pool
      requires order[mi] in mod || order[mi] in inBlock || order[mi] in failed
      ensures Going(order, mi + 1, mod, failed, seen + {order[mi]}, misses, nFailed)
    {
      hide AllModOk, Hopeless, AllOpen, Missed, Valid, Passed;
      OpenMore(order[mi], mod, seen);
      PassedMore(order, mi, seen, order[mi]);
      MissedStill(misses, nFailed, order, mi, mi + 1, failed, failed, mod, mod);
    }

    lemma GoingParts(order: seq<nat>, mi: nat, mod: ModMap, failed: set<nat>, seen: set<nat>, misses: set<nat>,
                     nFailed: nat)
      requires mi <= |order| && Going(order, mi, mod, failed, seen, misses, nFailed)
      ensures AllModOk(pool, inBlock, Hopeless(), mod) && AllOpen(seen, mod) && failed <= seen
      ensures Passed(order, mi, seen) && Missed(misses, nFailed, order, mi, failed, mod)
    {
    }

    /** The fee of the candidate is too low, and nothing better is left. */
    lemma StopLow(order: seq<nat>, mi: nat, mod: ModMap, failed: set<nat>, seen: set<nat>, misses: set<nat>,
                  nFailed: nat, t: nat, package: Modified)
      requires Valid() && mi <= |order| && Going(order, mi, mod, failed, seen, misses, nFailed)
      requires Candidate(pool, inBlock, Hopeless(), t, package) && package.fees < minFee(package.size)
      requires PickedBest(order, mi, mod, t, package)
      ensures PaysTooLittle(t, package.size, package.fees) && t in pool
      ensures ByScore(order) ==> NoneBetter(order, t, Modified(package.size, package.fees, 0))
    {
      hide Valid, AllModOk, Hopeless, AllOpen, Missed, Passed, Candidate, PickedBest, NoneBetter, PaysTooLittle,
           ByScore, Going;
      GoingParts(order, mi, mod, failed, seen, misses, nFailed);
      CandidateParts(pool, inBlock, Hopeless(), t, package);
      TooLittle(t, package);
      NothingBetter(order, mi, mod, seen, t, package);
      if ByScore(order) { SigOpsAside(order, t, package); }
    }

    lemma StopFull(order: seq<nat>, mi: nat, mod: ModMap, failed: set<nat>, seen: set<nat>, misses: set<nat>,
                   nFailed: nat)
      requires mi <= |order| && Going(order, mi, mod, failed, seen, misses, nFailed)
      ensures Distinct(order) ==> |misses| == nFailed && misses !! inBlock
                                  && forall t :: t in misses ==> t in pool && TooBig(t)
    {
      hide AllModOk, Hopeless, AllOpen, Passed, Missed;
      MissesFound(misses, nFailed, order, mi, failed, mod);
    }

    lemma StopDone(order: seq<nat>, failed: set<nat>, seen: set<nat>, misses: set<nat>, nFailed: nat)
      requires Going(order, |order|, map[], failed, seen, misses, nFailed)
      ensures AllSettled(order)
    {
      hide AllModOk, Hopeless, AllOpen, Passed, Missed;
      OpenSettled(order, seen, map[]);
    }

    /** One round of the loop: the candidate is considered, and the failures are counted. */
    method Round(order: seq<nat>, mi: nat, mod: ModMap, failed: set<nat>, nFailed: nat, t: nat, package: Modified,
                 usingModified: bool, ghost seen: set<nat>, ghost misses: set<nat>)
      returns (fits: bool, admitted: bool, next: ModMap, fails: set<nat>, nFails: nat, ghost missed: set<nat>)
      requires Valid() && mi <= |order| && Going(order, mi, mod, failed, seen, misses, nFailed)
      requires Candidate(pool, inBlock, Hopeless(), t, package)
      requires if usingModified then t in mod else mi < |order| && t == order[mi] && t !in mod && t !in failed
      modifies this
      ensures Valid() && Going(order, if usingModified then mi else mi + 1, next, fails, seen + {t}, missed, nFails)
      ensures old(inBlock) <= inBlock <= pool.Keys && t in pool
      ensures admitted ==> inBlock == old(inBlock) + Rest(pool, old(inBlock), t) && Outside() < old(Outside())
      ensures !admitted ==> unchanged(this) && Outside() == old(Outside())
      ensures !admitted && usingModified ==> Entries(next) < Entries(mod)
      ensures !admitted && !usingModified ==> next == mod
      ensures nFails == if admitted then 0 else if fits then nFailed else nFailed + 1
    {
      hide Sum, PoolOk, AllModOk, ModOk, Valid, Settled, AllOpen, Passed, Outside, Entries, Candidate, Hopeless, Missed,
           TooBig, Rest;
      fits, admitted, next := Consider(t, package, usingModified, mod, seen);
      PassedMore(order, mi, seen, t);
      ghost var at := if usingModified then mi else mi + 1;
      fails, nFails, missed := failed, nFailed, misses;
      if admitted {
        nFails, missed := 0, {};
        NoMisses(order, at, failed, next);
      } else {
        if usingModified {
          fails := failed + {t};
        }
        if fits {
          MissedStill(misses, nFailed, order, mi, at, failed, fails, mod, next);
        } else {
          nFails, missed := nFailed + 1, misses + {t};
          MissedMore(misses, nFailed, order, mi, failed, mod, t, usingModified);
        }
      }
    }

    /** Candidates come from the mempool's index, in its order, or from the side index. */
    method AddPackageTxs(order: seq<nat>) returns (stop: Stop, ghost log: seq<Selected>)
      requires Valid() && forall t :: t in order ==> t in pool
      modifies this
      ensures Valid() && Built(log, old(inBlock), inBlock) && old(inBlock) <= inBlock
      ensures stop.Exhausted? ==> AllSettled(order)
      ensures stop.NearlyFull? ==> nBlockWeight > maxWeight - 4000
      ensures stop.NearlyFull? && Distinct(order) ==> exists misses: set<nat> ::
                && |misses| > 1000 && misses !! inBlock
                && forall t :: t in misses ==> t in pool && TooBig(t)
      ensures stop.FeeTooLow? ==> stop.candidate in pool && PaysTooLittle(stop.candidate, stop.size, stop.fees)
      ensures stop.FeeTooLow? && ByScore(order) ==>
                NoneBetter(order, stop.candidate, Modified(stop.size, stop.fees, 0))
    {
      hide Sum, Valid, AllSettled, PaysTooLittle, Outside, Entries, Candidate, Hopeless, HopelessAt, TooBig, Built,
           Rest, PickedBest, NoneBetter, ByScore, Going, Distinct, PoolOk, AllModOk, AllOpen, Passed, Missed, Closed;
      ValidPool();
      log := [];
      NothingBuilt();
      var mod := StartIndex();
      var failed: set<nat> := {};
      var mi, nConsecutiveFailed := 0, 0;
      ghost var seen: set<nat> := {};
      ghost var misses: set<nat> := {};
      GoingStart(order, mod);
      while mi < |order| || mod != map[]
        invariant 0 <= mi <= |order| && Valid() && inBlock <= pool.Keys && old(inBlock) <= inBlock
        invariant Going(order, mi, mod, failed, seen, misses, nConsecutiveFailed) && Built(log, old(inBlock), inBlock)
        decreases Outside(), |order| - mi + Entries(mod)
      {
        if mi < |order| && (order[mi] in mod || order[mi] in inBlock || order[mi] in failed) {
          GoingSkip(order, mi, mod, failed, seen, misses, nConsecutiveFailed);
          seen := seen + {order[mi]};
          mi := mi + 1;
          continue;
        }
        GoingParts(order, mi, mod, failed, seen, misses, nConsecutiveFailed);
        var t, package, usingModified := Pick(order, mi, mod);
        assert t !in inBlock by { CandidateParts(pool, inBlock, Hopeless(), t, package); }
        if package.fees < minFee(package.size) {
          StopLow(order, mi, mod, failed, seen, misses, nConsecutiveFailed, t, package);
          stop := FeeTooLow(t, package.size, package.fees);
          return;
        }
        ghost var before := inBlock;
        HopelessNow();
        var fits, admitted;
        fits, admitted, mod, failed, nConsecutiveFailed, misses :=
          Round(order, mi, mod, failed, nConsecutiveFailed, t, package, usingModified, seen, misses);
        seen := seen + {t};
        if !usingModified {
          mi := mi + 1;
        }
        if admitted {
          BuiltMore(log, old(inBlock), before, t, package, inBlock);
          log := log + [Selected(t, package, before)];
        } else if !fits && nConsecutiveFailed > MAX_CONSECUTIVE_FAILURES && nBlockWeight > maxWeight - 4000 {
          StopFull(order, mi, mod, failed, seen, misses, nConsecutiveFailed);
          stop := NearlyFull;
          return;
        }
      }
      stop := Exhausted;
      StopDone(order, failed, seen, misses, nConsecutiveFailed);
    }

    lemma InBlockSettled(t: nat)
      requires Valid() && t in pool
      ensures t in inBlock ==> Settled(t)
    {
      PackageInPool(pool, t);
    }
  }

  lemma NoModifications(pool: Pool, failed: set<nat>)
    ensures AllModOk(pool, {}, failed, map[])
  {
  }

  lemma ModOkOf(pool: Pool, inBlock: set<nat>, failed: set<nat>, mod: ModMap, t: nat)
    requires AllModOk(pool, inBlock, failed, mod) && t in mod
    ensures ModOk(pool, inBlock, failed, t, mod[t])
  {
  }

  lemma ModCandidate(pool: Pool, inBlock: set<nat>, failed: set<nat>, t: nat, e: Modified)
    requires ModOk(pool, inBlock, failed, t, e)
    ensures Candidate(pool, inBlock, failed, t, e)
  {
    hide Corrected;
  }

  lemma CandidateParts(pool: Pool, inBlock: set<nat>, failed: set<nat>, t: nat, e: Modified)
    requires Candidate(pool, inBlock, failed, t, e)
    ensures t in pool && t !in inBlock
  {
  }

  /** What is not in the side index has the totals that the mempool caches. */
  lemma CachedOk(pool: Pool, inBlock: set<nat>, failed: set<nat>, mod: ModMap, t: nat)
    requires PoolOk(pool) && AllModOk(pool, inBlock, failed, mod) && t in pool && t !in mod && t !in inBlock
    ensures Candidate(pool, inBlock, failed, t, Cached(pool, t))
  {
    hide Sum, PoolOk, AllModOk;
    PackageInPool(pool, t);
    SumNone(pool, Size);
    SumNone(pool, SigOps);
    SumNone(pool, Fee);
    SumNone(pool, ModFee);
    if t !in failed { NotInIndex(pool, inBlock, failed, mod, t); }
    var none: set<nat> := {};
    assert none - none == none;
    assert Corrected(pool, inBlock, failed, t, Cached(pool, t), none, none);
  }

  lemma CachedPositive(pool: Pool, t: nat)
    requires PoolOk(pool) && t in pool
    ensures Sized(pool, t, Cached(pool, t))
  {
    hide Sum, PoolOk;
    PackageInPool(pool, t);
    SumAtLeast(pool, Size, WithSelf(pool, t), t);
  }

  lemma ModSized(pool: Pool, inBlock: set<nat>, failed: set<nat>, mod: ModMap)
    requires PoolOk(pool) && AllModOk(pool, inBlock, failed, mod)
    ensures mod.Keys <= pool.Keys && forall d :: d in mod ==> Sized(pool, d, mod[d])
  {
    hide PoolOk, ModOk, Candidate;
    forall d | d in mod ensures d in pool && Sized(pool, d, mod[d]) {
      ModCandidate(pool, inBlock, failed, d, mod[d]);
      CandidateParts(pool, inBlock, failed, d, mod[d]);
      CandidatePositive(pool, inBlock, failed, d, mod[d]);
    }
  }

  lemma PackageInPool(pool: Pool, t: nat)
    requires PoolOk(pool) && t in pool
    ensures WithSelf(pool, t) <= pool.Keys && pool[t].size > 0
    ensures pool[t].sizeWithAncestors == Sum(pool, Size, WithSelf(pool, t))
    ensures pool[t].sigOpsWithAncestors == Sum(pool, SigOps, WithSelf(pool, t))
    ensures pool[t].modFeesWithAncestors == Sum(pool, ModFee, WithSelf(pool, t))
  {
    hide Sum;
    assert EntryOk(pool, t);
  }

  lemma ClosedMore(pool: Pool, inBlock: set<nat>, t: nat)
    requires PoolOk(pool) && Closed(pool, inBlock) && t in pool
    ensures Closed(pool, inBlock + Rest(pool, inBlock, t))
  {
    hide Sum, PoolOk;
    var all := inBlock + Rest(pool, inBlock, t);
    PackageInPool(pool, t);
    forall x, a | x in all && a in pool[x].ancestors ensures a in all {
      if x !in inBlock { AncestorOfMember(pool, inBlock, t, x, a); }
    }
  }

  /** What the mempool caches bounds what adding the package would add. */
  lemma CachedBounds(pool: Pool, inBlock: set<nat>, t: nat)
    requires PoolOk(pool) && t in pool
    ensures Rest(pool, inBlock, t) <= WithSelf(pool, t) <= pool.Keys
    ensures Sum(pool, Size, Rest(pool, inBlock, t)) <= pool[t].sizeWithAncestors
    ensures Sum(pool, SigOps, Rest(pool, inBlock, t)) <= pool[t].sigOpsWithAncestors
  {
    hide Sum, PoolOk;
    PackageInPool(pool, t);
    SumSubset(pool, Size, Rest(pool, inBlock, t), WithSelf(pool, t));
    SumSubset(pool, SigOps, Rest(pool, inBlock, t), WithSelf(pool, t));
  }

  lemma ModLess(pool: Pool, inBlock: set<nat>, failed: set<nat>, mod: ModMap, left: ModMap, removed: set<nat>)
    requires AllModOk(pool, inBlock, failed, mod) && left == mod - removed
    ensures AllModOk(pool, inBlock, failed + removed, left) && left.Keys <= pool.Keys
  {
    hide ModOk, Untouched;
    forall d | d in left ensures ModOk(pool, inBlock, failed + removed, d, left[d]) && d in pool {
      assert ModOk(pool, inBlock, failed, d, mod[d]);
      MoreFailedAt(pool, inBlock, failed, failed + removed, d, mod[d]);
    }
  }

  lemma MoreFailedAt(pool: Pool, inBlock: set<nat>, failed: set<nat>, more: set<nat>, d: nat, e: Modified)
    requires ModOk(pool, inBlock, failed, d, e) && failed <= more
    ensures ModOk(pool, inBlock, more, d, e) && d in pool
  {
    hide Sum;
    var first, gone :| Corrected(pool, inBlock, failed, d, e, first, gone) && first != {};
    assert Corrected(pool, inBlock, more, d, e, first, gone);
  }

  lemma MoreFailed(pool: Pool, inBlock: set<nat>, failed: set<nat>, more: set<nat>, mod: ModMap)
    requires AllModOk(pool, inBlock, failed, mod) && failed <= more
    ensures AllModOk(pool, inBlock, more, mod)
  {
    hide ModOk, Untouched;
    forall d | d in mod ensures ModOk(pool, inBlock, more, d, mod[d]) {
      MoreFailedAt(pool, inBlock, failed, more, d, mod[d]);
    }
  }

  lemma Erased(pool: Pool, inBlock: set<nat>, failed: set<nat>, mod: ModMap, t: nat)
    requires AllModOk(pool, inBlock, failed, mod) && t in mod && t in failed
    ensures AllModOk(pool, inBlock, failed, mod - {t}) && |(mod - {t}).Keys| < |mod.Keys|
  {
    hide AllModOk;
    ModLess(pool, inBlock, failed, mod, mod - {t}, {t});
    assert failed + {t} == failed;
    assert (mod - {t}).Keys == mod.Keys - {t};
  }

  lemma UpdatedKeeps(pool: Pool, added: set<nat>, mod: ModMap, next: ModMap)
    requires added <= pool.Keys && mod.Keys <= pool.Keys && Updated(pool, added, mod, added, next)
    ensures mod.Keys <= next.Keys
  {
    forall d | d in mod ensures d in next { assert UpdatedAt(pool, added, mod, added, next, d); }
  }
}
